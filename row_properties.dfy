/** What one row does to the store and to the result, as properties of
    Reconcile.ProcessRow. */
module RowProperties {
  import opened Records
  import opened Validation
  import opened Reconcile

  /** `c2` is `c` after an import touched it: same id, name and number, and
      every address it had is still there, on the same street, city and country. */
  predicate Kept(c: Company, c2: Company) {
    && c2.id == c.id
    && c2.name == c.name
    && c2.registrationNumber == c.registrationNumber
    && |c2.addresses| >= |c.addresses|
    && forall m :: 0 <= m < |c.addresses| ==> SiteOf(c2.addresses[m]) == SiteOf(c.addresses[m])
  }

  /** `db2` is `db` after writes confined to the company under `touched`: no
      company removed, each kept, only `touched` changed or added. */
  predicate Extends(db: Db, db2: Db, touched: Option<int>) {
    && db2.nextId >= db.nextId
    && (forall k :: k in db2.companies ==> k in db.companies || Some(k) == touched)
    && (forall k :: k in db.companies ==> k in db2.companies && Kept(db.companies[k], db2.companies[k]))
    && (forall k :: k in db.companies && Some(k) != touched ==> db2.companies[k] == db.companies[k])
  }

  /** No error of the list is the uniqueness failure. */
  predicate NoneTaken(errs: seq<FieldError>) {
    forall i :: 0 <= i < |errs| ==> errs[i].kind != AlreadyTaken
  }

  /** The new company a row builds when its number finds none, as it stands
      when it is saved. */
  function BuiltCompany(row: Row): Draft {
    Fresh(row.name, row.registrationNumber, [AddressOf(row)])
  }

  /** The raw number is not blank, does not start like a number (so the lookup
      finds nothing and the attribute holds 0), and a company is stored under 0. */
  predicate ClashesAtZero(db: Db, raw: Option<string>) {
    !Blank(raw) && CastKey(raw).None? && 0 in db.companies
  }

  /** The row's result, in terms of its two steps. */
  lemma RowSteps(db: Db, row: Row, index: nat)
    ensures var c := FindOrBuildCompany(db, row);
      var a := AddOrUpdateAddress(db, c, row, index);
      var r := ProcessRow(db, row, index);
      && (a.Skipped? ==> r == RowResult(db, Rejected(a.entry)))
      && (a.Attached? ==> var s := SaveCompany(a.db, a.company, index);
            && (s.Saved? ==> r == RowResult(s.db, Imported(s.id)))
            && (s.NotSaved? ==> r == RowResult(a.db, Rejected(s.entry))))
  {
  }

  /** The address step on a new company writes nothing and leaves the draft
      with the row's address built onto it; on a stored company it leaves the
      draft as it is and changes no key and no id. */
  lemma AddressStepShape(db: Db, company: Draft, row: Row, index: nat)
    requires company.Persisted? ==> company.key in db.companies
    ensures var a := AddOrUpdateAddress(db, company, row, index);
      a.Attached? ==>
        && (company.Fresh? ==> a.db == db && a.company == company.(addresses := company.addresses + [AddressOf(row)]))
        && (company.Persisted? ==> a.company == company)
        && a.db.companies.Keys == db.companies.Keys && a.db.nextId == db.nextId
  {
  }

  /** The address step writes only to the stored company it was given. */
  lemma AddressStepExtends(db: Db, company: Draft, row: Row, index: nat)
    requires company.Persisted? ==> company.key in db.companies
    ensures var a := AddOrUpdateAddress(db, company, row, index);
      a.Attached? ==> Extends(db, a.db, if company.Persisted? then Some(company.key) else None)
  {
    var a := AddOrUpdateAddress(db, company, row, index);
    if a.Attached? && company.Persisted? {
      var stored := db.companies[company.key].addresses;
      match FindAddress(stored, RowSite(row))
      case Some(j) =>
        var updated := stored[j := AddressOf(row)];
        assert forall m :: 0 <= m < |stored| ==> SiteOf(updated[m]) == SiteOf(stored[m]);
      case None =>
    }
  }

  /** The address step writes only valid addresses, keeps ids apart, and
      never puts a second address on a site. */
  lemma AddressStepKeepsInvariants(db: Db, company: Draft, row: Row, index: nat)
    requires company.Persisted? ==> company.key in db.companies
    ensures var a := AddOrUpdateAddress(db, company, row, index);
      a.Attached? ==>
        && (Consistent(db) ==> Consistent(a.db))
        && (StoredValid(db) ==> StoredValid(a.db))
        && (DistinctSites(db) ==> DistinctSites(a.db))
  {
    AddressStepKeepsSites(db, company, row, index);
    AddressStepKeepsValid(db, company, row, index);
    AddressStepShape(db, company, row, index);
    var a := AddOrUpdateAddress(db, company, row, index);
    if a.Attached? && company.Persisted? {
      assert forall k :: k in db.companies ==>
        a.db.companies[k].id == db.companies[k].id && a.db.companies[k].registrationNumber == db.companies[k].registrationNumber;
    }
  }

  lemma AddressStepKeepsValid(db: Db, company: Draft, row: Row, index: nat)
    requires company.Persisted? ==> company.key in db.companies
    ensures var a := AddOrUpdateAddress(db, company, row, index);
      a.Attached? && StoredValid(db) ==> StoredValid(a.db)
  {
    var a := AddOrUpdateAddress(db, company, row, index);
    if a.Attached? && company.Persisted? && StoredValid(db) {
      var stored := db.companies[company.key].addresses;
      assert ValidAddress(AddressOf(row));
      assert forall m :: 0 <= m < |a.db.companies[company.key].addresses| ==> ValidAddress(a.db.companies[company.key].addresses[m]);
    }
  }

  lemma AddressStepKeepsSites(db: Db, company: Draft, row: Row, index: nat)
    requires company.Persisted? ==> company.key in db.companies
    ensures var a := AddOrUpdateAddress(db, company, row, index);
      a.Attached? && DistinctSites(db) ==> DistinctSites(a.db)
  {
    var a := AddOrUpdateAddress(db, company, row, index);
    if a.Attached? && company.Persisted? {
      var stored := db.companies[company.key].addresses;
      match FindAddress(stored, RowSite(row))
      case Some(j) =>
        var updated := stored[j := AddressOf(row)];
        assert forall m :: 0 <= m < |stored| ==> SiteOf(updated[m]) == SiteOf(stored[m]);
        assert SitesDistinct(stored) ==> SitesDistinct(updated);
      case None =>
        var appended := stored + [AddressOf(row)];
        assert SitesDistinct(stored) ==> SitesDistinct(appended);
    }
  }

  lemma ExtendsTransitive(db0: Db, db1: Db, db2: Db, touched: Option<int>)
    requires Extends(db0, db1, touched) && Extends(db1, db2, touched)
    ensures Extends(db0, db2, touched)
  {
    forall k | k in db0.companies
      ensures Kept(db0.companies[k], db2.companies[k])
    {
      var c0, c1, c2 := db0.companies[k], db1.companies[k], db2.companies[k];
      assert Kept(c0, c1) && Kept(c1, c2);
      assert forall m :: 0 <= m < |c0.addresses| ==> SiteOf(c2.addresses[m]) == SiteOf(c1.addresses[m]);
    }
  }

  /** Saving a stored company writes nothing; saving a new one inserts it under
      the number it spells, with the next id. */
  lemma SaveStepWrites(db: Db, company: Draft, index: nat)
    requires company.Persisted? ==> company.key in db.companies
    ensures var s := SaveCompany(db, company, index);
      s.Saved? ==>
        && (company.Persisted? ==> s.db == db && s.id == db.companies[company.key].id)
        && (company.Fresh? ==>
              && company.name.Some? && company.registrationNumber.Some?
              && IsIntegerLiteral(company.registrationNumber.value)
              && !Taken(db, company.registrationNumber)
              && CastKey(company.registrationNumber).Some?
              && var key := CastKey(company.registrationNumber).value;
                 && s.db == Db(db.companies[key := Company(db.nextId, company.name.value, key, company.addresses)], db.nextId + 1)
                 && s.id == db.nextId)
  {
    var s := SaveCompany(db, company, index);
    if s.Saved? && company.Fresh? {
      assert ValidCompany(db, company);
      var number := company.registrationNumber;
      IntegerLiteralKey(number.value);
      assert !Taken(db, number);
    }
  }

  /** Saving writes nothing to a stored company and adds only the new one. */
  lemma SaveStepExtends(db: Db, company: Draft, index: nat)
    requires company.Persisted? ==> company.key in db.companies
    ensures var s := SaveCompany(db, company, index);
      s.Saved? ==> Extends(db, s.db, if company.Persisted? then Some(company.key) else CastKey(company.registrationNumber))
  {
    SaveStepWrites(db, company, index);
  }

  /** A row never removes a company, never changes a stored company's id, name
      or registration number, never removes an address nor moves one to another
      street, city or country, and touches no company but the one its
      registration number names. */
  lemma RowKeepsStoredCompanies(db: Db, row: Row, index: nat)
    ensures Extends(db, ProcessRow(db, row, index).db, CastKey(row.registrationNumber))
  {
    RowSteps(db, row, index);
    var c := FindOrBuildCompany(db, row);
    var a := AddOrUpdateAddress(db, c, row, index);
    if a.Attached? {
      AddressStepShape(db, c, row, index);
      AddressStepExtends(db, c, row, index);
      SaveStepExtends(a.db, a.company, index);
      var s := SaveCompany(a.db, a.company, index);
      if s.Saved? {
        ExtendsTransitive(db, a.db, s.db, CastKey(row.registrationNumber));
      }
    }
  }

  /** Saving keeps the store's invariants: a new company gets an id no other
      has, valid fields and the single address built for it. */
  lemma SaveStepKeepsInvariants(db: Db, company: Draft, index: nat)
    requires company.Persisted? ==> company.key in db.companies
    requires company.Fresh? ==> |company.addresses| == 1
    ensures var s := SaveCompany(db, company, index);
      s.Saved? ==>
        && (Consistent(db) ==> Consistent(s.db))
        && (StoredValid(db) ==> StoredValid(s.db))
        && (DistinctSites(db) ==> DistinctSites(s.db))
  {
    SaveStepWrites(db, company, index);
    var s := SaveCompany(db, company, index);
    if s.Saved? && company.Fresh? {
      var key := CastKey(company.registrationNumber).value;
      var c := Company(db.nextId, company.name.value, key, company.addresses);
      assert s.db.companies == db.companies[key := c];
      assert SitesDistinct(c.addresses);
      if Consistent(db) {
        NewCompanyKeepsConsistent(db, key, c);
      }
    }
  }

  lemma NewCompanyKeepsConsistent(db: Db, key: int, c: Company)
    requires Consistent(db) && key !in db.companies
    requires c.id == db.nextId && c.registrationNumber == key
    ensures Consistent(Db(db.companies[key := c], db.nextId + 1))
  {
  }

  /** A row keeps the store consistent, valid, and free of two addresses of one
      company on the same street, city and country. */
  lemma RowKeepsInvariants(db: Db, row: Row, index: nat)
    ensures var r := ProcessRow(db, row, index);
      && (Consistent(db) ==> Consistent(r.db))
      && (StoredValid(db) ==> StoredValid(r.db))
      && (DistinctSites(db) ==> DistinctSites(r.db))
  {
    RowSteps(db, row, index);
    var c := FindOrBuildCompany(db, row);
    var a := AddOrUpdateAddress(db, c, row, index);
    if a.Attached? {
      AddressStepShape(db, c, row, index);
      AddressStepKeepsInvariants(db, c, row, index);
      SaveStepKeepsInvariants(a.db, a.company, index);
    }
  }

  lemma RowKeepsValid(db: Db, row: Row, index: nat)
    requires Valid(db)
    ensures Valid(ProcessRow(db, row, index).db)
  {
    RowKeepsInvariants(db, row, index);
  }

  /** A row for a stored company whose street, city and country match one of
      its addresses: on a valid store it replaces only that address's postal
      code, adds no address, and imports the company. */
  lemma MatchedAddressUpdated(db: Db, row: Row, index: nat, j: nat)
    requires StoredValid(db)
    requires Taken(db, row.registrationNumber)
    requires FindAddress(db.companies[CastKey(row.registrationNumber).value].addresses, RowSite(row)) == Some(j)
    ensures var key := CastKey(row.registrationNumber).value;
      var stored := db.companies[key].addresses;
      && ProcessRow(db, row, index).outcome == Imported(db.companies[key].id)
      && ProcessRow(db, row, index).db == WithAddresses(db, key, stored[j := stored[j].(postalCode := row.postalCode)])
      && |ProcessRow(db, row, index).db.companies[key].addresses| == |stored|
  {
    RowSteps(db, row, index);
    var key := CastKey(row.registrationNumber).value;
    var stored := db.companies[key].addresses;
    assert AddressOf(row) == stored[j].(postalCode := row.postalCode);
    assert ValidAddress(stored[j]);
    var a := AddOrUpdateAddress(db, Persisted(key), row, index);
    assert a == Attached(WithAddresses(db, key, stored[j := AddressOf(row)]), Persisted(key));
    SaveStepWrites(a.db, a.company, index);
  }

  /** A row for a stored company with no address on its street, city and
      country: a valid address is appended (and stays, as it was written
      before the save) and, on a valid store, the company is imported; an
      invalid one is reported with the address's own messages and nothing is
      written. */
  lemma UnmatchedAddressAppended(db: Db, row: Row, index: nat)
    requires Taken(db, row.registrationNumber)
    requires FindAddress(db.companies[CastKey(row.registrationNumber).value].addresses, RowSite(row)).None?
    ensures var key := CastKey(row.registrationNumber).value;
      var r := ProcessRow(db, row, index);
      var errs := AddressErrors(AddressOf(row));
      && (ValidAddress(AddressOf(row)) ==> r.db == WithAddresses(db, key, db.companies[key].addresses + [AddressOf(row)]))
      && (ValidAddress(AddressOf(row)) && StoredValid(db) ==> r.outcome == Imported(db.companies[key].id))
      && (!ValidAddress(AddressOf(row)) ==> r == RowResult(db, Rejected(InvalidRow(index, Detail(errs), errs))))
  {
    RowSteps(db, row, index);
    var key := CastKey(row.registrationNumber).value;
    var a := AddOrUpdateAddress(db, Persisted(key), row, index);
    if a.Attached? {
      SaveStepWrites(a.db, a.company, index);
      assert a.db.companies[key].name == db.companies[key].name;
    }
  }

  /** A failed save reports the detail of its errors. */
  lemma SaveFailureDetail(db: Db, company: Draft, index: nat)
    requires company.Persisted? ==> company.key in db.companies
    ensures var s := SaveCompany(db, company, index);
      s.NotSaved? ==> s.entry.detail == Detail(s.entry.errors)
  {
  }

  /** A row whose number finds no company saves the company it builds. */
  lemma NewRowSaves(db: Db, row: Row, index: nat)
    requires !Taken(db, row.registrationNumber)
    ensures var s := SaveCompany(db, BuiltCompany(row), index);
      ProcessRow(db, row, index) == if s.Saved? then RowResult(s.db, Imported(s.id)) else RowResult(db, Rejected(s.entry))
  {
    var c := FindOrBuildCompany(db, row);
    assert c == Fresh(row.name, row.registrationNumber, []);
    var a := AddOrUpdateAddress(db, c, row, index);
    assert a == Attached(db, BuiltCompany(row)) by {
      assert [] + [AddressOf(row)] == [AddressOf(row)];
    }
    RowSteps(db, row, index);
  }

  /** A row whose registration number no stored company has: when the new
      company, its name, its number and its address all pass, one company is
      inserted with the next id, the row's name and the one address; otherwise
      the row is reported with the company's messages and nothing is written,
      neither the company nor its address. */
  lemma NewCompanyRow(db: Db, row: Row, index: nat)
    requires !Taken(db, row.registrationNumber)
    ensures var r := ProcessRow(db, row, index);
      var errs := CompanyErrors(db, BuiltCompany(row));
      && (errs == [] ==>
            && CastKey(row.registrationNumber).Some?
            && row.name.Some?
            && var key := CastKey(row.registrationNumber).value;
               && r.db == Db(db.companies[key := Company(db.nextId, row.name.value, key, [AddressOf(row)])], db.nextId + 1)
               && r.outcome == Imported(db.nextId))
      && (errs != [] ==> r == RowResult(db, Rejected(InvalidRow(index, Detail(errs), errs))))
  {
    NewRowSaves(db, row, index);
    SaveStepWrites(db, BuiltCompany(row), index);
    SaveFailureDetail(db, BuiltCompany(row), index);
  }

  /** On a valid store, a row is imported exactly when its street, city and
      country are present and, for a company not yet stored, its name and
      registration number pass too. */
  lemma ImportedExactlyWhenValid(db: Db, row: Row, index: nat)
    requires StoredValid(db)
    ensures ProcessRow(db, row, index).outcome.Imported? <==>
      && ValidAddress(AddressOf(row))
      && (!Taken(db, row.registrationNumber) ==>
            ValidName(row.name) && row.registrationNumber.Some? && IsIntegerLiteral(row.registrationNumber.value))
  {
    if Taken(db, row.registrationNumber) {
      var key := CastKey(row.registrationNumber).value;
      var j := FindAddress(db.companies[key].addresses, RowSite(row));
      if j.Some? {
        MatchedAddressUpdated(db, row, index, j.value);
        assert SiteOf(db.companies[key].addresses[j.value]) == RowSite(row);
      } else {
        UnmatchedAddressAppended(db, row, index);
      }
    } else {
      NewCompanyRow(db, row, index);
      if row.registrationNumber.Some? && IsIntegerLiteral(row.registrationNumber.value) {
        IntegerLiteralKey(row.registrationNumber.value);
      }
      assert NestedErrors([AddressOf(row)]) == [] <==> ValidAddress(AddressOf(row));
    }
  }

  /** On a valid store a rejected row writes nothing: the only write that
      precedes a failing step is an address on a stored company, and a stored
      valid company always saves. */
  lemma RejectedRowWritesNothing(db: Db, row: Row, index: nat)
    requires StoredValid(db)
    ensures ProcessRow(db, row, index).outcome.Rejected? ==> ProcessRow(db, row, index).db == db
  {
    RowSteps(db, row, index);
    var c := FindOrBuildCompany(db, row);
    AddressStepShape(db, c, row, index);
    var a := AddOrUpdateAddress(db, c, row, index);
    if a.Attached? && c.Persisted? {
      assert a.db.companies[c.key].name == db.companies[c.key].name;
      assert ValidCompany(a.db, a.company);
    }
  }

  /** Every message under a key is the message of one of the errors. */
  lemma {:induction false} MessagesComeFromErrors(errs: seq<FieldError>, k: string, m: string)
    requires m in MessagesFor(errs, k)
    ensures exists i :: 0 <= i < |errs| && Message(errs[i].kind) == m
  {
    if Message(errs[0].kind) != m {
      MessagesComeFromErrors(errs[1..], k, m);
      var i :| 0 <= i < |errs[1..]| && Message(errs[1..][i].kind) == m;
      assert Message(errs[i + 1].kind) == m;
    }
  }

  /** A number the lookup does not find fails uniqueness exactly when it is
      not blank, does not start like a number, and a company is stored under
      0: the attribute then holds 0. */
  lemma UniquenessFailsOnlyAtZero(db: Db, raw: Option<string>)
    requires !Taken(db, raw)
    ensures UniquenessFails(db, raw) <==> ClashesAtZero(db, raw)
  {
  }

  /** The uniqueness failure is in a concatenation exactly when it is in one of
      the parts. */
  lemma NoneTakenConcat(a: seq<FieldError>, b: seq<FieldError>)
    ensures NoneTaken(a + b) <==> NoneTaken(a) && NoneTaken(b)
  {
    if NoneTaken(a) && NoneTaken(b) {
      forall i | 0 <= i < |a + b|
        ensures (a + b)[i].kind != AlreadyTaken
      {
        if i >= |a| {
          assert (a + b)[i] == b[i - |a|];
        }
      }
    }
    if NoneTaken(a + b) {
      assert forall i :: 0 <= i < |a| ==> (a + b)[i] == a[i];
      assert forall i :: 0 <= i < |b| ==> (a + b)[|a| + i] == b[i];
    }
  }

  /** A save reports the uniqueness failure exactly when the company is new and
      a stored company holds the value its number was cast to. */
  lemma CompanyErrorsTaken(db: Db, company: Draft)
    requires company.Persisted? ==> company.key in db.companies
    ensures NoneTaken(CompanyErrors(db, company)) <==> company.Persisted? || !UniquenessFails(db, company.registrationNumber)
  {
    if company.Fresh? {
      var taken := UniquenessFails(db, company.registrationNumber);
      var n, m := NestedErrors(company.addresses), NameErrors(company.name);
      var r := RegistrationNumberErrors(company.registrationNumber, taken);
      assert CompanyErrors(db, company) == n + m + r;
      assert NoneTaken(n) && NoneTaken(m);
      NoneTakenConcat(n, m);
      NoneTakenConcat(n + m, r);
      if taken {
        var e := FieldError(false, RegistrationNumber, AlreadyTaken);
        var i :| 0 <= i < |r| && r[i] == e;
        assert !NoneTaken(r);
      }
    } else {
      assert NoneTaken(CompanyErrors(db, company));
    }
  }

  /** A rejected row's errors include the uniqueness failure exactly when its
      number clashes at 0; such a row is always rejected. */
  lemma RejectionErrors(db: Db, row: Row, index: nat)
    ensures var r := ProcessRow(db, row, index);
      && (ClashesAtZero(db, row.registrationNumber) ==> r.outcome.Rejected?)
      && (r.outcome.Rejected? ==> (NoneTaken(r.outcome.entry.errors) <==> !ClashesAtZero(db, row.registrationNumber)))
  {
    var raw := row.registrationNumber;
    if raw.Some? && IsIntegerLiteral(raw.value) {
      IntegerLiteralKey(raw.value);
    }
    RowSteps(db, row, index);
    var c := FindOrBuildCompany(db, row);
    AddressStepShape(db, c, row, index);
    var a := AddOrUpdateAddress(db, c, row, index);
    if a.Attached? {
      CompanyErrorsTaken(a.db, a.company);
      if c.Fresh? {
        UniquenessFailsOnlyAtZero(db, raw);
      }
    }
  }

  /** Outside a clash at 0, no key of a rejected row's mapping lists "has
      already been taken": a new company is only built when no stored company
      has its number, and the row is processed before any other could take it. */
  lemma UniquenessReportedOnlyAtZero(db: Db, row: Row, index: nat)
    ensures var r := ProcessRow(db, row, index);
      r.outcome.Rejected? && !ClashesAtZero(db, row.registrationNumber) ==>
        forall k :: k in ErrorMap(r.outcome.entry.errors) ==> Message(AlreadyTaken) !in ErrorMap(r.outcome.entry.errors)[k]
  {
    RejectionErrors(db, row, index);
    var r := ProcessRow(db, row, index);
    if r.outcome.Rejected? && !ClashesAtZero(db, row.registrationNumber) {
      NoneTakenNotInMap(r.outcome.entry.errors);
    }
  }

  /** A new company whose number clashes at 0 fails uniqueness. */
  lemma ZeroClashErrors(db: Db, row: Row)
    requires ClashesAtZero(db, row.registrationNumber)
    ensures FieldError(false, RegistrationNumber, AlreadyTaken) in CompanyErrors(db, BuiltCompany(row))
  {
    var raw := row.registrationNumber;
    UniquenessFailsOnlyAtZero(db, raw);
    var r := RegistrationNumberErrors(raw, true);
    assert FieldError(false, RegistrationNumber, AlreadyTaken) in r;
    var n, m := NestedErrors([AddressOf(row)]), NameErrors(row.name);
    assert CompanyErrors(db, BuiltCompany(row)) == (n + m) + r;
  }

  /** A row whose number clashes at 0 is rejected, and its mapping lists "has
      already been taken" under `registration_number`. */
  lemma ZeroClashReported(db: Db, row: Row, index: nat)
    requires ClashesAtZero(db, row.registrationNumber)
    ensures var r := ProcessRow(db, row, index);
      && r.outcome.Rejected? && r.db == db
      && "registration_number" in ErrorMap(r.outcome.entry.errors)
      && Message(AlreadyTaken) in ErrorMap(r.outcome.entry.errors)["registration_number"]
  {
    var e := FieldError(false, RegistrationNumber, AlreadyTaken);
    ZeroClashErrors(db, row);
    NewCompanyRow(db, row, index);
    ErrorListed(CompanyErrors(db, BuiltCompany(row)), e);
  }

  /** When no error is the uniqueness failure, no key of the mapping lists its message. */
  lemma NoneTakenNotInMap(errs: seq<FieldError>)
    requires NoneTaken(errs)
    ensures forall k :: k in ErrorMap(errs) ==> Message(AlreadyTaken) !in ErrorMap(errs)[k]
  {
    forall k | k in ErrorMap(errs)
      ensures Message(AlreadyTaken) !in ErrorMap(errs)[k]
    {
      ErrorMapGroupsByKey(errs, k);
      if Message(AlreadyTaken) in MessagesFor(errs, k) {
        MessagesComeFromErrors(errs, k, Message(AlreadyTaken));
      }
    }
  }

  /** A failure with one error reports its full message, and the error's
      key with its message. */
  lemma SingleErrorReport(e: FieldError)
    ensures Detail([e]) == FullMessage(e)
    ensures ErrorMap([e]) == map[ErrorKey(e) := [Message(e.kind)]]
  {
    var m := ErrorMap([e][..0]);
    assert [e][..0] == [];
    assert m == map[];
    assert ErrorMap([e]) == m[ErrorKey(e) := [] + [Message(e.kind)]];
    assert [] + [Message(e.kind)] == [Message(e.kind)];
  }

  /** The texts of the error a non-numeric registration number gives. */
  lemma NotANumberText()
    ensures var e := FieldError(false, RegistrationNumber, NotANumber);
      && FullMessage(e) == "Registration number is not a number"
      && ErrorKey(e) == "registration_number" && Message(e.kind) == "is not a number"
  {
    var e := FieldError(false, RegistrationNumber, NotANumber);
    assert HumanName(e) == "Registration number";
  }

  /** The texts of the error a new company's address without a city gives. */
  lemma BlankCityText()
    ensures var e := FieldError(true, City, CantBeBlank);
      && FullMessage(e) == "Addresses city can't be blank"
      && ErrorKey(e) == "addresses.city" && Message(e.kind) == "can't be blank"
  {
    var e := FieldError(true, City, CantBeBlank);
    assert HumanName(e) == "Addresses city";
  }

  /** The texts of the uniqueness error. */
  lemma TakenText()
    ensures var e := FieldError(false, RegistrationNumber, AlreadyTaken);
      && FullMessage(e) == "Registration number has already been taken"
      && ErrorKey(e) == "registration_number" && Message(e.kind) == "has already been taken"
  {
    var e := FieldError(false, RegistrationNumber, AlreadyTaken);
    assert HumanName(e) == "Registration number";
  }

  /** The errors of a new company whose registration number is not a number
      at all, all else valid and no company holding its cast value. */
  lemma NotANumberErrors(db: Db, row: Row)
    requires ValidName(row.name) && ValidAddress(AddressOf(row))
    requires row.registrationNumber.Some? && !Blank(row.registrationNumber)
    requires !IsNumeric(row.registrationNumber.value)
    requires !UniquenessFails(db, row.registrationNumber)
    ensures CompanyErrors(db, BuiltCompany(row)) == [FieldError(false, RegistrationNumber, NotANumber)]
  {
    assert NestedErrors([AddressOf(row)]) == [];
  }

  /** A new company whose registration number is not a number, all else
      valid, is reported as "Registration number is not a number" under
      `registration_number`. */
  lemma NotANumberReported(db: Db, row: Row, index: nat)
    requires !Taken(db, row.registrationNumber) && !UniquenessFails(db, row.registrationNumber)
    requires ValidName(row.name) && ValidAddress(AddressOf(row))
    requires row.registrationNumber.Some? && !Blank(row.registrationNumber)
    requires !IsNumeric(row.registrationNumber.value)
    ensures var e := FieldError(false, RegistrationNumber, NotANumber);
      ProcessRow(db, row, index) == RowResult(db, Rejected(InvalidRow(index, "Registration number is not a number", [e])))
    ensures ErrorMap([FieldError(false, RegistrationNumber, NotANumber)]) == map["registration_number" := ["is not a number"]]
  {
    var e := FieldError(false, RegistrationNumber, NotANumber);
    NotANumberErrors(db, row);
    NewCompanyRow(db, row, index);
    SingleErrorReport(e);
    NotANumberText();
  }

  /** "abc" is not blank, is no number, and the lookup reads nothing from it. */
  lemma AbcText()
    ensures !Blank(Some("abc")) && !IsNumeric("abc") && CastKey(Some("abc")).None?
  {
    var s := "abc";
    NoLeadingSpace(s);
    assert DropTrailingSpaces(s) == s;
    assert Strip(s) == s;
    assert LeadingDigits(s) == [];
    assert !IsDigit(s[0]) && !IsSpace(s[0]);
  }

  /** The errors of a new company with number "abc", all else valid, next to a
      company stored under 0: the attribute holds 0, so uniqueness fails
      before numericality does. */
  lemma AbcErrors(db: Db, row: Row)
    requires ValidName(row.name) && ValidAddress(AddressOf(row))
    requires row.registrationNumber == Some("abc") && 0 in db.companies
    ensures CompanyErrors(db, BuiltCompany(row)) ==
      [FieldError(false, RegistrationNumber, AlreadyTaken), FieldError(false, RegistrationNumber, NotANumber)]
  {
    AbcText();
    var raw := row.registrationNumber;
    assert AttributeValue(raw) == Some(0);
    NotANumberOnly(raw.value, true);
    var n, m := NestedErrors([AddressOf(row)]), NameErrors(row.name);
    assert n == [] && m == [];
    assert CompanyErrors(db, BuiltCompany(row)) == n + m + RegistrationNumberErrors(raw, true);
  }

  /** The detail of those two errors: both full messages, comma-separated. */
  lemma AbcDetail()
    ensures Detail([FieldError(false, RegistrationNumber, AlreadyTaken), FieldError(false, RegistrationNumber, NotANumber)])
      == "Registration number has already been taken" + ", " + "Registration number is not a number"
  {
    var e1, e2 := FieldError(false, RegistrationNumber, AlreadyTaken), FieldError(false, RegistrationNumber, NotANumber);
    assert Detail([e1, e2]) == FullMessage(e1) + ", " + FullMessage(e2) by {
      assert [e1, e2] == [e1] + [e2];
      SingleErrorReport(e1);
      DetailAppend([e1], e2);
    }
    TakenText();
    NotANumberText();
  }

  /** The mapping of those two errors: both messages, in order, under
      `registration_number`. */
  lemma AbcErrorMap()
    ensures ErrorMap([FieldError(false, RegistrationNumber, AlreadyTaken), FieldError(false, RegistrationNumber, NotANumber)])
      == map["registration_number" := ["has already been taken", "is not a number"]]
  {
    var e1, e2 := FieldError(false, RegistrationNumber, AlreadyTaken), FieldError(false, RegistrationNumber, NotANumber);
    var k := "registration_number";
    SingleErrorReport(e1);
    TakenText();
    NotANumberText();
    var m := ErrorMap([e1]);
    assert m == map[k := ["has already been taken"]];
    assert [e1, e2][..1] == [e1];
    assert ErrorMap([e1, e2]) == m[k := m[k] + ["is not a number"]];
    assert m[k] + ["is not a number"] == ["has already been taken", "is not a number"];
  }

  /** A new company with number "abc", all else valid, next to a company stored
      under 0 is rejected with both "has already been taken" and "is not a
      number", and writes nothing. */
  lemma AbcNextToZeroReported(db: Db, row: Row, index: nat)
    requires ValidName(row.name) && ValidAddress(AddressOf(row))
    requires row.registrationNumber == Some("abc") && 0 in db.companies
    ensures var errs := [FieldError(false, RegistrationNumber, AlreadyTaken), FieldError(false, RegistrationNumber, NotANumber)];
      ProcessRow(db, row, index) ==
        RowResult(db, Rejected(InvalidRow(index, "Registration number has already been taken" + ", " + "Registration number is not a number", errs)))
  {
    AbcText();
    AbcErrors(db, row);
    NewCompanyRow(db, row, index);
    AbcDetail();
  }

  /** The errors of a new company whose address has no city, all else valid. */
  lemma BlankCityErrors(db: Db, row: Row)
    requires !Taken(db, row.registrationNumber)
    requires ValidName(row.name)
    requires row.registrationNumber.Some? && IsIntegerLiteral(row.registrationNumber.value)
    requires !Blank(row.street) && Blank(row.city) && !Blank(row.country)
    ensures CompanyErrors(db, BuiltCompany(row)) == [FieldError(true, City, CantBeBlank)]
  {
    var raw := row.registrationNumber;
    IntegerLiteralKey(raw.value);
    assert !UniquenessFails(db, raw);
    var r := RegistrationNumberErrors(raw, false);
    assert r == [];
    assert AddressErrors(AddressOf(row)) == [FieldError(false, City, CantBeBlank)];
    OneAddressErrors(AddressOf(row));
    var n, m := NestedErrors([AddressOf(row)]), NameErrors(row.name);
    assert n == [FieldError(true, City, CantBeBlank)];
    assert m == [];
    assert CompanyErrors(db, BuiltCompany(row)) == n + m + r;
  }

  /** A new company whose address has no city, all else valid, is reported as
      "Addresses city can't be blank" under `addresses.city`. */
  lemma BlankCityReported(db: Db, row: Row, index: nat)
    requires !Taken(db, row.registrationNumber)
    requires ValidName(row.name)
    requires row.registrationNumber.Some? && IsIntegerLiteral(row.registrationNumber.value)
    requires !Blank(row.street) && Blank(row.city) && !Blank(row.country)
    ensures var e := FieldError(true, City, CantBeBlank);
      ProcessRow(db, row, index) == RowResult(db, Rejected(InvalidRow(index, "Addresses city can't be blank", [e])))
    ensures ErrorMap([FieldError(true, City, CantBeBlank)]) == map["addresses.city" := ["can't be blank"]]
  {
    var e := FieldError(true, City, CantBeBlank);
    BlankCityErrors(db, row);
    NewCompanyRow(db, row, index);
    SingleErrorReport(e);
    BlankCityText();
  }

  /** A row naming a stored company creates no company and uses no id. */
  lemma TakenRowAddsNoCompany(db: Db, row: Row, index: nat)
    requires Taken(db, row.registrationNumber)
    ensures ProcessRow(db, row, index).db.companies.Keys == db.companies.Keys
    ensures ProcessRow(db, row, index).db.nextId == db.nextId
  {
    RowSteps(db, row, index);
    var c := FindOrBuildCompany(db, row);
    AddressStepShape(db, c, row, index);
    var a := AddOrUpdateAddress(db, c, row, index);
    if a.Attached? {
      SaveStepWrites(a.db, a.company, index);
    }
  }
}
