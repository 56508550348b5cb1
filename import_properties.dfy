/** What a whole import does, as properties of Reconcile.Run: the store only
    grows and stays valid, every failure is listed once and in row order,
    the id set holds exactly the ids of the saved rows, and rows resolve to
    one company per registration number. */
module ImportProperties {
  import opened Records
  import opened Validation
  import opened Reconcile
  import opened RowProperties

  /** `db2` is `db` after any number of rows: nothing removed, every company
      kept with its id, name, number and addresses' sites. */
  predicate Grows(db: Db, db2: Db) {
    && db2.nextId >= db.nextId
    && forall k :: k in db.companies ==> k in db2.companies && Kept(db.companies[k], db2.companies[k])
  }

  /** Every id in the set belongs to a company of the store. */
  predicate IdsStored(p: Progress) {
    forall id :: id in p.importedCompanyIds ==>
      exists k :: k in p.db.companies && p.db.companies[k].id == id
  }

  lemma GrowsTransitive(db0: Db, db1: Db, db2: Db)
    requires Grows(db0, db1) && Grows(db1, db2)
    ensures Grows(db0, db2)
  {
    forall k | k in db0.companies
      ensures Kept(db0.companies[k], db2.companies[k])
    {
      var c0, c1, c2 := db0.companies[k], db1.companies[k], db2.companies[k];
      assert forall m :: 0 <= m < |c0.addresses| ==> SiteOf(c2.addresses[m]) == SiteOf(c1.addresses[m]);
    }
  }

  lemma RowGrows(db: Db, row: Row, index: nat)
    ensures Grows(db, ProcessRow(db, row, index).db)
  {
    RowKeepsStoredCompanies(db, row, index);
  }

  lemma BeforeStart(start: Progress, rows: seq<Row>)
    ensures Before(start, rows, 0) == start
  {
    assert rows[..0] == [];
  }

  /** The outcome of a row does not depend on the rows after it. */
  lemma OutcomeAtPrefix(start: Progress, rows: seq<Row>, n: nat, i: nat)
    requires i < n <= |rows|
    ensures OutcomeAt(start, rows[..n], i) == OutcomeAt(start, rows, i)
  {
    assert rows[..n][..i] == rows[..i];
  }

  /** Between any two points of an import the store only grows. */
  lemma {:induction false} RunGrows(start: Progress, rows: seq<Row>, i: nat, j: nat)
    requires i <= j <= |rows|
    ensures Grows(Before(start, rows, i).db, Before(start, rows, j).db)
    decreases j
  {
    if i == j {
      var db := Before(start, rows, i).db;
      assert forall k :: k in db.companies ==> Kept(db.companies[k], db.companies[k]);
    } else {
      RunGrows(start, rows, i, j - 1);
      RunStep(start, rows, j - 1);
      RowGrows(Before(start, rows, j - 1).db, rows[j - 1], j - 1);
      GrowsTransitive(Before(start, rows, i).db, Before(start, rows, j - 1).db, Before(start, rows, j).db);
    }
  }

  /** An import never removes a company, never changes a stored company's id,
      name or registration number, and never removes an address or moves it
      to another street, city or country. */
  lemma RunKeepsStoredCompanies(start: Progress, rows: seq<Row>)
    ensures Grows(start.db, Run(start, rows).db)
  {
    RunGrows(start, rows, 0, |rows|);
    BeforeStart(start, rows);
    assert rows[..|rows|] == rows;
  }

  /** A company no row names is left exactly as it was. */
  lemma {:induction false} UntouchedCompanyUnchanged(start: Progress, rows: seq<Row>, k: int)
    requires k in start.db.companies
    requires forall i :: 0 <= i < |rows| ==> CastKey(rows[i].registrationNumber) != Some(k)
    ensures k in Run(start, rows).db.companies && Run(start, rows).db.companies[k] == start.db.companies[k]
    decreases |rows|
  {
    if rows != [] {
      var init := rows[..|rows| - 1];
      UntouchedCompanyUnchanged(start, init, k);
      RowKeepsStoredCompanies(Run(start, init).db, rows[|rows| - 1], |rows| - 1);
    }
  }

  /** The store keeps its invariants at every point of an import. */
  lemma {:induction false} RunKeepsInvariants(start: Progress, rows: seq<Row>)
    ensures Consistent(start.db) ==> Consistent(Run(start, rows).db)
    ensures StoredValid(start.db) ==> StoredValid(Run(start, rows).db)
    ensures DistinctSites(start.db) ==> DistinctSites(Run(start, rows).db)
    decreases |rows|
  {
    if rows != [] {
      var init := rows[..|rows| - 1];
      RunKeepsInvariants(start, init);
      RowKeepsInvariants(Run(start, init).db, rows[|rows| - 1], |rows| - 1);
    }
  }

  lemma BeforeKeepsInvariants(start: Progress, rows: seq<Row>, i: nat)
    requires i <= |rows|
    ensures Consistent(start.db) ==> Consistent(Before(start, rows, i).db)
    ensures StoredValid(start.db) ==> StoredValid(Before(start, rows, i).db)
  {
    RunKeepsInvariants(start, rows[..i]);
  }

  /** On a valid store a rejected row leaves the store as it found it. */
  lemma RejectedRowsWriteNothing(start: Progress, rows: seq<Row>, i: nat)
    requires StoredValid(start.db)
    requires i < |rows|
    ensures OutcomeAt(start, rows, i).Rejected? ==> Before(start, rows, i + 1).db == Before(start, rows, i).db
  {
    BeforeKeepsInvariants(start, rows, i);
    RunStep(start, rows, i);
    RejectedRowWritesNothing(Before(start, rows, i).db, rows[i], i);
  }

  /** What the last row adds to the accumulators. */
  lemma RunAccumulates(start: Progress, rows: seq<Row>)
    requires rows != []
    ensures var last := |rows| - 1;
      var p, q := Run(start, rows[..last]), Run(start, rows);
      var o := OutcomeAt(start, rows, last);
      && (o.Rejected? ==> q.invalidRows == p.invalidRows + [o.entry] && q.importedCompanyIds == p.importedCompanyIds)
      && (o.Imported? ==> q.invalidRows == p.invalidRows && q.importedCompanyIds == p.importedCompanyIds + {o.id})
      && (o.Rejected? ==> o.entry.index == last)
  {
  }

  lemma RecordGrows(p: Progress, r: RowResult)
    ensures p.invalidRows <= Record(p, r).invalidRows
    ensures p.importedCompanyIds <= Record(p, r).importedCompanyIds
  {
  }

  /** One row only appends to `invalid_rows` and only adds to the id set. */
  lemma StepGrows(start: Progress, rows: seq<Row>, i: nat)
    requires i < |rows|
    ensures Before(start, rows, i).invalidRows <= Before(start, rows, i + 1).invalidRows
    ensures Before(start, rows, i).importedCompanyIds <= Before(start, rows, i + 1).importedCompanyIds
  {
    RunStep(start, rows, i);
    var p := Before(start, rows, i);
    RecordGrows(p, ProcessRow(p.db, rows[i], i));
  }

  lemma AccumulatedTransitive(p: Progress, q: Progress, r: Progress)
    requires p.invalidRows <= q.invalidRows && q.invalidRows <= r.invalidRows
    requires p.importedCompanyIds <= q.importedCompanyIds && q.importedCompanyIds <= r.importedCompanyIds
    ensures p.invalidRows <= r.invalidRows && p.importedCompanyIds <= r.importedCompanyIds
  {
  }

  /** `invalid_rows` is only appended to and the id set only grows. */
  lemma {:induction false} AccumulatorsGrow(start: Progress, rows: seq<Row>, i: nat, j: nat)
    requires i <= j <= |rows|
    ensures Before(start, rows, i).invalidRows <= Before(start, rows, j).invalidRows
    ensures Before(start, rows, i).importedCompanyIds <= Before(start, rows, j).importedCompanyIds
    decreases j
  {
    if i < j {
      AccumulatorsGrow(start, rows, i, j - 1);
      StepGrows(start, rows, j - 1);
      AccumulatedTransitive(Before(start, rows, i), Before(start, rows, j - 1), Before(start, rows, j));
    }
  }

  /** Each row leaves its trace in the result: a saved row's id is in the set,
      and a rejected row's failure is in `invalid_rows`, right after the
      failures of the rows before it. */
  lemma RowRecorded(start: Progress, rows: seq<Row>, i: nat)
    requires i < |rows|
    ensures var o, p := OutcomeAt(start, rows, i), Run(start, rows);
      && (o.Imported? ==> o.id in p.importedCompanyIds)
      && (o.Rejected? ==>
            var k := |Before(start, rows, i).invalidRows|;
            k < |p.invalidRows| && p.invalidRows[k] == o.entry)
  {
    RunStep(start, rows, i);
    AccumulatorsGrow(start, rows, i + 1, |rows|);
    assert rows[..|rows|] == rows;
  }

  /** Starting from an empty list, the entries of `invalid_rows` name rows of
      the file, in row order, so no row has two. */
  lemma {:induction false} InvalidRowsInOrder(start: Progress, rows: seq<Row>)
    requires start.invalidRows == []
    ensures var inv := Run(start, rows).invalidRows;
      && (forall n :: 0 <= n < |inv| ==> inv[n].index < |rows|)
      && (forall n, m :: 0 <= n < m < |inv| ==> inv[n].index < inv[m].index)
    decreases |rows|
  {
    if rows != [] {
      var last := |rows| - 1;
      InvalidRowsInOrder(start, rows[..last]);
      RunAccumulates(start, rows);
    }
  }

  /** Starting from an empty list, every entry of `invalid_rows` is the failure
      of the row it names. */
  lemma {:induction false} InvalidRowsSound(start: Progress, rows: seq<Row>)
    requires start.invalidRows == []
    ensures var inv := Run(start, rows).invalidRows;
      forall n :: 0 <= n < |inv| ==> inv[n].index < |rows| && OutcomeAt(start, rows, inv[n].index) == Rejected(inv[n])
    decreases |rows|
  {
    if rows != [] {
      var last := |rows| - 1;
      var init := rows[..last];
      InvalidRowsSound(start, init);
      RunAccumulates(start, rows);
      var inv0, inv := Run(start, init).invalidRows, Run(start, rows).invalidRows;
      var o := OutcomeAt(start, rows, last);
      assert o.Rejected? ==> inv == inv0 + [o.entry];
      assert o.Imported? ==> inv == inv0;
      forall n | 0 <= n < |inv|
        ensures inv[n].index < |rows| && OutcomeAt(start, rows, inv[n].index) == Rejected(inv[n])
      {
        if n < |inv0| {
          assert inv[n] == inv0[n];
          OutcomeAtPrefix(start, rows, last, inv0[n].index);
        } else {
          assert inv[n] == o.entry;
        }
      }
    }
  }

  /** An id the import added comes from a row whose company was saved. */
  lemma {:induction false} ImportedIdSource(start: Progress, rows: seq<Row>, id: nat) returns (i: nat)
    requires id in Run(start, rows).importedCompanyIds && id !in start.importedCompanyIds
    ensures i < |rows| && OutcomeAt(start, rows, i) == Imported(id)
    decreases |rows|
  {
    var last := |rows| - 1;
    var init := rows[..last];
    RunAccumulates(start, rows);
    if id in Run(start, init).importedCompanyIds {
      i := ImportedIdSource(start, init, id);
      OutcomeAtPrefix(start, rows, last, i);
    } else {
      i := last;
    }
  }

  /** Every id in the set is the id of a company in the store. */
  lemma {:induction false} ImportedIdsStored(start: Progress, rows: seq<Row>)
    requires IdsStored(start)
    ensures IdsStored(Run(start, rows))
    decreases |rows|
  {
    if rows != [] {
      var last := |rows| - 1;
      var init := rows[..last];
      ImportedIdsStored(start, init);
      var p := Run(start, init);
      var r := ProcessRow(p.db, rows[last], last);
      RowGrows(p.db, rows[last], last);
      forall id | id in Run(start, rows).importedCompanyIds
        ensures exists k :: k in r.db.companies && r.db.companies[k].id == id
      {
        if id in p.importedCompanyIds {
          var k :| k in p.db.companies && p.db.companies[k].id == id;
          assert r.db.companies[k].id == id;
        } else {
          var k := CastKey(rows[last].registrationNumber).value;
          assert r.db.companies[k].id == id;
        }
      }
    }
  }

  /** The company a saved row names, at any later point of the import. */
  lemma SavedCompanyStays(start: Progress, rows: seq<Row>, i: nat, j: nat)
    requires i < j <= |rows|
    requires OutcomeAt(start, rows, i).Imported?
    ensures CastKey(rows[i].registrationNumber).Some?
    ensures var key := CastKey(rows[i].registrationNumber).value;
      && key in Before(start, rows, j).db.companies
      && Before(start, rows, j).db.companies[key].id == OutcomeAt(start, rows, i).id
  {
    RunStep(start, rows, i);
    RunGrows(start, rows, i + 1, j);
  }

  /** Rows sharing a registration number that are both saved report the same
      company. */
  lemma SameKeySameCompany(start: Progress, rows: seq<Row>, i: nat, j: nat)
    requires i < j < |rows|
    requires OutcomeAt(start, rows, i).Imported? && OutcomeAt(start, rows, j).Imported?
    requires CastKey(rows[i].registrationNumber) == CastKey(rows[j].registrationNumber)
    ensures OutcomeAt(start, rows, i).id == OutcomeAt(start, rows, j).id
  {
    SavedCompanyStays(start, rows, i, j);
    RowGrows(Before(start, rows, j).db, rows[j], j);
  }

  /** Two companies stored under different numbers at some point of an
      import from a consistent store have different ids. */
  lemma StoredIdsDistinct(start: Progress, rows: seq<Row>, n: nat, k1: int, k2: int)
    requires Consistent(start.db)
    requires n <= |rows|
    requires k1 in Before(start, rows, n).db.companies && k2 in Before(start, rows, n).db.companies && k1 != k2
    ensures Before(start, rows, n).db.companies[k1].id != Before(start, rows, n).db.companies[k2].id
  {
    BeforeKeepsInvariants(start, rows, n);
  }

  /** Saved rows naming different registration numbers report different
      companies. */
  lemma DifferentKeysDifferentCompanies(start: Progress, rows: seq<Row>, i: nat, j: nat)
    requires Consistent(start.db)
    requires i < j < |rows|
    requires OutcomeAt(start, rows, i).Imported? && OutcomeAt(start, rows, j).Imported?
    requires CastKey(rows[i].registrationNumber) != CastKey(rows[j].registrationNumber)
    ensures OutcomeAt(start, rows, i).id != OutcomeAt(start, rows, j).id
  {
    SavedCompanyStays(start, rows, i, j + 1);
    SavedCompanyStays(start, rows, j, j + 1);
    StoredIdsDistinct(start, rows, j + 1, CastKey(rows[i].registrationNumber).value, CastKey(rows[j].registrationNumber).value);
  }

  /** On a consistent store, two saved rows report the same id exactly when
      they name the same registration number: each company is imported once
      per number, and two numbers never share a company. */
  lemma SameIdExactlyWhenSameKey(start: Progress, rows: seq<Row>, i: nat, j: nat)
    requires Consistent(start.db)
    requires i < j < |rows|
    requires OutcomeAt(start, rows, i).Imported? && OutcomeAt(start, rows, j).Imported?
    ensures OutcomeAt(start, rows, i).id == OutcomeAt(start, rows, j).id <==>
      CastKey(rows[i].registrationNumber) == CastKey(rows[j].registrationNumber)
  {
    if CastKey(rows[i].registrationNumber) == CastKey(rows[j].registrationNumber) {
      SameKeySameCompany(start, rows, i, j);
    } else {
      DifferentKeysDifferentCompanies(start, rows, i, j);
    }
  }

  /** A company created by a row keeps that row's name and the id the row
      reported to the end of the import: later rows with its number find it
      and never rename it. */
  lemma CreatedCompanyKeepsRowName(start: Progress, rows: seq<Row>, i: nat)
    requires i < |rows|
    requires OutcomeAt(start, rows, i).Imported?
    requires !Taken(Before(start, rows, i).db, rows[i].registrationNumber)
    ensures CastKey(rows[i].registrationNumber).Some? && rows[i].name.Some?
    ensures var key := CastKey(rows[i].registrationNumber).value;
      var db := Run(start, rows).db;
      && key in db.companies
      && db.companies[key].name == rows[i].name.value
      && db.companies[key].id == OutcomeAt(start, rows, i).id
  {
    var db := Before(start, rows, i).db;
    NewCompanyRow(db, rows[i], i);
    RunStep(start, rows, i);
    RunGrows(start, rows, i + 1, |rows|);
    assert rows[..|rows|] == rows;
  }

  /** A row whose number names no company at the end of an import was
      rejected as a new company: its address, name or number is invalid. */
  lemma UnsavedNewCompanyInvalid(start: Progress, rows: seq<Row>, j: nat)
    requires StoredValid(start.db)
    requires j < |rows|
    requires !Taken(Run(start, rows).db, rows[j].registrationNumber)
    ensures !(ValidAddress(AddressOf(rows[j])) && ValidName(rows[j].name)
              && rows[j].registrationNumber.Some? && IsIntegerLiteral(rows[j].registrationNumber.value))
  {
    var db1 := Before(start, rows, j).db;
    assert rows[..|rows|] == rows;
    RunGrows(start, rows, j, |rows|);
    RunGrows(start, rows, j + 1, |rows|);
    RunStep(start, rows, j);
    BeforeKeepsInvariants(start, rows, j);
    ImportedExactlyWhenValid(db1, rows[j], j);
  }

  /** Such a row fails again on any valid store that lacks its number, and
      writes nothing. */
  lemma UntakenRowFailsAgain(start: Progress, rows: seq<Row>, j: nat, db2: Db)
    requires StoredValid(start.db) && StoredValid(db2)
    requires j < |rows|
    requires db2.companies.Keys == Run(start, rows).db.companies.Keys
    requires !Taken(db2, rows[j].registrationNumber)
    ensures ProcessRow(db2, rows[j], j).outcome.Rejected?
    ensures ProcessRow(db2, rows[j], j).db == db2
  {
    UnsavedNewCompanyInvalid(start, rows, j);
    ImportedExactlyWhenValid(db2, rows[j], j);
    RejectedRowWritesNothing(db2, rows[j], j);
  }

  /** Importing the same rows again, onto the store the first import left,
      creates no company and uses no id: every company the file describes is
      found by its registration number. */
  lemma {:induction false} ReimportCreatesNoCompany(start: Progress, rows: seq<Row>, i: nat)
    requires StoredValid(start.db)
    requires i <= |rows|
    ensures var first := Run(start, rows);
      var db2 := Before(Progress(first.db, {}, []), rows, i).db;
      db2.companies.Keys == first.db.companies.Keys && db2.nextId == first.db.nextId
    decreases i
  {
    var first := Run(start, rows);
    var second := Progress(first.db, {}, []);
    if i == 0 {
      BeforeStart(second, rows);
    } else {
      var j := i - 1;
      ReimportCreatesNoCompany(start, rows, j);
      RunStep(second, rows, j);
      var db2 := Before(second, rows, j).db;
      if Taken(db2, rows[j].registrationNumber) {
        TakenRowAddsNoCompany(db2, rows[j], j);
      } else {
        RunKeepsInvariants(start, rows);
        BeforeKeepsInvariants(second, rows, j);
        UntakenRowFailsAgain(start, rows, j, db2);
      }
    }
  }
}
