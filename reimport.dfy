/** Importing a file twice: when every row of the file is valid, the second
    import reports nothing, reports the same companies, creates none and
    adds no address; it only rewrites postal codes. */
module Reimport {
  import opened Records
  import opened Validation
  import opened Reconcile
  import opened RowProperties
  import opened ImportProperties

  /** A row that passes every check a new company's save makes, apart from
      uniqueness: a valid address, a valid name and an integer literal. */
  predicate ValidRow(row: Row) {
    && ValidAddress(AddressOf(row))
    && ValidName(row.name)
    && row.registrationNumber.Some? && IsIntegerLiteral(row.registrationNumber.value)
  }

  /** The row's number names a stored company that has an address on the
      row's street, city and country. */
  predicate Covered(db: Db, row: Row) {
    && Taken(db, row.registrationNumber)
    && FindAddress(db.companies[CastKey(row.registrationNumber).value].addresses, RowSite(row)).Some?
  }

  predicate AllCovered(db: Db, rows: seq<Row>) {
    forall i :: 0 <= i < |rows| ==> Covered(db, rows[i])
  }

  predicate AllTaken(db: Db, rows: seq<Row>) {
    forall i :: 0 <= i < |rows| ==> Taken(db, rows[i].registrationNumber)
  }

  /** The id of the stored company the row's number names. */
  function IdOf(db: Db, row: Row): nat
    requires Taken(db, row.registrationNumber)
  {
    db.companies[CastKey(row.registrationNumber).value].id
  }

  /** The ids of the stored companies the rows name. */
  function IdsOf(db: Db, rows: seq<Row>): set<nat>
    requires AllTaken(db, rows)
  {
    set i | 0 <= i < |rows| :: IdOf(db, rows[i])
  }

  /** `db2` is `db` with at most its postal codes changed: the same companies
      with the same ids, names and numbers, the same number of addresses on
      the same sites, and the same next id. */
  predicate PostalOnly(db: Db, db2: Db) {
    && db2.nextId == db.nextId
    && db2.companies.Keys == db.companies.Keys
    && forall k :: k in db.companies ==>
         Kept(db.companies[k], db2.companies[k]) && |db2.companies[k].addresses| == |db.companies[k].addresses|
  }

  /** A company keeps an address on a site wherever the store only grows. */
  lemma CoveredGrows(db: Db, db2: Db, row: Row)
    requires Covered(db, row) && Grows(db, db2)
    ensures Covered(db2, row)
  {
    var key := CastKey(row.registrationNumber).value;
    var m := FindAddress(db.companies[key].addresses, RowSite(row)).value;
    assert SiteOf(db2.companies[key].addresses[m]) == RowSite(row);
  }

  /** The rows name the same companies, with the same ids, wherever the store
      only grows. */
  lemma IdsOfGrows(db: Db, db2: Db, rows: seq<Row>)
    requires Grows(db, db2) && AllTaken(db, rows)
    ensures AllTaken(db2, rows)
    ensures IdsOf(db2, rows) == IdsOf(db, rows)
  {
    assert forall i :: 0 <= i < |rows| ==> IdOf(db2, rows[i]) == IdOf(db, rows[i]);
  }

  /** The ids of one more row. */
  lemma IdsOfSnoc(db: Db, rows: seq<Row>, n: nat)
    requires n < |rows| && AllTaken(db, rows[..n + 1])
    ensures AllTaken(db, rows[..n])
    ensures IdsOf(db, rows[..n + 1]) == IdsOf(db, rows[..n]) + {IdOf(db, rows[n])}
  {
    var init, ext := rows[..n], rows[..n + 1];
    assert forall i :: 0 <= i < n ==> ext[i] == init[i];
    assert ext[n] == rows[n];
    var a, b := IdsOf(db, ext), IdsOf(db, init) + {IdOf(db, rows[n])};
    forall id | id in a
      ensures id in b
    {
      var i :| 0 <= i < n + 1 && IdOf(db, ext[i]) == id;
      if i < n {
        assert IdOf(db, init[i]) in IdsOf(db, init);
      }
    }
    forall id | id in b
      ensures id in a
    {
      if id in IdsOf(db, init) {
        var i :| 0 <= i < n && IdOf(db, init[i]) == id;
        assert IdOf(db, ext[i]) in a;
      } else {
        assert IdOf(db, ext[n]) in a;
      }
    }
  }

  /** Covering one more row, on a store that grew from one covering the rows
      before it, adds that row's company to the ids. */
  lemma PrefixCovered(db: Db, db2: Db, rows: seq<Row>, j: nat)
    requires j < |rows| && Grows(db, db2)
    requires AllCovered(db, rows[..j]) && Covered(db2, rows[j])
    ensures AllTaken(db, rows[..j]) && AllCovered(db2, rows[..j + 1]) && AllTaken(db2, rows[..j + 1])
    ensures IdsOf(db2, rows[..j + 1]) == IdsOf(db, rows[..j]) + {IdOf(db2, rows[j])}
  {
    var init, ext := rows[..j], rows[..j + 1];
    forall i | 0 <= i < j + 1
      ensures Covered(db2, ext[i])
    {
      if i < j {
        assert ext[i] == init[i];
        CoveredGrows(db, db2, init[i]);
      }
    }
    IdsOfGrows(db, db2, init);
    IdsOfSnoc(db2, rows, j);
  }

  /** On a valid store a valid row is imported, and afterwards its number
      names a company with an address on its site. */
  lemma ValidRowImported(db: Db, row: Row, index: nat)
    requires StoredValid(db) && ValidRow(row)
    ensures ProcessRow(db, row, index).outcome.Imported?
    ensures Covered(ProcessRow(db, row, index).db, row)
  {
    ImportedExactlyWhenValid(db, row, index);
    var r := ProcessRow(db, row, index);
    var key := CastKey(row.registrationNumber).value;
    if Taken(db, row.registrationNumber) {
      var stored := db.companies[key].addresses;
      var j := FindAddress(stored, RowSite(row));
      if j.Some? {
        MatchedAddressUpdated(db, row, index, j.value);
        assert SiteOf(r.db.companies[key].addresses[j.value]) == RowSite(row);
      } else {
        UnmatchedAddressAppended(db, row, index);
        assert r.db.companies[key].addresses[|stored|] == AddressOf(row);
      }
    } else {
      NewCompanyRow(db, row, index);
      IntegerLiteralKey(row.registrationNumber.value);
      assert r.db.companies[key].addresses[0] == AddressOf(row);
    }
  }

  /** The first import of a file of valid rows, up to row n: nothing reported,
      every row so far covered, and the id set is the ids of their companies. */
  lemma {:induction false} FirstImport(db: Db, rows: seq<Row>, n: nat)
    requires StoredValid(db)
    requires forall i :: 0 <= i < |rows| ==> ValidRow(rows[i])
    requires n <= |rows|
    ensures var p := Before(Progress(db, {}, []), rows, n);
      && p.invalidRows == []
      && AllCovered(p.db, rows[..n])
      && p.importedCompanyIds == IdsOf(p.db, rows[..n])
    decreases n
  {
    var start := Progress(db, {}, []);
    if n == 0 {
      BeforeStart(start, rows);
    } else {
      var j := n - 1;
      FirstImport(db, rows, j);
      var p := Before(start, rows, j);
      BeforeKeepsInvariants(start, rows, j);
      RunStep(start, rows, j);
      var r := ProcessRow(p.db, rows[j], j);
      ValidRowImported(p.db, rows[j], j);
      RowGrows(p.db, rows[j], j);
      var q := Before(start, rows, n);
      assert q == Record(p, r);
      assert r.outcome == Imported(IdOf(r.db, rows[j]));
      PrefixCovered(p.db, q.db, rows, j);
    }
  }

  /** On a store that differs only in postal codes from one covering the row,
      the row updates its matched address's postal code and reports its
      company. */
  lemma CoveredRowUpdates(db: Db, db2: Db, row: Row, index: nat)
    requires StoredValid(db2) && PostalOnly(db, db2) && Covered(db, row)
    ensures ProcessRow(db2, row, index).outcome == Imported(IdOf(db, row))
    ensures PostalOnly(db, ProcessRow(db2, row, index).db)
  {
    var key := CastKey(row.registrationNumber).value;
    var stored := db2.companies[key].addresses;
    var m := FindAddress(db.companies[key].addresses, RowSite(row)).value;
    assert SiteOf(stored[m]) == RowSite(row);
    var k := FindAddress(stored, RowSite(row)).value;
    MatchedAddressUpdated(db2, row, index, k);
    var after := ProcessRow(db2, row, index).db;
    assert after == WithAddresses(db2, key, stored[k := stored[k].(postalCode := row.postalCode)]);
    assert Kept(db.companies[key], after.companies[key]);
  }

  /** The second import, onto the store the first left, up to row n: nothing
      reported, the store differs from the first's only in postal codes, and
      the id set is the ids of the rows' companies in the first's store. */
  lemma {:induction false} SecondImport(db: Db, rows: seq<Row>, n: nat)
    requires StoredValid(db) && AllCovered(db, rows)
    requires n <= |rows|
    ensures AllTaken(db, rows[..n])
    ensures var p := Before(Progress(db, {}, []), rows, n);
      && p.invalidRows == []
      && PostalOnly(db, p.db)
      && p.importedCompanyIds == IdsOf(db, rows[..n])
    decreases n
  {
    var start := Progress(db, {}, []);
    assert forall i :: 0 <= i < n ==> rows[..n][i] == rows[i];
    if n == 0 {
      BeforeStart(start, rows);
    } else {
      var j := n - 1;
      SecondImport(db, rows, j);
      var p := Before(start, rows, j);
      BeforeKeepsInvariants(start, rows, j);
      RunStep(start, rows, j);
      CoveredRowUpdates(db, p.db, rows[j], j);
      IdsOfSnoc(db, rows, j);
    }
  }

  /** Re-importing a file of valid rows onto the store its first import left
      reports no failure, reports the same companies, creates no company and
      adds no address to any company. */
  lemma ReimportIsIdempotent(db: Db, rows: seq<Row>)
    requires StoredValid(db)
    requires forall i :: 0 <= i < |rows| ==> ValidRow(rows[i])
    ensures var first := Run(Progress(db, {}, []), rows);
      var second := Run(Progress(first.db, {}, []), rows);
      && first.invalidRows == [] && second.invalidRows == []
      && second.importedCompanyIds == first.importedCompanyIds
      && PostalOnly(first.db, second.db)
  {
    var first := Run(Progress(db, {}, []), rows);
    FirstImport(db, rows, |rows|);
    RunKeepsInvariants(Progress(db, {}, []), rows);
    assert rows[..|rows|] == rows;
    SecondImport(first.db, rows, |rows|);
  }

  /** An import of two rows, row by row. */
  lemma TwoRows(start: Progress, r0: Row, r1: Row)
    ensures var p1 := Record(start, ProcessRow(start.db, r0, 0));
      Run(start, [r0, r1]) == Record(p1, ProcessRow(p1.db, r1, 1))
  {
    var rows := [r0, r1];
    BeforeStart(start, rows);
    RunStep(start, rows, 0);
    RunStep(start, rows, 1);
    assert rows[..2] == rows;
  }

  /** A valid row whose number no stored company has creates that company
      with the row's address alone. */
  lemma NewValidRow(db: Db, row: Row, index: nat)
    requires StoredValid(db) && ValidRow(row) && !Taken(db, row.registrationNumber)
    ensures var r := ProcessRow(db, row, index);
      && r.outcome.Imported? && StoredValid(r.db)
      && CastKey(row.registrationNumber).Some?
      && CastKey(row.registrationNumber).value in r.db.companies
      && r.db.companies[CastKey(row.registrationNumber).value].addresses == [AddressOf(row)]
  {
    IntegerLiteralKey(row.registrationNumber.value);
    ImportedExactlyWhenValid(db, row, index);
    NewCompanyRow(db, row, index);
    RowKeepsInvariants(db, row, index);
  }

  /** A row with an invalid name whose number no stored company has is
      rejected and writes nothing. */
  lemma NamelessNewRow(db: Db, row: Row, index: nat)
    requires StoredValid(db) && !ValidName(row.name) && !Taken(db, row.registrationNumber)
    ensures ProcessRow(db, row, index).outcome.Rejected? && ProcessRow(db, row, index).db == db
  {
    ImportedExactlyWhenValid(db, row, index);
    RejectedRowWritesNothing(db, row, index);
  }

  /** The first import of two rows sharing a number no stored company has,
      the first with an invalid name and the second valid, rejects the first
      and creates the company with the second's address alone. */
  lemma MixedFirstImport(db: Db, r0: Row, r1: Row)
    requires StoredValid(db)
    requires r0.registrationNumber == r1.registrationNumber && !Taken(db, r1.registrationNumber)
    requires !ValidName(r0.name) && ValidRow(r1)
    ensures CastKey(r1.registrationNumber).Some?
    ensures var first := Run(Progress(db, {}, []), [r0, r1]);
      var key := CastKey(r1.registrationNumber).value;
      && |first.invalidRows| == 1
      && key in first.db.companies && first.db.companies[key].addresses == [AddressOf(r1)]
      && StoredValid(first.db)
  {
    var start := Progress(db, {}, []);
    TwoRows(start, r0, r1);
    NamelessNewRow(db, r0, 0);
    NewValidRow(db, r1, 1);
  }

  /** A valid address on a new site for a stored company is appended. */
  lemma UnmatchedValidRow(db: Db, row: Row, index: nat)
    requires StoredValid(db) && Taken(db, row.registrationNumber) && ValidAddress(AddressOf(row))
    requires FindAddress(db.companies[CastKey(row.registrationNumber).value].addresses, RowSite(row)).None?
    ensures var key := CastKey(row.registrationNumber).value;
      var r := ProcessRow(db, row, index);
      && r.outcome.Imported? && StoredValid(r.db) && key in r.db.companies
      && r.db.companies[key].addresses == db.companies[key].addresses + [AddressOf(row)]
  {
    UnmatchedAddressAppended(db, row, index);
    RowKeepsInvariants(db, row, index);
  }

  /** A row whose first address on its site is exactly the row's address
      changes nothing and reports its company. */
  lemma SameAddressRow(db: Db, row: Row, index: nat, j: nat)
    requires StoredValid(db) && Taken(db, row.registrationNumber)
    requires FindAddress(db.companies[CastKey(row.registrationNumber).value].addresses, RowSite(row)) == Some(j)
    requires db.companies[CastKey(row.registrationNumber).value].addresses[j] == AddressOf(row)
    ensures ProcessRow(db, row, index) == RowResult(db, Imported(db.companies[CastKey(row.registrationNumber).value].id))
  {
    var key := CastKey(row.registrationNumber).value;
    var stored := db.companies[key].addresses;
    MatchedAddressUpdated(db, row, index, j);
    assert stored[j := stored[j].(postalCode := row.postalCode)] == stored;
    assert WithAddresses(db, key, stored) == db;
  }

  /** Those rows imported onto a store where their company has only the
      second row's address: the first row's address is appended, the second's
      matched, and nothing is reported. */
  lemma MixedSecondImport(db: Db, r0: Row, r1: Row)
    requires StoredValid(db)
    requires r0.registrationNumber == r1.registrationNumber && Taken(db, r1.registrationNumber)
    requires db.companies[CastKey(r1.registrationNumber).value].addresses == [AddressOf(r1)]
    requires ValidAddress(AddressOf(r0)) && RowSite(r0) != RowSite(r1)
    ensures var second := Run(Progress(db, {}, []), [r0, r1]);
      var key := CastKey(r1.registrationNumber).value;
      && second.invalidRows == []
      && key in second.db.companies && second.db.companies[key].addresses == [AddressOf(r1), AddressOf(r0)]
  {
    var key := CastKey(r1.registrationNumber).value;
    var start := Progress(db, {}, []);
    TwoRows(start, r0, r1);
    var s0 := ProcessRow(db, r0, 0);
    var p1 := Record(start, s0);
    UnmatchedValidRow(db, r0, 0);
    var stored := [AddressOf(r1), AddressOf(r0)];
    assert p1.db.companies[key].addresses == stored;
    assert FindAddress(stored, RowSite(r1)) == Some(0);
    SameAddressRow(p1.db, r1, 1, 0);
  }

  /** Importing those rows again appends the first row's address to the
      company and reports nothing: a re-import adds an address when the first
      import rejected a row whose number a later row then saved. */
  lemma MixedReimportAddsAddress(db: Db, r0: Row, r1: Row)
    requires StoredValid(db)
    requires r0.registrationNumber == r1.registrationNumber && !Taken(db, r1.registrationNumber)
    requires !ValidName(r0.name) && ValidAddress(AddressOf(r0)) && ValidRow(r1)
    requires RowSite(r0) != RowSite(r1)
    ensures CastKey(r1.registrationNumber).Some?
    ensures var first := Run(Progress(db, {}, []), [r0, r1]);
      var second := Run(Progress(first.db, {}, []), [r0, r1]);
      var key := CastKey(r1.registrationNumber).value;
      && |first.invalidRows| == 1
      && key in first.db.companies && first.db.companies[key].addresses == [AddressOf(r1)]
      && second.invalidRows == []
      && key in second.db.companies && second.db.companies[key].addresses == [AddressOf(r1), AddressOf(r0)]
  {
    MixedFirstImport(db, r0, r1);
    MixedSecondImport(Run(Progress(db, {}, []), [r0, r1]).db, r0, r1);
  }
}
