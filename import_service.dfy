/** The service itself: an object holding the decoded rows, the store it
    writes to and the two accumulators it fills, whose `Call` walks the rows
    once, in order, doing to the store and to the accumulators exactly what
    Reconcile.Run describes. */
module ImportService {
  import opened Records
  import opened Validation
  import opened Reconcile
  import RowProperties
  import ImportProperties

  /** The `companies` and `addresses` tables, updated in place. */
  class Store {
    var companies: map<int, Company>
    var nextId: nat

    function Snapshot(): Db
      reads this
    {
      Db(companies, nextId)
    }

    constructor (db: Db)
      ensures Snapshot() == db
    {
      companies := db.companies;
      nextId := db.nextId;
    }

    /** INSERT of a new company with its addresses; the primary key is the
        next value of the sequence. */
    method Insert(key: int, name: string, addresses: seq<Address>) returns (id: nat)
      modifies this
      requires key !in companies
      ensures id == old(nextId) && nextId == old(nextId) + 1
      ensures companies == old(companies)[key := Company(id, name, key, addresses)]
    {
      id := nextId;
      companies := companies[key := Company(id, name, key, addresses)];
      nextId := nextId + 1;
    }

    /** UPDATE of the j-th address of the company under `key` (`update!`). */
    method ReplaceAddress(key: int, j: nat, a: Address)
      modifies this
      requires key in companies && j < |companies[key].addresses|
      ensures Snapshot() == WithAddresses(old(Snapshot()), key, old(companies[key].addresses)[j := a])
    {
      var c := companies[key];
      companies := companies[key := c.(addresses := c.addresses[j := a])];
    }

    /** INSERT of an address for the company under `key` (`<<` on a
        persisted company's association). */
    method AppendAddress(key: int, a: Address)
      modifies this
      requires key in companies
      ensures Snapshot() == WithAddresses(old(Snapshot()), key, old(companies[key].addresses) + [a])
    {
      var c := companies[key];
      companies := companies[key := c.(addresses := c.addresses + [a])];
    }
  }

  /** What `call` returns. */
  datatype ImportResult = ImportResult(importedCompanyIds: set<nat>, invalidRows: seq<InvalidRow>)

  class CompaniesImportService {
    /** The data rows of the file, already decoded. */
    const rows: seq<Row>
    const store: Store
    var importedCompanyIds: set<nat>
    var invalidRows: seq<InvalidRow>

    /** The store together with the accumulators. */
    function State(): Progress
      reads this, store
    {
      Progress(store.Snapshot(), importedCompanyIds, invalidRows)
    }

    constructor (rows: seq<Row>, store: Store)
      ensures this.rows == rows && this.store == store
      ensures importedCompanyIds == {} && invalidRows == []
    {
      this.rows := rows;
      this.store := store;
      importedCompanyIds := {};
      invalidRows := [];
    }

    /** `note_invalid_company_row`: append one failure. */
    method NoteInvalidCompanyRow(index: nat, detail: string, errs: seq<FieldError>)
      modifies this
      ensures invalidRows == old(invalidRows) + [InvalidRow(index, detail, errs)]
      ensures importedCompanyIds == old(importedCompanyIds)
    {
      invalidRows := invalidRows + [InvalidRow(index, detail, errs)];
    }

    /** `add_or_update_address`: true when the row goes on to be saved, with
        the company as it then stands; on false the failure has been noted. */
    method AddOrUpdateAddress(company: Draft, row: Row, index: nat) returns (ok: bool, built: Draft)
      modifies this, store
      requires company.Persisted? ==> company.key in store.companies
      ensures var a := Reconcile.AddOrUpdateAddress(old(store.Snapshot()), company, row, index);
        && ok == a.Attached?
        && importedCompanyIds == old(importedCompanyIds)
        && (ok ==> store.Snapshot() == a.db && built == a.company && invalidRows == old(invalidRows))
        && (!ok ==> store.Snapshot() == old(store.Snapshot()) && invalidRows == old(invalidRows) + [a.entry])
    {
      match company
      case Fresh(name, number, addresses) =>
        ok, built := true, Fresh(name, number, addresses + [AddressOf(row)]);
      case Persisted(key) =>
        var address := AddressOf(row);
        var found := FindAddress(store.companies[key].addresses, RowSite(row));
        built := company;
        if found.Some? {
          if ValidAddress(address) {
            store.ReplaceAddress(key, found.value, address);
            ok := true;
          } else {
            var errs := AddressErrors(address);
            NoteInvalidCompanyRow(index, RecordInvalidMessage(errs), errs);
            ok := false;
          }
        } else if ValidAddress(address) {
          store.AppendAddress(key, address);
          ok := true;
        } else {
          var errs := AddressErrors(address);
          NoteInvalidCompanyRow(index, Detail(errs), errs);
          ok := false;
        }
    }

    /** `save_company`: on success the company's id joins the set, otherwise
        the failure is noted. */
    method SaveCompany(company: Draft, index: nat)
      modifies this, store
      requires company.Persisted? ==> company.key in store.companies
      ensures var s := Reconcile.SaveCompany(old(store.Snapshot()), company, index);
        && (s.Saved? ==> store.Snapshot() == s.db && importedCompanyIds == old(importedCompanyIds) + {s.id} && invalidRows == old(invalidRows))
        && (s.NotSaved? ==> store.Snapshot() == old(store.Snapshot()) && importedCompanyIds == old(importedCompanyIds) && invalidRows == old(invalidRows) + [s.entry])
    {
      if ValidCompany(store.Snapshot(), company) {
        match company
        case Persisted(key) =>
          importedCompanyIds := importedCompanyIds + {store.companies[key].id};
        case Fresh(name, number, addresses) =>
          IntegerLiteralKey(number.value);
          var id := store.Insert(CastKey(number).value, name.value, addresses);
          importedCompanyIds := importedCompanyIds + {id};
      } else {
        var errs := CompanyErrors(store.Snapshot(), company);
        NoteInvalidCompanyRow(index, Detail(errs), errs);
      }
    }

    /** `call`: every row in order, each in its own step; the store and the
        accumulators end as Reconcile.Run says, and the result carries the
        accumulators. */
    method Call() returns (result: ImportResult)
      modifies this, store
      ensures State() == Run(old(State()), rows)
      ensures result == ImportResult(importedCompanyIds, invalidRows)
    {
      ghost var start := State();
      var i := 0;
      while i < |rows|
        invariant i <= |rows|
        invariant State() == Before(start, rows, i)
      {
        var row := rows[i];
        ghost var db := store.Snapshot();
        RowProperties.RowSteps(db, row, i);
        RunStep(start, rows, i);
        var company := FindOrBuildCompany(store.Snapshot(), row);
        var ok, built := AddOrUpdateAddress(company, row, i);
        if ok {
          SaveCompany(built, i);
        }
        i := i + 1;
      }
      assert rows[..|rows|] == rows;
      result := ImportResult(importedCompanyIds, invalidRows);
    }
  }

  /** `CompaniesImportService.new(file).call` on a store: with fresh
      accumulators the result lists each failure once, in row order, holds
      only ids of stored companies, and is empty for a file with no data
      rows; the store keeps its invariants. */
  method Import(store: Store, rows: seq<Row>) returns (result: ImportResult)
    modifies store
    ensures Progress(store.Snapshot(), result.importedCompanyIds, result.invalidRows) == Run(Progress(old(store.Snapshot()), {}, []), rows)
    ensures rows == [] ==> result == ImportResult({}, []) && store.Snapshot() == old(store.Snapshot())
    ensures forall n :: 0 <= n < |result.invalidRows| ==> result.invalidRows[n].index < |rows|
    ensures forall n, m :: 0 <= n < m < |result.invalidRows| ==> result.invalidRows[n].index < result.invalidRows[m].index
    ensures forall id :: id in result.importedCompanyIds ==> exists k :: k in store.companies && store.companies[k].id == id
    ensures Valid(old(store.Snapshot())) ==> Valid(store.Snapshot())
  {
    ghost var start := Progress(store.Snapshot(), {}, []);
    var service := new CompaniesImportService(rows, store);
    result := service.Call();
    ImportProperties.InvalidRowsInOrder(start, rows);
    ImportProperties.ImportedIdsStored(start, rows);
    ImportProperties.RunKeepsInvariants(start, rows);
  }
}
