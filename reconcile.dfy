/** What the import does with one row, step by step as the service does it,
    and with a whole file: the specification the imperative service in
    ImportService is proved against. */
module Reconcile {
  import opened Records
  import opened Validation

  /** One `invalid_rows` entry. `errors` is the errors object of the record
      that failed; as the caller renders it, it is the mapping
      Validation.ErrorMap(errors). */
  datatype InvalidRow = InvalidRow(index: nat, detail: string, errors: seq<FieldError>)

  /** The company a row works on: one already stored under `key`, or a new,
      unsaved one holding the row's name and raw registration number and the
      addresses built onto it. */
  datatype Draft =
    | Persisted(key: int)
    | Fresh(name: Option<string>, registrationNumber: Option<string>, addresses: seq<Address>)

  /** After the address step: go on to save the company, or the row is done. */
  datatype AddressStep = Attached(db: Db, company: Draft) | Skipped(entry: InvalidRow)

  datatype SaveStep = Saved(db: Db, id: nat) | NotSaved(entry: InvalidRow)

  /** What one row contributes: the id of the company it saved, or one failure. */
  datatype Outcome = Imported(id: nat) | Rejected(entry: InvalidRow)

  datatype RowResult = RowResult(db: Db, outcome: Outcome)

  /** The store together with the service's two accumulators. */
  datatype Progress = Progress(db: Db, importedCompanyIds: set<nat>, invalidRows: seq<InvalidRow>)

  /** Holds for every store the schema admits: each company is filed under its
      own registration number, and ids are distinct and below the next id. */
  predicate Consistent(db: Db) {
    && (forall k :: k in db.companies ==> db.companies[k].registrationNumber == k && db.companies[k].id < db.nextId)
    && (forall k1, k2 :: k1 in db.companies && k2 in db.companies && k1 != k2 ==>
          db.companies[k1].id != db.companies[k2].id)
  }

  /** Every stored company and address passes its model's validations. */
  predicate StoredValid(db: Db) {
    forall k :: k in db.companies ==>
      && ValidName(Some(db.companies[k].name))
      && forall m :: 0 <= m < |db.companies[k].addresses| ==> ValidAddress(db.companies[k].addresses[m])
  }

  predicate Valid(db: Db) {
    Consistent(db) && StoredValid(db)
  }

  /** No company has two addresses on the same street, city and country. */
  predicate DistinctSites(db: Db) {
    forall k :: k in db.companies ==> SitesDistinct(db.companies[k].addresses)
  }

  predicate SitesDistinct(addresses: seq<Address>) {
    forall i, j :: 0 <= i < j < |addresses| ==> SiteOf(addresses[i]) != SiteOf(addresses[j])
  }

  /** Whether the lookup by the raw registration number finds a stored company. */
  predicate Taken(db: Db, raw: Option<string>) {
    CastKey(raw).Some? && CastKey(raw).value in db.companies
  }

  /** Whether the uniqueness validation fails: a stored company holds the value
      the attribute was cast to. */
  predicate UniquenessFails(db: Db, raw: Option<string>) {
    AttributeValue(raw).Some? && AttributeValue(raw).value in db.companies
  }

  /** `find_or_build_company`: the stored company with the row's registration
      number, or a new one carrying the row's name and number. */
  function FindOrBuildCompany(db: Db, row: Row): (d: Draft)
    ensures d.Persisted? <==> Taken(db, row.registrationNumber)
    ensures d.Persisted? ==> d.key in db.companies && CastKey(row.registrationNumber) == Some(d.key)
    ensures d.Fresh? ==> d == Fresh(row.name, row.registrationNumber, [])
  {
    var key := CastKey(row.registrationNumber);
    if key.Some? && key.value in db.companies then Persisted(key.value)
    else Fresh(row.name, row.registrationNumber, [])
  }

  /** The first address on the given street, city and country, if any
      (`find_or_initialize_by` on the company's addresses). */
  function FindAddress(addresses: seq<Address>, site: Site): (r: Option<nat>)
    ensures r.Some? ==> r.value < |addresses| && SiteOf(addresses[r.value]) == site
    ensures r.Some? ==> forall m :: 0 <= m < r.value ==> SiteOf(addresses[m]) != site
    ensures r.None? ==> forall m :: 0 <= m < |addresses| ==> SiteOf(addresses[m]) != site
  {
    if addresses == [] then None
    else if SiteOf(addresses[0]) == site then Some(0)
    else
      match FindAddress(addresses[1..], site)
      case None => None
      case Some(j) => Some(j + 1)
  }

  /** The store with the addresses of the company under `key` replaced. */
  function WithAddresses(db: Db, key: int, addresses: seq<Address>): (r: Db)
    requires key in db.companies
    ensures r.nextId == db.nextId && r.companies.Keys == db.companies.Keys
    ensures r.companies[key] == db.companies[key].(addresses := addresses)
    ensures forall k :: k in db.companies && k != key ==> r.companies[k] == db.companies[k]
  {
    db.(companies := db.companies[key := db.companies[key].(addresses := addresses)])
  }

  /** `add_or_update_address`. A new company gets the row's address built onto
      it. For a stored company, the address on the row's street, city and
      country is updated with `update!` (a failure is rescued and reported with
      the exception's message), or else a new address is validated and
      appended; both write at once. An invalid address ends the row. */
  function AddOrUpdateAddress(db: Db, company: Draft, row: Row, index: nat): (r: AddressStep)
    requires company.Persisted? ==> company.key in db.companies
    ensures r.Attached? ==> r.company.Persisted? ==> r.company.key in r.db.companies
    ensures r.Skipped? <==> company.Persisted? && !ValidAddress(AddressOf(row))
    ensures r.Skipped? ==> r.entry.index == index && r.entry.errors == AddressErrors(AddressOf(row))
  {
    match company
    case Fresh(name, number, addresses) =>
      Attached(db, Fresh(name, number, addresses + [AddressOf(row)]))
    case Persisted(key) =>
      var stored := db.companies[key].addresses;
      var address := AddressOf(row);
      match FindAddress(stored, RowSite(row))
      case Some(j) =>
        if ValidAddress(address) then Attached(WithAddresses(db, key, stored[j := address]), company)
        else Skipped(InvalidRow(index, RecordInvalidMessage(AddressErrors(address)), AddressErrors(address)))
      case None =>
        if ValidAddress(address) then Attached(WithAddresses(db, key, stored + [address]), company)
        else Skipped(InvalidRow(index, Detail(AddressErrors(address)), AddressErrors(address)))
  }

  /** Whether `company.save` passes validation: for a new company its
      addresses, its name and its registration number (an integer literal whose
      value no stored company holds); for a stored one only the name can fail, since its number is an
      integer already filed under itself. */
  predicate ValidCompany(db: Db, company: Draft)
    requires company.Persisted? ==> company.key in db.companies
  {
    match company
    case Persisted(key) => ValidName(Some(db.companies[key].name))
    case Fresh(name, number, addresses) =>
      && (forall i :: 0 <= i < |addresses| ==> ValidAddress(addresses[i]))
      && ValidName(name)
      && number.Some? && IsIntegerLiteral(number.value) && !UniquenessFails(db, number)
  }

  /** The errors a failed `company.save` leaves: the addresses' (reported under
      `addresses.`), then the name's, then the registration number's. */
  function CompanyErrors(db: Db, company: Draft): (errs: seq<FieldError>)
    requires company.Persisted? ==> company.key in db.companies
    ensures errs == [] <==> ValidCompany(db, company)
  {
    match company
    case Persisted(key) => NameErrors(Some(db.companies[key].name))
    case Fresh(name, number, addresses) =>
      NestedErrors(addresses) + NameErrors(name) + RegistrationNumberErrors(number, UniquenessFails(db, number))
  }

  /** `save_company`: a valid new company is inserted with the next id under
      its registration number; a stored one is saved as it is. */
  function SaveCompany(db: Db, company: Draft, index: nat): (r: SaveStep)
    requires company.Persisted? ==> company.key in db.companies
    ensures r.NotSaved? <==> !ValidCompany(db, company)
    ensures r.NotSaved? ==> r.entry.index == index && r.entry.errors == CompanyErrors(db, company)
  {
    if !ValidCompany(db, company) then
      var errs := CompanyErrors(db, company);
      NotSaved(InvalidRow(index, Detail(errs), errs))
    else
      match company
      case Persisted(key) => Saved(db, db.companies[key].id)
      case Fresh(name, number, addresses) =>
        IntegerLiteralKey(number.value);
        var key := CastKey(number).value;
        Saved(Db(db.companies[key := Company(db.nextId, name.value, key, addresses)], db.nextId + 1), db.nextId)
  }

  /** The body of the loop in `call`, for the row at `index`. */
  function ProcessRow(db: Db, row: Row, index: nat): (r: RowResult)
    ensures r.outcome.Rejected? ==> r.outcome.entry.index == index
    ensures r.outcome.Imported? ==>
      && CastKey(row.registrationNumber).Some?
      && CastKey(row.registrationNumber).value in r.db.companies
      && r.db.companies[CastKey(row.registrationNumber).value].id == r.outcome.id
  {
    var company := FindOrBuildCompany(db, row);
    match AddOrUpdateAddress(db, company, row, index)
    case Skipped(entry) => RowResult(db, Rejected(entry))
    case Attached(db1, company1) =>
      match SaveCompany(db1, company1, index)
      case Saved(db2, id) => RowResult(db2, Imported(id))
      case NotSaved(entry) => RowResult(db1, Rejected(entry))
  }

  /** What the service's accumulators do with a row's outcome: the id goes
      into the set, a failure to the end of the list. */
  function Record(p: Progress, r: RowResult): (q: Progress)
    ensures q.db == r.db
    ensures r.outcome.Imported? ==> q.importedCompanyIds == p.importedCompanyIds + {r.outcome.id} && q.invalidRows == p.invalidRows
    ensures r.outcome.Rejected? ==> q.importedCompanyIds == p.importedCompanyIds && q.invalidRows == p.invalidRows + [r.outcome.entry]
  {
    match r.outcome
    case Imported(id) => Progress(r.db, p.importedCompanyIds + {id}, p.invalidRows)
    case Rejected(entry) => Progress(r.db, p.importedCompanyIds, p.invalidRows + [entry])
  }

  /** `call` over the rows, from the given store and accumulators; the row at
      position i of `rows` has index i. */
  function Run(start: Progress, rows: seq<Row>): Progress
    decreases |rows|
  {
    if rows == [] then start
    else
      var before := Run(start, rows[..|rows| - 1]);
      Record(before, ProcessRow(before.db, rows[|rows| - 1], |rows| - 1))
  }

  /** The state before the row at position i. */
  function Before(start: Progress, rows: seq<Row>, i: nat): Progress
    requires i <= |rows|
  {
    Run(start, rows[..i])
  }

  /** What the row at position i contributes. */
  function OutcomeAt(start: Progress, rows: seq<Row>, i: nat): Outcome
    requires i < |rows|
  {
    ProcessRow(Before(start, rows, i).db, rows[i], i).outcome
  }

  lemma RunStep(start: Progress, rows: seq<Row>, i: nat)
    requires i < |rows|
    ensures Before(start, rows, i + 1) == Record(Before(start, rows, i), ProcessRow(Before(start, rows, i).db, rows[i], i))
  {
    assert rows[..i + 1][..i] == rows[..i];
  }
}
