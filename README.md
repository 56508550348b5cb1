# Company import, modelled in Dafny

This project models the CSV company import of a Rails API: `CompaniesImportService#call` and its helpers. For each data row, in file order, the service does three things:
- It looks the company up by registration number, or builds a new one carrying the row's name.
- It attaches the row's address. For a stored company the address is matched on street, city and country: a match is updated, otherwise a new address is validated and appended.
- It saves the company. A saved company's id goes into a set; a failure is appended to `invalid_rows` as `{index, detail, errors}`.

The model has six modules:

- `Records` (records.dfy) defines the decoded row, the stored company and address, and the store. The store is a map from registration number to company plus the next id. This module also defines the two ways Active Record reads a raw registration number as an integer: as the lookup key (`CastKey`) and as the attribute value the uniqueness check compares (`AttributeValue`).
- `Validation` (validation.dfy) holds the validations the import depends on: company name, registration number, and the address presence checks. It also defines the two forms a failure is reported in. `detail` is the full messages joined with ", ". `errors` is the failed record's errors object, which renders as a mapping from each attribute key to its messages (`ErrorMap`), e.g. `"addresses.city" => ["can't be blank"]`.
- `Reconcile` (reconcile.dfy) describes one row step by step as pure functions (`FindOrBuildCompany`, `FindAddress`, `AddOrUpdateAddress`, `SaveCompany`, `ProcessRow`). `Run` folds `ProcessRow` over the rows. This is the specification the service is proved against.
- `RowProperties` (row_properties.dfy) and `ImportProperties` (import_properties.dfy) prove what one row, and then a whole import, does to the store and to the result.
- `Reimport` (reimport.dfy) proves what importing the same file a second time does.
- `ImportService` (import_service.dfy) is the service as the source writes it. `Store` is an object whose tables are updated in place (insert a company, update an address, append an address). `CompaniesImportService` holds the rows, the store and the two accumulators. Its `Call` loops over the rows and is proved to leave the store and the accumulators exactly as `Reconcile.Run` says.

Details of the model:
- The row index is the 0-based position among data rows.
- A missing or empty CSV cell is `None`.
- The registration number is looked up the way Active Record casts it for an integer column. Leading white space is skipped, then an optional sign and the leading digits are read; the rest is ignored. A value that does not start that way is nil and matches nothing. So a row with `12abc` finds the company with number 12. Such a row is saved only through the stored company, whose own number is valid. A new company with that number fails numericality.
- The uniqueness check compares the attribute's value, which is cast differently: a blank text is nil, and a text that does not start like a number is 0, not nil. So a new company with number `abc` fails uniqueness when a company with number 0 is stored, and reports "has already been taken" before "is not a number".
- Numericality reads the raw text. An integer literal (optional sign, then digits, nothing around them) passes. A number with white space around it, or a decimal fraction such as `12.5`, is "must be an integer". Anything else is "is not a number".
- Validation messages are Rails' default English ones.
- Error order is assumed:
  - On a company, errors of its built addresses come first (`addresses.city` and so on), then name presence, name length, registration-number presence, uniqueness and numericality.
  - On an address, the order is street, city, country.

Where the design description and the code disagree, the model follows the code:
- **Failed save after an address write.** The design says a company is never saved with a dangling address, nor an address kept for a failed company. In the code, the address of a stored company is written (`update!` or `<<`) before `company.save`. A failing save returns false inside the transaction without raising, so that write stays. `Reconcile.ProcessRow` keeps this order. `RowProperties.RejectedRowWritesNothing` proves that a failing save cannot follow such a write when every stored row is valid.
- **Re-import of a file with invalid rows.** The design says re-importing identical input yields the same ids, no new invalid rows and no more addresses. `Reimport.ReimportIsIdempotent` proves this when every row is valid. With invalid rows it can fail. Take row 0 with a blank name, number 5 and street A, and row 1 with a valid name, number 5 and street B. The first import rejects row 0 and creates company 5 with street B. The second import finds company 5 for row 0 and appends street A. `Reimport.MixedReimportAddsAddress` proves this for every such pair of rows.
- **Validation on the update path.** The design says the matched-address update runs no validation. The code uses `update!`, which validates, and rescues `ActiveRecord::RecordInvalid`. The model validates too, and reports the rescued message "Validation failed: …". `RowProperties.MatchedAddressUpdated` proves this update cannot fail on a valid store: the matched address already has the row's street, city and country.

## Model

| member | source | states |
|---|---|---|
| Records.AddressOf | app/services/companies_import_service.rb:17 | the address built from a row has the row's street, city and country and its postal code |
| Records.DecimalRoundTrip | app/services/companies_import_service.rb:39-43 | a row carrying the text of a stored number, negative ones included (`Integer#to_s`), is looked up under exactly that number, and the text passes the integer check |
| Records.IntegerLiteralKey | db/schema.rb:43 | a registration number that passes the integer check always casts to an integer key, namely the number it spells, sign included; the attribute holds the same value |
| Records.DigitsKey | db/schema.rb:43 | a text of digits alone casts to the number those digits spell |
| Records.AttributeValue | db/schema.rb:43 | the attribute is nil exactly when the text is blank; it differs from the lookup key only for a text that is not blank and does not start like a number, and then it is 0 |
| Records.IntegerLiteralNumeric | spec/models/company_spec.rb:16 | an integer literal has no surrounding white space and is a number |
| Records.LeadingSpaceLiteral | spec/models/company_spec.rb:16 | a space before an integer literal leaves a number that is no integer literal, and the lookup key unchanged |
| Records.TrailingSpaceLiteral | spec/models/company_spec.rb:16 | a space after an integer literal leaves a number that is no integer literal, and the lookup key unchanged |
| Validation.NameErrors | spec/models/company_spec.rb:12-13 | the name has no errors exactly when it is present and at most 256 characters; its only errors are "can't be blank" and "is too long" |
| Validation.NameErrorsCases | spec/models/company_spec.rb:12-13 | "can't be blank" is reported exactly for a blank name, "is too long" exactly for a name over 256 characters |
| Validation.NumericalityErrors | spec/models/company_spec.rb:16 | no error exactly for an integer literal; exactly "must be an integer" for any other number, white space around it included; exactly "is not a number" for nil or a text that is no number |
| Validation.RegistrationNumberErrors | spec/models/company_spec.rb:14-16 | the number has no errors exactly when it is present, an integer literal and not taken; "has already been taken" is reported exactly when another company holds its value |
| Validation.RegistrationNumberErrorsCases | spec/models/company_spec.rb:14-16 | "can't be blank" is reported exactly for a blank number, and the list ends with the numericality check's own verdict |
| Validation.NotAnIntegerOnly | spec/models/company_spec.rb:16 | a number that is no integer literal, and not taken, has exactly the error "must be an integer" |
| Validation.PaddedNumberNotAnInteger | spec/models/company_spec.rb:16 | an integer literal with a space before or after it has exactly the error "must be an integer" |
| Validation.NotANumberOnly | spec/models/company_spec.rb:16 | a non-blank text that is no number has "is not a number", after "has already been taken" when it is taken |
| Validation.AddressErrors | spec/models/address_spec.rb:9-11 | an address has no errors exactly when street, city and country are present; all its errors are non-nested "can't be blank" |
| Validation.AddressErrorsCases | spec/models/address_spec.rb:9-11 | street, city and country are each reported as "can't be blank" under their own attribute exactly when that field is blank |
| Validation.NestedErrors | spec/integration/requests/api/v1/companies_import_spec.rb:80 | the built addresses give the company no errors exactly when each is valid; each error is reported under `addresses.` as "can't be blank" |
| Validation.FullMessages | app/services/companies_import_service.rb:55 | one full message per error, in order, each the humanised attribute followed by the message |
| Validation.Join | app/services/companies_import_service.rb:77 | joining no messages gives the empty string and joining one gives that message |
| Validation.JoinSnoc | app/services/companies_import_service.rb:77 | joining one more message adds the separator and that message to the end |
| Validation.DetailAppend | app/services/companies_import_service.rb:77 | the detail of one more error is the detail so far, ", " and the new error's full message |
| Validation.ErrorMapGroupsByKey | app/services/companies_import_service.rb:81-86 | the errors mapping has a key exactly when some error has that key, and holds under it the messages of those errors in the order they were added |
| Validation.MessagesForAppend | app/services/companies_import_service.rb:81-86 | adding an error appends its message to its key's list and to no other key's |
| Validation.MessagesForContains | app/services/companies_import_service.rb:81-86 | the message of each error is among the messages listed for its key |
| Validation.ErrorListed | app/services/companies_import_service.rb:81-86 | each error's key is in the mapping, and its message is listed under that key |
| Validation.OneAddressErrors | spec/integration/requests/api/v1/companies_import_spec.rb:80 | the company reports one address's errors in order, each under `addresses.` |
| Reconcile.FindOrBuildCompany | app/services/companies_import_service.rb:39-43 | the stored company is used exactly when one has the row's number; otherwise a new one carries the row's name and number and no address |
| Reconcile.FindAddress | app/services/companies_import_service.rb:63-71 | finds the first address on the row's street, city and country, ignoring the postal code, or reports that none has them |
| Reconcile.AddOrUpdateAddress | app/services/companies_import_service.rb:45-61 | the step fails exactly when a stored company gets an invalid address, and the failure carries the row's index and that address's errors; a stored company stays in the store |
| Reconcile.CompanyErrors | spec/models/company_spec.rb:12-16 | `company.save` reports no error exactly when the company passes its validations, uniqueness judged on the attribute's value |
| Reconcile.SaveCompany | app/services/companies_import_service.rb:73-79 | the save fails exactly when the company is invalid, and the failure carries the row's index and the company's errors |
| Reconcile.ProcessRow | app/services/companies_import_service.rb:19-24 | a rejected row's entry carries its index; an imported row's id is the id of the company now filed under the row's number |
| Reconcile.Record | app/services/companies_import_service.rb:75 | an imported row adds its id to the set and leaves the failures; a rejected row appends its failure and leaves the set |
| Reconcile.RunStep | app/services/companies_import_service.rb:15 | the state after row i is the state before it with row i processed, under index i |
| RowProperties.RowSteps | app/services/companies_import_service.rb:21-23 | a row whose address step fails ends there, with nothing saved; otherwise the save decides the outcome |
| RowProperties.AddressStepShape | app/services/companies_import_service.rb:46 | for a new company the address step writes nothing and adds the row's address to the draft; for a stored one it changes no key and no id |
| RowProperties.AddressStepExtends | app/services/companies_import_service.rb:48-53 | the address step writes only to the stored company it was given, and keeps its addresses' sites |
| RowProperties.AddressStepKeepsInvariants | app/services/companies_import_service.rb:45-61 | the address step keeps the store consistent and valid and its sites distinct |
| RowProperties.AddressStepKeepsValid | app/services/companies_import_service.rb:50-53 | the address step writes only valid addresses |
| RowProperties.AddressStepKeepsSites | app/services/companies_import_service.rb:63-71 | the address step never gives a company two addresses on one street, city and country |
| RowProperties.ExtendsTransitive | app/services/companies_import_service.rb:19-24 | writes confined to one company compose |
| RowProperties.SaveStepWrites | app/services/companies_import_service.rb:73-76 | saving a stored company writes nothing and reports its id; saving a new one inserts it under the number it spells, with the next id, its name and its addresses |
| RowProperties.SaveFailureDetail | app/services/companies_import_service.rb:77 | a failed save's detail is the joined full messages of its errors |
| RowProperties.SaveStepExtends | app/services/companies_import_service.rb:73-76 | saving writes nothing to any stored company |
| RowProperties.SaveStepKeepsInvariants | db/schema.rb:41-46 | saving keeps ids distinct, keys equal to numbers, stored fields valid and sites distinct |
| RowProperties.NewCompanyKeepsConsistent | db/schema.rb:43-46 | inserting a company under a free number with the next id keeps the store consistent |
| RowProperties.RowKeepsStoredCompanies | app/services/companies_import_service.rb:39-43 | a row never removes a company, never changes a stored company's id, name or number, never removes or moves an address, and touches only the company its number names |
| RowProperties.RowKeepsInvariants | app/services/companies_import_service.rb:14-25 | a row keeps the store consistent and valid and its sites distinct |
| RowProperties.RowKeepsValid | app/services/companies_import_service.rb:14-25 | a row keeps a valid store valid |
| RowProperties.MatchedAddressUpdated | app/services/companies_import_service.rb:48-50 | on a valid store, a row matching an address's street, city and country replaces only that address's postal code, adds no address and imports the company |
| RowProperties.UnmatchedAddressAppended | app/services/companies_import_service.rb:52-57 | with no matching address: a valid address is appended and kept, and on a valid store the company is imported; an invalid one is reported with its own messages and nothing is written |
| RowProperties.NewRowSaves | app/services/companies_import_service.rb:19-24 | a row whose number finds no company ends as the save of the new company with the row's address decides |
| RowProperties.NewCompanyRow | app/services/companies_import_service.rb:46 | a new company is inserted with the next id, the row's name and the one address exactly when its errors are empty; otherwise it is reported with those errors and nothing is written |
| RowProperties.ImportedExactlyWhenValid | app/services/companies_import_service.rb:14-25 | on a valid store, a row is imported exactly when its address is valid and, for a new company, its name and number are valid |
| RowProperties.RejectedRowWritesNothing | app/services/companies_import_service.rb:73-78 | on a valid store a rejected row leaves the store unchanged |
| RowProperties.MessagesComeFromErrors | app/services/companies_import_service.rb:81-86 | every message in the errors mapping is the message of one of the errors |
| RowProperties.UniquenessFailsOnlyAtZero | app/services/companies_import_service.rb:39-43 | when the lookup finds nothing, uniqueness fails exactly when the text is not blank, does not start like a number, and a company is stored under 0 |
| RowProperties.CompanyErrorsTaken | app/services/companies_import_service.rb:73-77 | a save reports the uniqueness error exactly when the company is new and a stored company holds its number's value |
| RowProperties.RejectionErrors | app/services/companies_import_service.rb:19-24 | a row whose number clashes at 0 is always rejected, and a rejected row's errors hold the uniqueness error exactly when its number clashes at 0 |
| RowProperties.UniquenessReportedOnlyAtZero | app/services/companies_import_service.rb:39-43 | a rejected row whose number does not clash at 0 lists "has already been taken" under no key |
| RowProperties.ZeroClashErrors | spec/models/company_spec.rb:15 | a new company whose number clashes at 0 has the uniqueness error |
| RowProperties.ZeroClashReported | app/services/companies_import_service.rb:73-77 | a row whose number clashes at 0 is rejected, writes nothing, and lists "has already been taken" under `registration_number` |
| RowProperties.NoneTakenNotInMap | app/services/companies_import_service.rb:81-86 | when no error is a uniqueness error, no key of the mapping lists its message |
| RowProperties.SingleErrorReport | app/services/companies_import_service.rb:77 | a failure with one error has that error's full message as its detail, and a mapping with only its key and message |
| RowProperties.NotANumberText | spec/integration/requests/api/v1/companies_import_spec.rb:79 | a non-numeric number reads "Registration number is not a number" under `registration_number` |
| RowProperties.BlankCityText | spec/integration/requests/api/v1/companies_import_spec.rb:80 | a new company's address without a city reads "Addresses city can't be blank" under `addresses.city` |
| RowProperties.TakenText | spec/models/company_spec.rb:15 | the uniqueness error reads "Registration number has already been taken" under `registration_number` |
| RowProperties.NotANumberErrors | spec/models/company_spec.rb:16 | a new company whose only fault is a number that is no number, with no stored company holding its value, has exactly the "is not a number" error |
| RowProperties.NotANumberReported | spec/integration/requests/api/v1/companies_import_spec.rb:79 | such a row is rejected with detail "Registration number is not a number" and errors `{registration_number: ["is not a number"]}`, and writes nothing |
| RowProperties.AbcText | spec/models/company_spec.rb:25 | `abc` is not blank, is no number, and the lookup reads nothing from it |
| RowProperties.AbcErrors | spec/models/company_spec.rb:15-16 | a new company numbered `abc`, all else valid, next to a company stored under 0 has exactly "has already been taken" and "is not a number" |
| RowProperties.AbcDetail | app/services/companies_import_service.rb:77 | those two errors give the detail "Registration number has already been taken, Registration number is not a number" |
| RowProperties.AbcErrorMap | app/services/companies_import_service.rb:81-86 | those two errors give `{registration_number: ["has already been taken", "is not a number"]}` |
| RowProperties.AbcNextToZeroReported | app/services/companies_import_service.rb:73-77 | such a row is rejected with those two errors and that detail, and writes nothing |
| RowProperties.BlankCityErrors | spec/models/address_spec.rb:10 | a new company whose only fault is a blank city has exactly the nested city error |
| RowProperties.BlankCityReported | spec/integration/requests/api/v1/companies_import_spec.rb:80 | such a row is rejected with detail "Addresses city can't be blank" and errors `{addresses.city: ["can't be blank"]}`, and writes nothing |
| RowProperties.TakenRowAddsNoCompany | app/services/companies_import_service.rb:39-43 | a row naming a stored company creates no company and uses no id |
| ImportProperties.GrowsTransitive | app/services/companies_import_service.rb:15 | growth of the store composes across rows |
| ImportProperties.RowGrows | app/services/companies_import_service.rb:19-24 | one row only grows the store |
| ImportProperties.BeforeStart | app/services/companies_import_service.rb:15 | before the first row the state is the starting one |
| ImportProperties.OutcomeAtPrefix | app/services/companies_import_service.rb:15 | a row's outcome does not depend on the rows after it |
| ImportProperties.RunGrows | app/services/companies_import_service.rb:15 | between any two points of an import the store only grows |
| ImportProperties.RunKeepsStoredCompanies | app/services/companies_import_service.rb:39-43 | an import never removes a company, never renames one, never changes its id or number, and never removes or moves an address |
| ImportProperties.UntouchedCompanyUnchanged | app/services/companies_import_service.rb:39-43 | a company no row names is left exactly as it was |
| ImportProperties.RunKeepsInvariants | app/services/companies_import_service.rb:14-28 | the whole import keeps the store consistent and valid and its sites distinct |
| ImportProperties.BeforeKeepsInvariants | app/services/companies_import_service.rb:14-28 | every intermediate store is consistent and valid when the first one is |
| ImportProperties.RejectedRowsWriteNothing | app/services/companies_import_service.rb:19-24 | on a valid store, a rejected row leaves the store as it found it |
| ImportProperties.RunAccumulates | app/services/companies_import_service.rb:75-86 | the last row adds its id or appends its failure, and nothing else |
| ImportProperties.StepGrows | app/services/companies_import_service.rb:75-86 | one row only appends to `invalid_rows` and only adds to the id set |
| ImportProperties.AccumulatorsGrow | app/services/companies_import_service.rb:75-86 | `invalid_rows` is only appended to and the id set only grows |
| ImportProperties.RowRecorded | app/services/companies_import_service.rb:75-86 | a saved row's id is in the result, and a rejected row's failure sits in `invalid_rows` right after the failures of the rows before it |
| ImportProperties.InvalidRowsInOrder | app/services/companies_import_service.rb:33 | each entry of `invalid_rows` names a row of the file, and indices strictly increase, so no row has two entries |
| ImportProperties.InvalidRowsSound | app/services/companies_import_service.rb:33 | each entry of `invalid_rows` is the failure of the row it names |
| ImportProperties.ImportedIdSource | app/services/companies_import_service.rb:73-76 | an id the import added comes from a row whose company was saved |
| ImportProperties.ImportedIdsStored | app/services/companies_import_service.rb:75 | every id in the set is the id of a company in the store |
| ImportProperties.SavedCompanyStays | app/services/companies_import_service.rb:39-43 | the company a saved row reported stays under its number with that id |
| ImportProperties.SameKeySameCompany | app/services/companies_import_service.rb:39-43 | two saved rows with the same registration number report the same company |
| ImportProperties.StoredIdsDistinct | db/schema.rb:43 | at every point of an import from a consistent store, companies under different numbers have different ids |
| ImportProperties.DifferentKeysDifferentCompanies | app/services/companies_import_service.rb:39-43 | two saved rows with different registration numbers report different companies |
| ImportProperties.SameIdExactlyWhenSameKey | app/services/companies_import_service.rb:39-43 | on a consistent store, two saved rows report the same id exactly when they name the same number |
| ImportProperties.CreatedCompanyKeepsRowName | app/services/companies_import_service.rb:40-42 | a company created by a row keeps that row's name and id to the end of the import |
| ImportProperties.UnsavedNewCompanyInvalid | app/services/companies_import_service.rb:73-78 | a row whose number names no company at the end of an import has an invalid address, name or number |
| ImportProperties.UntakenRowFailsAgain | app/services/companies_import_service.rb:73-78 | such a row is rejected again on a later import and writes nothing |
| ImportProperties.ReimportCreatesNoCompany | app/services/companies_import_service.rb:39-43 | importing the same rows again, valid or not, creates no company and uses no id |
| Reimport.CoveredGrows | app/services/companies_import_service.rb:63-71 | once a row's company has an address on the row's site, it keeps one however the store grows |
| Reimport.IdsOfGrows | app/services/companies_import_service.rb:39-43 | rows name the same companies, with the same ids, however the store grows |
| Reimport.IdsOfSnoc | app/services/companies_import_service.rb:75 | one more row adds its company's id to the ids of the rows |
| Reimport.PrefixCovered | app/services/companies_import_service.rb:14-28 | covering one more row on a grown store adds that row's company id |
| Reimport.ValidRowImported | app/services/companies_import_service.rb:19-24 | on a valid store a valid row is imported, and its company then has an address on its site |
| Reimport.FirstImport | app/services/companies_import_service.rb:14-28 | a first import of valid rows reports no failure, leaves each row's company with an address on its site, and reports exactly those companies' ids |
| Reimport.CoveredRowUpdates | app/services/companies_import_service.rb:48-50 | on such a store a row only rewrites a postal code and reports the company it found |
| Reimport.SecondImport | app/services/companies_import_service.rb:14-28 | a second import reports no failure, changes only postal codes, and reports the ids of the rows' companies |
| Reimport.ReimportIsIdempotent | app/services/companies_import_service.rb:14-28 | re-importing valid rows reports no failure and the same id set as the first import, creates no company and adds no address |
| Reimport.TwoRows | app/services/companies_import_service.rb:15 | an import of two rows processes them in order, with indices 0 and 1 |
| Reimport.NewValidRow | app/services/companies_import_service.rb:46 | a valid row whose number finds no company creates it with the row's address alone |
| Reimport.NamelessNewRow | app/services/companies_import_service.rb:73-78 | a row with an invalid name whose number finds no company is rejected and writes nothing |
| Reimport.MixedFirstImport | app/services/companies_import_service.rb:14-28 | importing a nameless row and then a valid row with the same new number rejects the first and creates the company with the second's address alone |
| Reimport.UnmatchedValidRow | app/services/companies_import_service.rb:52-53 | a valid address on a new site is appended to the stored company, which is imported |
| Reimport.SameAddressRow | app/services/companies_import_service.rb:48-50 | a row equal to its company's matching address changes nothing and reports the company |
| Reimport.MixedSecondImport | app/services/companies_import_service.rb:14-28 | importing those rows onto the result appends the first row's address and reports no failure |
| Reimport.MixedReimportAddsAddress | app/services/companies_import_service.rb:14-28 | re-importing such a file adds an address to the company: re-import is not idempotent when the file has invalid rows |
| ImportService.Store.constructor | db/schema.rb:17-47 | the store starts with the given companies and next id |
| ImportService.Store.Insert | app/services/companies_import_service.rb:74 | a new company is filed under its number with the next id, and the id counter advances |
| ImportService.Store.ReplaceAddress | app/services/companies_import_service.rb:50 | the company's addresses are the old ones with one position replaced |
| ImportService.Store.AppendAddress | app/services/companies_import_service.rb:53 | the company's addresses are the old ones with the new one at the end |
| ImportService.CompaniesImportService.constructor | app/services/companies_import_service.rb:8-12 | a new service has an empty id set and no failures |
| ImportService.CompaniesImportService.NoteInvalidCompanyRow | app/services/companies_import_service.rb:81-87 | one failure is appended and the id set is unchanged |
| ImportService.CompaniesImportService.AddOrUpdateAddress | app/services/companies_import_service.rb:45-61 | the store, the failures and the returned company are what Reconcile.AddOrUpdateAddress gives |
| ImportService.CompaniesImportService.SaveCompany | app/services/companies_import_service.rb:73-79 | the store and the accumulators end as Reconcile.SaveCompany says |
| ImportService.CompaniesImportService.Call | app/services/companies_import_service.rb:14-28 | the store and the accumulators end as Reconcile.Run over the rows says, and the result carries the accumulators |
| ImportService.Import | app/services/companies_import_service.rb:8-28 | on a fresh service, the failures are listed in row order and refer to real rows, the ids are ids of stored companies, the store stays valid, and no data rows give an empty result |

## Left out

- CSV decoding (`each_csv_row`, lines 32-37) is left out: the rows come in already decoded, with a missing or empty cell as `None`.
- Transactions are left out: each row runs to completion before the next one starts. Races with other writers on the unique index are not modelled. The `RangeError` Active Record raises for a number outside the 4-byte `integer` column is not modelled either.
- Ruby's `to_i` also accepts underscores between digits, and numericality accepts floats with exponents, with underscores or with no leading digit; the cast and the checks model plain decimal digits and decimal fractions only. White space means the ASCII space characters.
- Message texts are Rails' default English ones; other locales and custom messages are not modelled.
- The relative order of the company's validations is assumed, because the model classes are not part of this model. It changes the order of messages in `detail`, not which messages appear.
- `find_or_initialize_by` on the addresses returns the first match; the model takes the first in insertion order, since SQL gives no order.
- The unsaved company is a value (`Reconcile.Draft`) passed from step to step, not a shared object. Its addresses are kept on the value until the save.
- Reconcile.AddOrUpdateAddress: the contract states when the step fails and what it then reports, not what it writes. What it writes in each branch is stated by RowProperties.MatchedAddressUpdated, UnmatchedAddressAppended and NewCompanyRow.
