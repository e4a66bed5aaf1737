# Citizens import service: a Dafny model

The service stores *imports*: lists of citizens posted in one request. Each
citizen has a `citizen_id`, address and personal fields, a birth date and a
list of `relatives`. The relation between citizens must have these
properties:

- it is unique per citizen;
- no citizen is their own relative;
- every relative is another citizen of the same import;
- it is symmetric: if b is a relative of a, a is a relative of b.

The model covers:

- the import validator;
- ingestion of an import under the next `import_id`, and lookup by id;
- the citizen patch, which re-links the relatives of the patched citizen and
  `$set`s its fields inside one transaction;
- the two aggregates: presents per birth month, and age percentiles per town;
- the response cache in front of the aggregates;
- the decorators that turn exceptions into `({'message': ...}, 400)`.

The store `imports` is the class `Store.ImportsCollection`. It holds one
`array<Citizen>` per import. The import's id is its position, because
ingestion gives each import the number of imports already stored. Updates
mutate the arrays in place. Each state-changing method is proved
equal to a specification function over the store's value,
`ensures (r, db.Contents()) == Spec(old(db.Contents()), ...)`. The
properties the source promises are then proved about those functions as
lemmas.

A Python `dict` whose iteration order matters is a `Dicts.Dict`: the keys in
insertion order over a `map`. A loop is a method with invariants, proved
equal to a fold written as a recursive function on the last element.
Raised exceptions are the `Failure` of a `Result`, or the `Fail` of an
`Outcome`, and carry an `Errors.Error` that names the exception class and
its text.

Modules, one per source file plus shared ones:

| module | models |
|---|---|
| `Wrappers`, `Errors`, `Sequences`, `Dicts` | options and results, exception kinds, sequence and set helpers, insertion-ordered dicts |
| `Dates` | `DD.MM.YYYY` formatting and strict parsing of dates |
| `Citizens` | the citizen record, the patch, and the graph predicates `UniqueIds`, `Symmetric`, `WellFormed` |
| `DataValidator` | `data_validator.py` |
| `Store` | the `imports` collection |
| `Shared` | `application/handlers/shared.py` |
| `UpdateRelatives` | `application/handlers/patch_citizen/update_relatives.py` |
| `PatchCitizenHandler` | `application/handlers/patch_citizen/patch_citizen_handler.py` |
| `PostImportHandler` | `application/handlers/post_import_handler.py` |
| `GetBirthdaysHandler` | `application/handlers/get_birthdays_handler.py` |
| `GetPercentileAgeHandler` | `application/handlers/get_percentile_age_handler.py` |
| `ResponseCacher` | `application/decorators/response_cacher.py` |
| `ExceptionHandler` | `application/decorators/exception_handler.py` |
| `LegacyExceptionHandler` | `exception_handler.py` |

## Model

| member | source | states |
|---|---|---|
| DataValidator.ValidateImport | data_validator.py:30-47 | `validate_import` after the schema check: "Citizens ids are not unique" when ids repeat, otherwise the outcome of the loop over the citizens; ValidateImportCorrect proves it passes exactly on well-formed imports |
| DataValidator.CheckCitizens | data_validator.py:35-47 | the loop over the citizens, stopping at the first one that fails; CheckCitizensPass and FirstFailingCitizen state what it decides |
| DataValidator.CheckCitizen | data_validator.py:36-47 | the checks on one citizen in source order: repeated relatives, then a self-relation, then the loop over its relatives; CheckCitizenPass states when it passes |
| DataValidator.CheckRelatives | data_validator.py:43-47 | the loop over one citizen's relatives: an unknown id fails with "Citizen relative does not exists", a missing back link with "Citizen relatives are not duplex"; CheckRelativesPass states when it passes |
| DataValidator.RelativesOfId | data_validator.py:34 | the dict lookup `citizen_relatives[id]`; RelativesOfIdAt proves it returns that citizen's relatives when ids are unique |
| DataValidator.ValidateCitizenPatch | data_validator.py:63-68 | `validate_citizen_patch` after the schema check; ValidateCitizenPatchCorrect states its outcomes |
| DataValidator.ValidateImportCorrect | data_validator.py:30-47 | an import passes exactly when its ids are unique and every relatives list is distinct, free of the citizen itself, made of ids of the import, and the relation is symmetric |
| DataValidator.DuplicateIdsReportedFirst | data_validator.py:30-32 | repeated citizen ids are reported as "Citizens ids are not unique", whatever else is wrong |
| DataValidator.CheckRelativesPass | data_validator.py:43-47 | the check of one citizen's relatives passes exactly when each relative exists and lists the citizen back |
| DataValidator.CheckCitizenPass | data_validator.py:39-47 | one citizen passes exactly when its relatives are distinct, exclude itself and all link back |
| DataValidator.CheckCitizensPass | data_validator.py:35-47 | the loop over citizens passes exactly when every citizen passes |
| DataValidator.AllPassIffWellFormed | data_validator.py:34-47 | with unique ids, every citizen passing is the same as the graph being well formed |
| DataValidator.FirstFailingCitizen | data_validator.py:35-47 | the loop reports the error of the first citizen that fails |
| DataValidator.ReportedError | data_validator.py:30-47 | with unique ids, the import's error is that of its first failing citizen |
| DataValidator.DuplicateRelativesReported | data_validator.py:39-40 | at the first failing citizen, a repeated relative is reported as "Relatives ids should be unique" |
| DataValidator.SelfRelationReported | data_validator.py:41-42 | at the first failing citizen, distinct relatives that contain the citizen are reported as "Citizen can not be relative to himself" |
| DataValidator.MissingOnlyReported | data_validator.py:43-45 | when the only defect in a relatives list is an unknown id, "Citizen relative does not exists" is reported |
| DataValidator.AsymmetryOnlyReported | data_validator.py:46-47 | when every relative exists but one does not link back, "Citizen relatives are not duplex" is reported |
| DataValidator.MissingRelativeReported | data_validator.py:43-45 | an import whose first failing citizen has only unknown-relative defects is rejected as "Citizen relative does not exists" |
| DataValidator.AsymmetryReported | data_validator.py:46-47 | an import whose first failing citizen has only missing back links is rejected as "Citizen relatives are not duplex" |
| DataValidator.RelativesOfIdAt | data_validator.py:34 | with unique ids, the relatives looked up by a citizen's id are that citizen's relatives |
| DataValidator.ValidateCitizenPatchCorrect | data_validator.py:63-68 | a patch fails only when it has `relatives` that repeat an id ("Relatives ids should be unique") or contain the citizen ("Citizen can not be relative to himself") |
| Store.ImportsCollection.Contents | application/handlers/shared.py:19 | the value of the store is the contents of each import's array, in import-id order |
| Store.ImportsCollection.constructor | application/handlers/post_import_handler.py:28 | a new store is empty |
| Store.ImportsCollection.InsertOne | application/handlers/post_import_handler.py:43 | `insert_one` appends the import at the next id and keeps the store valid |
| Store.ImportsCollection.RestoreImport | application/handlers/patch_citizen/patch_citizen_handler.py:83-84 | an aborted transaction puts back the saved contents of the one import it touched |
| Shared.GetCitizens | application/handlers/shared.py:19-22 | the lookup succeeds exactly for a stored id, returns that import's citizens as stored, and otherwise fails with "Import with specified id not found" |
| UpdateRelatives.MakeUpdateRequest | application/handlers/patch_citizen/update_relatives.py:27-31 | a request is built exactly for `$push` and `$pull`, targeting the given ids; any other operation is a ValueError naming it |
| UpdateRelatives.RelativesDifference | application/handlers/patch_citizen/update_relatives.py:88-91 | `to_push` and `to_pull` are disjoint, `to_push` is new and `to_pull` old, removing `to_pull` from and adding `to_push` to the old set gives the new set, and together they are the symmetric difference |
| UpdateRelatives.DifferenceIgnoresRepetition | application/handlers/patch_citizen/update_relatives.py:88 | two new lists with the same set of ids give the same difference, so repeats collapse |
| UpdateRelatives.DifferenceExamples | application/handlers/patch_citizen/update_relatives.py:88-91 | the difference on the five pairs of old and new relatives the unit tests use |
| UpdateRelatives.DbRequestsShape | application/handlers/patch_citizen/update_relatives.py:47-51 | one request per non-empty set, push before pull, so at most two, each for the import and citizen, targeting its own set |
| UpdateRelatives.DbRequests | application/handlers/patch_citizen/update_relatives.py:47-51 | the request list `_make_db_requests` returns; DbRequestsShape states its shape |
| UpdateRelatives.MakeDbRequests | application/handlers/patch_citizen/update_relatives.py:47-51 | the loop builds exactly the request list described above |
| UpdateRelatives.GetRelatives | application/handlers/patch_citizen/update_relatives.py:67-73 | succeeds exactly when the import and the citizen exist, with the set of relatives of the first citizen with the id, and otherwise fails with "Import or citizen with specified id not found" |
| UpdateRelatives.CheckAllCitizensExist | application/handlers/patch_citizen/update_relatives.py:104-110 | passes exactly when the set is empty or every id is a citizen of the import, and otherwise fails with "Citizens with specified id not found" |
| UpdateRelatives.UpdatedImport | application/handlers/patch_citizen/update_relatives.py:29-31 | an update changes only the citizens whose id is targeted, appending the citizen id on `$push` and removing every copy on `$pull` |
| UpdateRelatives.ApplyInPlace | application/handlers/patch_citizen/update_relatives.py:123 | the update is applied in place to the import's array, and reports one modified document exactly when the array changed |
| UpdateRelatives.ApplyRequest | application/handlers/patch_citizen/update_relatives.py:123 | applying one request to the store matches its specification |
| UpdateRelatives.WriteRelativesUpdate | application/handlers/patch_citizen/update_relatives.py:122-125 | no requests leave the store untouched; otherwise the bulk write is applied, and the write fails unless every request modified the import |
| UpdateRelatives.UpdateRelatives | application/handlers/patch_citizen/update_relatives.py:139-146 | `update_relatives` matches its specification: a patch without `relatives` changes nothing, otherwise read, diff, check, build and write in that order |
| UpdateRelatives.UpdateRelativesSpec | application/handlers/patch_citizen/update_relatives.py:139-140 | a patch without `relatives` passes and leaves the store as it was |
| UpdateRelatives.PushThenPull | application/handlers/patch_citizen/update_relatives.py:29-31 | a push followed by a disjoint pull re-links the citizen: added to the pushed citizens, removed from the pulled ones |
| UpdateRelatives.PushAlone | application/handlers/patch_citizen/update_relatives.py:29-31 | a lone push adds the citizen to the relatives of exactly the targeted citizens |
| UpdateRelatives.PullAlone | application/handlers/patch_citizen/update_relatives.py:29-31 | a lone pull removes the citizen from the relatives of exactly the targeted citizens |
| UpdateRelatives.RelinkEffect | application/handlers/patch_citizen/update_relatives.py:145-146 | the requests of `_make_db_requests` re-link exactly the one import and leave every other import as it was |
| UpdateRelatives.PushChanges | application/handlers/patch_citizen/update_relatives.py:124 | a push modifies the import exactly when some citizen is targeted |
| UpdateRelatives.PullChanges | application/handlers/patch_citizen/update_relatives.py:124 | a pull modifies the import exactly when some targeted citizen lists the patched citizen |
| UpdateRelatives.RelinkPushOnly | application/handlers/patch_citizen/update_relatives.py:145-146 | a lone `$push` request re-links the import with nothing pulled |
| UpdateRelatives.RelinkPullOnly | application/handlers/patch_citizen/update_relatives.py:145-146 | a lone `$pull` request re-links the import with nothing pushed |
| UpdateRelatives.RelinkPushPull | application/handlers/patch_citizen/update_relatives.py:145-146 | a `$push` followed by a `$pull` on disjoint sets re-links the import in one step per citizen |
| UpdateRelatives.RelinkCountPushPull | application/handlers/patch_citizen/update_relatives.py:122-125 | both requests count as modified exactly when some pushed citizen exists and some pulled citizen lists the patched one |
| UpdateRelatives.RelinkCount | application/handlers/patch_citizen/update_relatives.py:122-125 | the write reports every request as modified exactly when some pushed citizen exists and some pulled citizen lists the patched one |
| UpdateRelatives.UnknownRelativeRejected | application/handlers/patch_citizen/update_relatives.py:143-144 | a new relative that is not a citizen of the import fails with "Citizens with specified id not found" before anything is written |
| UpdateRelatives.UpdateRelativesOnWellFormed | application/handlers/patch_citizen/update_relatives.py:139-146 | on a well-formed import, the update passes exactly when every new relative exists; it then re-links exactly the citizens gained and lost, and otherwise changes nothing |
| UpdateRelatives.Relinked | application/handlers/patch_citizen/update_relatives.py:29-31 | re-linking sends each citizen to its updated form, position by position |
| UpdateRelatives.RemovedChanges | application/handlers/patch_citizen/update_relatives.py:30 | removing an id changes a list exactly when the id is in it |
| UpdateRelatives.Applied | application/handlers/patch_citizen/update_relatives.py:123 | one request replaces only the document of its own import; the others stay as they were |
| UpdateRelatives.Modified | application/handlers/patch_citizen/update_relatives.py:123-124 | a request counts as one modified document exactly when it changed the collection |
| UpdateRelatives.Apply | application/handlers/patch_citizen/update_relatives.py:123 | one request's modified count and new state, as `Modified` and `Applied` give them |
| UpdateRelatives.BulkApplied | application/handlers/patch_citizen/update_relatives.py:123 | `bulk_write` applies the requests in order and keeps the number of imports |
| UpdateRelatives.BulkModified | application/handlers/patch_citizen/update_relatives.py:123 | the summed `modified_count` is at most the number of requests |
| UpdateRelatives.BulkWrite | application/handlers/patch_citizen/update_relatives.py:123 | `bulk_write`: the summed count and the state after the requests in order |
| UpdateRelatives.WriteRelativesUpdateSpec | application/handlers/patch_citizen/update_relatives.py:122-125 | `_write_relatives_update` on the value of the store: no requests change nothing; otherwise the write lands and fails with "Import with specified id not found" unless every request modified a document |
| UpdateRelatives.BulkWriteSingle | application/handlers/patch_citizen/update_relatives.py:123 | a bulk write of one request has that request's effect and count |
| UpdateRelatives.BulkWritePair | application/handlers/patch_citizen/update_relatives.py:123 | a bulk write of two requests applies them in order and adds up their counts |
| UpdateRelatives.RelinkFrame | application/handlers/patch_citizen/update_relatives.py:128-146 | re-linking keeps every citizen id and every field but `relatives`, and leaves the citizens outside `to_push` and `to_pull` unchanged |
| UpdateRelatives.RelinkedRelatives | application/handlers/patch_citizen/update_relatives.py:128-146 | after re-linking, a citizen other than the patched one lists the patched one exactly when it is among the new relatives, keeps its other relatives, and its list stays distinct, free of itself and within the import |
| UpdateRelatives.RelinkedPatchedIds | application/handlers/patch_citizen/update_relatives.py:128-146 | re-linking, then replacing the patched citizen by one with the same id, keeps every citizen id at its position and the set of ids |
| UpdateRelatives.SymmetricAfterRelink | application/handlers/patch_citizen/update_relatives.py:128-146 | the relation is symmetric again when the patched citizen has the new list, every other citizen lists the patched one exactly when it is on that list, and no other relation has changed |
| UpdateRelatives.RelinkKeepsWellFormed | application/handlers/patch_citizen/update_relatives.py:128-146 | re-linking followed by setting the patched citizen's own relatives keeps a well-formed import well formed |
| PatchCitizenHandler.ParseBirthDate | application/handlers/patch_citizen/patch_citizen_handler.py:20-21 | a patch without `birth_date` is unchanged, a present one is parsed and its error is raised; no other field changes |
| PatchCitizenHandler.ParseBirthDateExamples | application/handlers/patch_citizen/patch_citizen_handler.py:20-21 | '31.12.2019' parses to that date, while day 35 and month 14 are rejected |
| Dates.FormatDate | application/handlers/patch_citizen/patch_citizen_handler.py:63 | `strftime('%d.%m.%Y')`, with the year zero-padded to four digits, always gives ten characters; FormatThenParse and ParseThenFormat make it the inverse of ParseDate on valid dates |
| Dates.FormatThenParse | application/handlers/patch_citizen/patch_citizen_handler.py:21 | a valid date written as `DD.MM.YYYY` parses back to itself |
| Dates.ParseThenFormat | application/handlers/patch_citizen/patch_citizen_handler.py:21 | a string that parses is the zero-padded form of its date |
| Dates.ParseDate | application/handlers/patch_citizen/patch_citizen_handler.py:21 | a parsed date is a real calendar date read from exactly ten characters, and a failure is a ValueError |
| Dates.TrailingDataRejected | application/handlers/patch_citizen/patch_citizen_handler.py:21 | text after a well-shaped date with day and month in range fails with "unconverted data remains: " and that text, before the calendar is checked |
| Dates.TrailingDataExamples | application/handlers/patch_citizen/patch_citizen_handler.py:21 | '01.01.20190' and '31.02.20190' both fail with "unconverted data remains: 0" |
| Dates.MalformedShapesRejected | application/handlers/patch_citizen/patch_citizen_handler.py:21 | 'aaa' and a negative day are rejected |
| Dates.DayOutOfRangeRejected | application/handlers/patch_citizen/patch_citizen_handler.py:21 | day 35 is rejected |
| Dates.MonthOutOfRangeRejected | application/handlers/patch_citizen/patch_citizen_handler.py:21 | month 14 is rejected |
| Dates.FormatExample | application/handlers/patch_citizen/patch_citizen_handler.py:63 | 31 December 2019 is written '31.12.2019' |
| Dates.ParseExample | application/handlers/post_import_handler.py:18 | '31.12.2019' parses to 31 December 2019 |
| Citizens.SetFields | application/handlers/patch_citizen/patch_citizen_handler.py:39 | `$set` gives every patched field its new value and keeps the id and every other field |
| Citizens.SetFieldsIdempotent | application/handlers/patch_citizen/patch_citizen_handler.py:39 | setting the same patch twice is setting it once |
| Citizens.FindCitizen | application/handlers/patch_citizen/patch_citizen_handler.py:40-43 | the position found is the first citizen with the id, and nothing is found exactly when no citizen has it |
| Citizens.FindUnique | application/handlers/patch_citizen/patch_citizen_handler.py:40-43 | with unique ids, each citizen is found at its own position |
| PatchCitizenHandler.WriteCitizenUpdateCorrect | application/handlers/patch_citizen/patch_citizen_handler.py:39-48 | the write fails exactly when the import or citizen is absent and then changes nothing; otherwise only the first citizen with the id changes, it gets exactly the patched fields, and it is returned as stored |
| PatchCitizenHandler.WriteCitizenUpdateSpec | application/handlers/patch_citizen/patch_citizen_handler.py:39-48 | `_write_citizen_update` on the value of the store: `$set` on the first citizen with the id, or "Import or citizen with specified id not found"; WriteCitizenUpdateCorrect states it |
| PatchCitizenHandler.WriteCitizenUpdate | application/handlers/patch_citizen/patch_citizen_handler.py:39-48 | the in-place write matches its specification |
| PatchCitizenHandler.GetCitizenData | application/handlers/patch_citizen/patch_citizen_handler.py:61-64 | the citizen is returned with its birth date formatted, year zero-padded, so that the text parses back to the stored date; the other fields are unchanged |
| PatchCitizenHandler.GetCitizenDataExample | application/handlers/patch_citizen/patch_citizen_handler.py:61-64 | 31 December 2019 is returned as '31.12.2019' |
| PatchCitizenHandler.TransactionSpec | application/handlers/patch_citizen/patch_citizen_handler.py:83-88 | a failed transaction leaves the store as it was |
| PatchCitizenHandler.UpdateRelativesTouchesOneImport | application/handlers/patch_citizen/patch_citizen_handler.py:86 | the relatives update changes at most the patched import, and keeps its length |
| PatchCitizenHandler.RunTransaction | application/handlers/patch_citizen/patch_citizen_handler.py:83-88 | running the relatives update and the citizen write, aborting on a failure, matches its all-or-nothing specification |
| PatchCitizenHandler.PatchSpec | application/handlers/patch_citizen/patch_citizen_handler.py:81-89 | any failure persists nothing; success answers with status 201 |
| PatchCitizenHandler.PatchCitizen | application/handlers/patch_citizen/patch_citizen_handler.py:81-89 | `patch_citizen` matches its specification, and on any failure the store is as it was |
| PatchCitizenHandler.WellFormedOnGraph | application/handlers/patch_citizen/patch_citizen_handler.py:39 | well-formedness depends only on ids and relatives |
| PatchCitizenHandler.PatchWithoutRelativesKeepsWellFormed | application/handlers/patch_citizen/patch_citizen_handler.py:86-88 | a patch without `relatives` keeps a well-formed import well formed |
| PatchCitizenHandler.PatchWithRelativesKeepsWellFormed | application/handlers/patch_citizen/patch_citizen_handler.py:86-88 | a successful relatives update followed by the citizen write keeps a well-formed import well formed |
| PatchCitizenHandler.PatchKeepsWellFormed | application/handlers/patch_citizen/patch_citizen_handler.py:81-89 | after a patch that passed `validate_citizen_patch`, the import is still well formed, whether or not the patch succeeded, and every other import is unchanged |
| PatchCitizenHandler.PatchReturnsStoredCitizen | application/handlers/patch_citizen/patch_citizen_handler.py:88-89 | a successful patch answers with the citizen as now stored, its date formatted, and status 201 |
| PostImportHandler.ParseAll | application/handlers/post_import_handler.py:17-18 | the fold the date-parsing loop computes; ParseAllCorrect states its outcomes |
| PostImportHandler.ParseBirthDates | application/handlers/post_import_handler.py:17-18 | the loop converts the dates in order and stops at the first malformed one |
| PostImportHandler.ParseAllFailure | application/handlers/post_import_handler.py:17-18 | a failure in a prefix is the failure of the whole list |
| PostImportHandler.ParseAllSucceeds | application/handlers/post_import_handler.py:17-18 | parsing succeeds exactly when every birth date parses |
| PostImportHandler.ParseAllValue | application/handlers/post_import_handler.py:17-18 | a successful parse keeps every citizen in its place with its date converted |
| PostImportHandler.ParseAllError | application/handlers/post_import_handler.py:17-18 | a failed parse reports the error of the first malformed date |
| PostImportHandler.ParseAllCorrect | application/handlers/post_import_handler.py:17-18 | parsing succeeds exactly when every date parses; it then keeps every citizen in place with its date converted, and otherwise raises the error of the first malformed date |
| PostImportHandler.PostImportSpec | application/handlers/post_import_handler.py:64-68 | `post_import` on the value of the store: a malformed date stores nothing; otherwise the import is appended under the next id; PostThenGet, MalformedDateStoresNothing and SuccessiveIds state its properties |
| PostImportHandler.PostImport | application/handlers/post_import_handler.py:64-68 | `post_import` parses first, then inserts the import at id equal to the number stored; it answers with the new id and status 201 when the write is acknowledged (the `{'data': {'import_id': id}}` envelope is not modelled) and raises "Operation was not acknowledged" otherwise |
| PostImportHandler.PostThenGet | application/handlers/post_import_handler.py:28-29 | a successful post is found again by the id it returns, with its dates converted, and the imports stored before are unchanged |
| PostImportHandler.MalformedDateStoresNothing | application/handlers/post_import_handler.py:64-68 | a malformed date stores nothing and raises a ValueError |
| PostImportHandler.SuccessiveIds | application/handlers/post_import_handler.py:28-29 | n successful posts on an empty store get the ids 0, 1, ..., n - 1 |
| GetBirthdaysHandler.Increment | application/handlers/get_birthdays_handler.py:23 | one `+= 1` on the nested counts; IncrementLookup, IncrementMonths and IncrementOrder state its effect |
| GetBirthdaysHandler.CountRelatives | application/handlers/get_birthdays_handler.py:22-23 | the inner loop over one relatives list; CountRelativesLookup states its effect |
| GetBirthdaysHandler.BirthdaysDataOf | application/handlers/get_birthdays_handler.py:20-24 | the fold both loops compute; BirthdaysDataCounts, BirthdaysDataMonths and BirthdaysDataOrder state its contents |
| GetBirthdaysHandler.GetBirthdaysData | application/handlers/get_birthdays_handler.py:20-24 | the two loops compute the counting fold |
| GetBirthdaysHandler.IncrementWellFormed | application/handlers/get_birthdays_handler.py:23 | `+= 1` on the nested `defaultdict` keeps both levels valid dicts, every month non-empty and every count positive |
| GetBirthdaysHandler.IncrementLookup | application/handlers/get_birthdays_handler.py:23 | `+= 1` raises the count of exactly that month and relative, by one, and no other count |
| GetBirthdaysHandler.IncrementMonths | application/handlers/get_birthdays_handler.py:23 | a month seen for the first time goes at the end of the outer dict, and every other month keeps its counts |
| GetBirthdaysHandler.IncrementOrder | application/handlers/get_birthdays_handler.py:23 | a relative seen for the first time in the month goes at the end of its inner dict; a known one keeps its place |
| GetBirthdaysHandler.CountRelativesWellFormed | application/handlers/get_birthdays_handler.py:22-23 | the inner loop keeps both levels valid, every month non-empty and every count positive |
| GetBirthdaysHandler.CountRelativesLookup | application/handlers/get_birthdays_handler.py:22-23 | the inner loop adds the multiplicity of each relative to its count for the month, and changes no other month |
| GetBirthdaysHandler.BirthdaysDataLookup | application/handlers/get_birthdays_handler.py:21-23 | the count for a month and a relative is the number of times the relative occurs in the relatives lists of the citizens born in that month |
| GetBirthdaysHandler.CountRelativesMonths | application/handlers/get_birthdays_handler.py:22-23 | the inner loop adds the month at the end, and only when the list is not empty |
| GetBirthdaysHandler.CountRelativesOrder | application/handlers/get_birthdays_handler.py:22-23 | relatives enter the month's dict in first-occurrence order |
| GetBirthdaysHandler.BirthdaysDataWellFormed | application/handlers/get_birthdays_handler.py:20-24 | every month entry is non-empty and every count positive |
| GetBirthdaysHandler.BirthdaysDataCounts | application/handlers/get_birthdays_handler.py:21-23 | the count for month m and relative r is the number of times r occurs in the relatives of citizens born in m |
| GetBirthdaysHandler.BirthdaysDataMonths | application/handlers/get_birthdays_handler.py:21-23 | the months are those of citizens with relatives, in first-occurrence order |
| GetBirthdaysHandler.BirthdaysDataOrder | application/handlers/get_birthdays_handler.py:21-23 | each month lists its relatives in first-occurrence order |
| GetBirthdaysHandler.PresentsPositive | application/handlers/get_birthdays_handler.py:23 | a relative has a positive count for a month exactly when some citizen born in it lists them |
| GetBirthdaysHandler.EmptyWithoutRelatives | application/handlers/get_birthdays_handler.py:20-24 | the result is empty exactly when no citizen has relatives, including for no citizens |
| GetBirthdaysHandler.MonthsWithRelativesEmpty | application/handlers/get_birthdays_handler.py:22 | no month has relatives exactly when no citizen has relatives |
| GetBirthdaysHandler.IncrementTotal | application/handlers/get_birthdays_handler.py:23 | each increment adds one present to the total |
| GetBirthdaysHandler.CountRelativesTotal | application/handlers/get_birthdays_handler.py:22-23 | the inner loop adds the length of the relatives list to the total |
| GetBirthdaysHandler.BirthdaysDataTotal | application/handlers/get_birthdays_handler.py:21-23 | the sum of all counts is the total length of all relatives lists |
| GetBirthdaysHandler.NatToStringValue | application/handlers/get_birthdays_handler.py:36-38 | `str(month)` reads back as the month |
| GetBirthdaysHandler.NatToStringInjective | application/handlers/get_birthdays_handler.py:36-38 | different months get different keys |
| GetBirthdaysHandler.MonthNames | application/handlers/get_birthdays_handler.py:36 | the keys are '1' to '12', in order |
| GetBirthdaysHandler.PresentsOf | application/handlers/get_birthdays_handler.py:38 | one `{citizen_id, presents}` per counted relative, in insertion order |
| GetBirthdaysHandler.FillMonths | application/handlers/get_birthdays_handler.py:36-38 | the twelve months, each overwritten by the presents of a counted month; FillMonthsKeys and FillMonthsAt state its contents |
| GetBirthdaysHandler.GetBirthdaysRepresentation | application/handlers/get_birthdays_handler.py:36-39 | the loop over the counted months computes the representation fold |
| GetBirthdaysHandler.FillMonthsKeys | application/handlers/get_birthdays_handler.py:36-38 | the representation has exactly the keys '1' to '12', in order |
| GetBirthdaysHandler.FillMonthsAt | application/handlers/get_birthdays_handler.py:36-38 | a counted month lists its presents, and every other month is `[]` |
| GetBirthdaysHandler.MonthsWithRelativesFrom | application/handlers/get_birthdays_handler.py:23 | every counted month is the birth month of some citizen |
| GetBirthdaysHandler.BirthdaysResponse | application/handlers/get_birthdays_handler.py:56-57 | `_get_birthdays_data` followed by `_get_birthdays_representation`; BirthdaysResponseCorrect states its contents |
| GetBirthdaysHandler.BirthdaysResponseCorrect | application/handlers/get_birthdays_handler.py:20-39 | the keys are '1' to '12', and each month lists the relatives of the citizens born in it, in first-occurrence order, with their present counts |
| GetBirthdaysHandler.GetBirthdays | application/handlers/get_birthdays_handler.py:54-58 | succeeds exactly for a stored import, with the birthdays representation of its citizens and status 201, and otherwise fails with "Import with specified id not found" |
| GetPercentileAgeHandler.GroupedOf | application/handlers/get_percentile_age_handler.py:33-36 | the fold the grouping loop computes; GroupByTownCorrect states its contents |
| GetPercentileAgeHandler.GroupByTown | application/handlers/get_percentile_age_handler.py:33-36 | the loop computes the grouping fold |
| GetPercentileAgeHandler.GroupedWellFormed | application/handlers/get_percentile_age_handler.py:33-36 | no town's list is empty |
| GetPercentileAgeHandler.GroupedTowns | application/handlers/get_percentile_age_handler.py:34-35 | towns appear in first-occurrence order, so no citizens give no towns |
| GetPercentileAgeHandler.GroupedAges | application/handlers/get_percentile_age_handler.py:34-35 | each town lists its citizens' ages in input order |
| GetPercentileAgeHandler.GroupedSizes | application/handlers/get_percentile_age_handler.py:34-35 | the sizes of the groups add up to the number of citizens |
| GetPercentileAgeHandler.GroupByTownCorrect | application/handlers/get_percentile_age_handler.py:33-36 | the grouping is valid, ordered by first occurrence, lists each town's ages in order, and counts every citizen once |
| GetPercentileAgeHandler.Insert | application/handlers/get_percentile_age_handler.py:46 | inserting into a sorted list keeps it sorted and adds exactly the element |
| GetPercentileAgeHandler.SortedOf | application/handlers/get_percentile_age_handler.py:46 | the sort numpy does first returns a sorted permutation of the ages |
| GetPercentileAgeHandler.SortedOfSnoc | application/handlers/get_percentile_age_handler.py:46 | a sorted list extended by an element not below its last one is already sorted |
| GetPercentileAgeHandler.SortedEnds | application/handlers/get_percentile_age_handler.py:46 | the sorted list runs from the minimum to the maximum |
| GetPercentileAgeHandler.AtBounds | application/handlers/get_percentile_age_handler.py:46 | linear interpolation lies between the two neighbours it interpolates, and is the element itself at a whole position |
| GetPercentileAgeHandler.AtMonotone | application/handlers/get_percentile_age_handler.py:46 | on a sorted list, interpolation rises with the position |
| GetPercentileAgeHandler.InterpolateMonotone | application/handlers/get_percentile_age_handler.py:46 | a higher percentile is never below a lower one |
| GetPercentileAgeHandler.InterpolateBounds | application/handlers/get_percentile_age_handler.py:46 | every percentile lies between the smallest and the largest element |
| GetPercentileAgeHandler.At | application/handlers/get_percentile_age_handler.py:46 | the value at a position in hundredths, interpolated between neighbours; AtBounds and AtMonotone state its properties |
| GetPercentileAgeHandler.Interpolate | application/handlers/get_percentile_age_handler.py:46 | numpy's linear rule at position (n - 1) * p / 100 of a sorted list; InterpolateBounds and InterpolateMonotone state its properties |
| GetPercentileAgeHandler.Percentile | application/handlers/get_percentile_age_handler.py:46 | `np.percentile` of one list, exact over reals: the interpolation on its sorted permutation |
| GetPercentileAgeHandler.Percentiles | application/handlers/get_percentile_age_handler.py:46 | each group becomes exactly three values |
| GetPercentileAgeHandler.PercentilesOrdered | application/handlers/get_percentile_age_handler.py:46 | minimum <= p50 <= p75 <= p99 <= maximum |
| GetPercentileAgeHandler.PercentilesSingleton | application/handlers/get_percentile_age_handler.py:46 | a one-element group [x] becomes [x, x, x] |
| GetPercentileAgeHandler.PercentilesExample | application/handlers/get_percentile_age_handler.py:46 | [19, 25, 40, 50, 51, 53, 55] becomes [50, 52, 54.88] |
| GetPercentileAgeHandler.ExampleSorted | application/handlers/get_percentile_age_handler.py:46 | the example list is already sorted |
| GetPercentileAgeHandler.ExampleAt | application/handlers/get_percentile_age_handler.py:46 | the interpolated values at positions 3, 4.5 and 5.94 of the example |
| GetPercentileAgeHandler.PercentilesOfGroups | application/handlers/get_percentile_age_handler.py:45-46 | the same towns in the same order, each list replaced by its three percentiles |
| GetPercentileAgeHandler.CalculatePercentile | application/handlers/get_percentile_age_handler.py:45-46 | the loop over the towns computes the percentiles of every group |
| GetPercentileAgeHandler.PercentilesRepresentation | application/handlers/get_percentile_age_handler.py:58-59 | one entry per town, in order, with p50, p75 and p99 taken from indices 0, 1 and 2; no towns give no entries |
| GetPercentileAgeHandler.Aged | application/handlers/get_percentile_age_handler.py:20-21 | each citizen is replaced by its town and the age computed from its birth date |
| GetPercentileAgeHandler.ResponseEntry | application/handlers/get_percentile_age_handler.py:76-80 | the k-th entry is the k-th town with the percentiles of its ages |
| GetPercentileAgeHandler.PercentileAgeResponse | application/handlers/get_percentile_age_handler.py:76-80 | ages, grouping, percentiles and representation in source order; PercentileAgeResponseCorrect and ResponseEntry state its contents |
| GetPercentileAgeHandler.PercentileAgeResponseCorrect | application/handlers/get_percentile_age_handler.py:76-80 | one entry per town, in first-occurrence order, with the three percentiles of that town's ages, ordered between its youngest and oldest |
| GetPercentileAgeHandler.GetPercentileAge | application/handlers/get_percentile_age_handler.py:75-81 | succeeds exactly for a stored import, with the percentile response of its citizens and status 201, and otherwise fails with "Import with specified id not found" |
| ResponseCacher.FirstMatch | application/decorators/response_cacher.py:22 | `find_one` stops at the first entry of the import, and finds nothing exactly when there is none |
| ResponseCacher.Project | application/decorators/response_cacher.py:22 | the projection drops `import_id` and keeps every other field |
| ResponseCacher.CachedData | application/decorators/response_cacher.py:22-23 | None exactly when no entry exists for the import |
| ResponseCacher.Entry | application/decorators/response_cacher.py:35-36 | the stored document has the response's fields, plus `import_id` unless the response has its own |
| ResponseCacher.FirstMatchSnoc | application/decorators/response_cacher.py:22-37 | after an insert, `find_one` finds the earlier match, or else the new document if it matches |
| ResponseCacher.ResponseCache.constructor | application/decorators/response_cacher.py:22 | a new cache collection is empty |
| ResponseCacher.ResponseCache.GetCachedData | application/decorators/response_cacher.py:22-23 | the scan returns the first entry of the import without `import_id`, or None |
| ResponseCacher.ResponseCache.CacheData | application/decorators/response_cacher.py:35-37 | the tagged body is appended to the collection |
| ResponseCacher.CacheRoundTrip | application/decorators/response_cacher.py:22-37 | caching a body for an import with no entry makes `_get_cached_data` return the body without `import_id` |
| ResponseCacher.CacheFrame | application/decorators/response_cacher.py:35-37 | caching for one import leaves what is cached for every other import unchanged |
| ResponseCacher.ResponseCache.Wrap | application/decorators/response_cacher.py:52-61 | `wrap` matches its specification: answer from the cache, or call the handler and cache its body |
| ResponseCacher.WrapSpec | application/decorators/response_cacher.py:55-61 | `wrap` on the cache's documents; WrapHit, WrapMiss and WrapFrame state its properties |
| ResponseCacher.WrapHit | application/decorators/response_cacher.py:55-58 | on a hit, the stored body is answered with 201, the cache is unchanged, and the handler is never called |
| ResponseCacher.WrapMiss | application/decorators/response_cacher.py:59-61 | on a miss, the handler's answer is returned unchanged; its body is stored whenever the handler returns a response, an error status included, and not when the handler raises; the next call is then a hit |
| ResponseCacher.WrapFrame | application/decorators/response_cacher.py:52-61 | a wrapped call never changes what is cached for another import |
| ResponseCacher.WithoutEntries | tests/handlers_tests/patch_citizen_handler_tests.py:77-133 | after deleting, no entry of the import remains |
| ResponseCacher.WithoutEntriesFrame | tests/handlers_tests/patch_citizen_handler_tests.py:77-133 | deleting one import's entries leaves what is cached for every other import unchanged |
| ResponseCacher.ResponseCache.DeleteEntries | tests/handlers_tests/patch_citizen_handler_tests.py:84-104 | every entry of the import is deleted, the rest are kept in order, and deleting when there is none is a no-op |
| ResponseCacher.InvalidateCaches | tests/handlers_tests/patch_citizen_handler_tests.py:77-133 | the birthdays entries are deleted exactly when the patch has `relatives` or `birth_date`, the percentile entries exactly when it has `town` or `birth_date` |
| ExceptionHandler.MakeErrorResponse | application/decorators/exception_handler.py:20-21 | `({'message': message}, status)` for any input |
| ExceptionHandler.HandleExceptions | application/decorators/exception_handler.py:35-46 | success passes through unchanged; each exception kind gets its prefix, others keep their text, and every error gets status 400 |
| ExceptionHandler.MessageKeepsText | application/decorators/exception_handler.py:37-46 | every message ends with the exception's text, and only an unclassified exception is unprefixed |
| LegacyExceptionHandler.LegacyMakeErrorResponse | exception_handler.py:16-18 | `({'message': message}, status)` for any input |
| LegacyExceptionHandler.LegacyHandleExceptions | exception_handler.py:24-33 | success passes through unchanged and every error gets status 400 |
| LegacyExceptionHandler.HandlersAgree | exception_handler.py:26-33 | a ValueError gets its bare text, with no 'Value error: ' prefix; every other outcome is handled as by the newer handler |

## Left out

- MongoLock leases: each critical section is one atomic step. Concurrency is not modelled.
- MongoDB sessions: the transaction of `patch_citizen` is modelled only as all or nothing. The import it touches is restored on failure.
- Mongo query internals: `$elemMatch`, `array_filters`, `$all` and projections are modelled only by their effect on the citizen arrays. Projections in `get_citizens` are not modelled: the citizens come back whole, and `_id` does not exist.
- `jsonschema.validate` and the schema files: the validator is modelled after the schema check.
- Flask routing and HTTP: `service.py`, `index.py`, `json.dumps` and `Response`. The wrapped handler's response is a body and a status.
- `custom_mongo_client.py` and logging are not modelled.
- `_calculate_age`: it reads the wall clock. Each age is computed by a function passed in as a parameter.
- GetPercentileAgeHandler.Percentiles: computed exactly over reals. numpy's floating point and `round(p, 2)` are not modelled.
- Dates.ParseDate: accepts only the zero-padded `DD.MM.YYYY` form. `strptime` also takes one-digit fields, so some texts it reads, or reports as unconverted data, are reported here as not matching the format.
- Dates.FormatDate, PatchCitizenHandler.GetCitizenData: the year is always zero-padded to four digits. glibc's `strftime('%Y')` does not pad years below 1000, so there the source answers `'01.01.999'`, which does not parse back. Such dates can be stored, because `strptime` accepts `'01.01.0999'`.
- PostImportHandler.PostImport, PatchCitizenHandler.PatchCitizen, GetBirthdaysHandler.GetBirthdays and GetPercentileAgeHandler.GetPercentileAge: the constant `{'data': ...}` envelope around each answer is not modelled. They return the payload itself: the import id, the citizen, the twelve months, and the list of towns.
- GetBirthdaysHandler.GetBirthdaysRepresentation, GetPercentileAgeHandler.CalculatePercentile, PatchCitizenHandler.GetCitizenData and PostImportHandler.ParseBirthDates: the source rewrites a dict in place and changes the type of its values. These build a new value instead.
- ResponseCacher.Entry: cache documents are maps, so the key order of a stored body is not modelled. Nested JSON values are not inspected.
- The order in which `set` iterates: `validate_import` and `list(relatives)` are modelled in list order. The error kind is pinned only for a citizen with a single kind of defect.
- PostImportHandler.PostImport: an unacknowledged insert is modelled as landing in the store while the error is raised.
- ResponseCacher.ResponseCache.DeleteEntries: `_delete_birthdays_data` and `_delete_percentile_age_data` exist only in the tests. They are modelled as deleting every entry of the import, with the rule the tests assert.
- A patch without fields: the `$set` of an empty document is modelled as changing nothing.
- Tests written against other revisions, such as a validator that parses `birth_date`, are not followed.
