# Chemical equipment visualizer: the CSV ingestion core, in Dafny

This project models the core of the chemical equipment visualizer. That
core is the server side that turns an uploaded equipment CSV into a saved
dataset, plus two small imperative pieces beside it.

- **Loading** (`Services`). `_load_dataframe` has four steps:
  - It checks that all five required columns (`Equipment Name`, `Type`,
    `Flowrate`, `Pressure`, `Temperature`) are present. If any are missing,
    it reports them in sorted order.
  - It projects the table onto those five columns and renames them to their
    canonical names.
  - It coerces the three numeric columns, cell by cell, to numbers or NaN.
  - It rejects a table with no rows, then a table with any NaN in a numeric
    column. If both checks pass, it rounds the numeric columns to two
    places.

  The method `LoadDataframe` follows these steps column by column over a
  frame, with a loop invariant. It is proved equal to `LoadRecords`, a
  row-by-row statement of the same result. The properties below (first
  failure, all or nothing, other columns ignored) are proved about
  `LoadRecords`.
- **Summary** (`Services`). `_compute_metrics` yields:
  - the record count and the three means, rounded half to even;
  - `type_distribution`, which is `value_counts().sort_index()` over the
    non-missing types;
  - three highlights, each the first row that attains the column's maximum
    or minimum (`idxmax`/`idxmin`).
- **Creation** (`Services`). `create_dataset_from_file`:
  - rejects empty bytes first;
  - then loads and summarises the table;
  - derives the stored file name, which is the base name or `uploaded.csv`;
  - derives the display name: the supplied name, or else the title-cased
    stem with `_` turned into spaces;
  - saves the row.
- **The dataset table** (`Models`):
  - the upload path `datasets/<YYYYMMDDHHMMSS>_<name>`;
  - `__str__`;
  - `Meta.ordering` (most recent first);
  - `Dataset.save`, which inserts the row and then deletes every row whose
    id is not among the five most recent by `uploaded_at`. This prune is
    global, across all datasets. The class `DatasetStore` holds the rows and
    applies it.
- **Serializers** (`Serializers`):
  - the summary and detail field lists;
  - the `name` field's trimming and validators;
  - the `file` field's checks, then `validate_file`'s case-insensitive
    `.csv` suffix test.
- **The web client's credential store** (`AuthStore`, class
  `CredentialStore`). The module-level runtime value and `localStorage` are
  fields. `get` consults the runtime value, then the stored value, then the
  build environment, and caches what it finds. `set` and `clear` write
  both.
- **The `ensure_superuser` command** (`EnsureSuperuser`, class
  `UserTable`):
  - each of the username, password and email is taken from the
    command-line option, or else from the environment;
  - the run is skipped when any of the three is missing;
  - otherwise the command calls `get_or_create`, repairs the email, the
    staff and superuser flags and the password, and saves only when
    something changed.

External calls become parameters:

| source call | parameter |
|---|---|
| `pd.read_csv` | `readCsv: seq<byte> -> Result<CsvTable, string>` |
| `pd.to_numeric` on one cell | `parse: string -> Option<real>` |
| the fresh UUID | `id` |
| the `auto_now_add` instant | `uploadedAt` |
| the instant the upload path is built | `stamp` |
| the environment variables | explicit arguments |

A cell that `read_csv` reads as missing is `None`. Numbers are exact
rationals (`real`). Rounding is exact round-half-to-even on hundredths.

Where the code and the repository's own expectations differ, the model
follows the code. `backend/api/tests.py` and the views pass an `owner` to
`create_dataset_from_file`, and the tests expect the limit of five to apply
per owner. `create_dataset_from_file` accepts no owner, and
`Dataset.save` prunes across all rows. The model prunes globally.

## Model

| member | source | states |
|---|---|---|
| Services.SortedRequiredIsSorted | backend/api/services.py:15-21 | The sorted list of required columns is strictly ascending and holds exactly the required columns. |
| Services.RenamesCoverRequired | backend/api/services.py:15-29 | The rename map has five source and five canonical names; its source names are exactly the required columns. |
| Services.MissingRequired | backend/api/services.py:34-36 | The reported columns are strictly ascending and are exactly the required columns absent from the header. |
| Services.IndexOf | backend/api/services.py:38 | A found position holds the column and no earlier position does; not found means the column is absent. |
| Services.CoercedAt | backend/api/services.py:39-40 | A coerced cell is the parsed number of that row's cell, or NaN when it does not parse or is missing. |
| Services.LoadRecords | backend/api/services.py:31-51 | A successful load has exactly one record per row, and at least one. |
| Services.LoadDataframe | backend/api/services.py:31-51 | The column-by-column pipeline (check columns, project, coerce each numeric column, reject empty, reject NaN, round) returns exactly the row-by-row result `LoadRecords`, error or records. |
| Services.FrameRecords | backend/api/services.py:48-51 | The rounded, coerced frame holds all five columns at full length, and its records are the successful row-by-row load. |
| Services.AnyNaNIsInvalid | backend/api/services.py:45-46 | A NaN in any coerced numeric column means some row has a cell that does not parse. |
| Services.NoNaNIsNumeric | backend/api/services.py:45-46 | No NaN in the coerced columns means every row parses in all three numeric columns. |
| Services.MissingColumnsFailFirst | backend/api/services.py:34-36 | A required column is absent if and only if the load fails with the missing-columns error, naming exactly the absent columns in ascending order. |
| Services.AllRequiredPresent | backend/api/services.py:34-35 | With every required column in the header, no column is reported missing. |
| Services.HeaderOnlyFails | backend/api/services.py:42-43 | All columns and no rows fail with "CSV must include at least one equipment row.", whatever `parse` does. |
| Services.LoadAllOrNothing | backend/api/services.py:42-46 | With all columns and a row, the load succeeds if and only if every numeric cell of every row parses; otherwise it fails with the invalid-numeric error; it never keeps a subset of the rows. |
| Services.LoadedRecordValues | backend/api/services.py:38-50 | Each loaded record carries its row's name and type cells and its parsed numbers rounded to two places, each a whole number of hundredths. |
| Services.RowAgrees | backend/api/services.py:38 | Rows that agree on the five required cells agree on parsing and on their record. |
| Services.OtherColumnsIgnored | backend/api/services.py:34-38 | Two tables with the same required columns present and the same required cells load to the same result, whatever their other columns hold. |
| Services.SameRowsSameLoad | backend/api/services.py:31-51 | Tables with the same missing columns and the same rows, row by row, load alike. |
| Services.RoundHalfEven | backend/api/services.py:48-50 | The rounded integer is within one half of the value, and on an exact half it is the even neighbour. |
| Services.Round2Close | backend/api/services.py:48-50 | `round(2)` moves a value by at most 0.005 and lands on a whole number of hundredths. |
| Services.Round2OfCents | backend/api/services.py:57-59 | A value already in hundredths is unchanged by rounding. |
| Services.Round2Idempotent | backend/api/services.py:57-59 | Rounding twice equals rounding once. |
| Services.RoundHalfEvenMonotone | backend/api/services.py:48-50 | Rounding to an integer keeps order. |
| Services.Round2Monotone | backend/api/services.py:57-59 | Rounding to two places keeps order. |
| Services.Round2TiesToEven | backend/api/services.py:48-50 | A value exactly halfway between two hundredths rounds to the neighbour with an even number of hundredths; e.g. 0.125 to 0.12, 0.135 to 0.14, -0.125 to -0.12. |
| Services.SumBounds | backend/api/services.py:57-59 | Bounds on every entry bound the sum by the count times each bound. |
| Services.MeanBounds | backend/api/services.py:57-59 | Bounds on every entry bound the mean. |
| Services.MeanBetween | backend/api/services.py:57-59 | The mean lies between the column's smallest and largest value. |
| Services.IdxMax | backend/api/services.py:64-65 | `idxmax` is a position of a largest value, and no earlier position holds one. |
| Services.IdxMin | backend/api/services.py:64-65 | `idxmin` is a position of a smallest value, and no earlier position holds one. |
| Services.FirstExtremeUnique | backend/api/services.py:64-65 | The first position of the maximum (minimum) is unique. |
| Services.Extreme | backend/api/services.py:63-71 | The highlight names its column and is exactly some row's name, type and value, at the first position attaining the maximum (minimum). |
| Services.ExtremeBounds | backend/api/services.py:63-71 | The highlight's value is at least (at most) every row's value in its column. |
| Services.AddType | backend/api/services.py:61 | Counting one more row keeps the keys ascending, adds one to that type's count and leaves every other count unchanged. |
| Services.Tally | backend/api/services.py:61 | `value_counts().sort_index()`: keys strictly ascending, exactly the types that occur, each count the number of occurrences, counts summing to the number of types. |
| Services.PresentTypes | backend/api/services.py:61 | The types kept by `value_counts` are exactly the non-missing ones, all of them when none is missing. |
| Services.PresentTypesMultiset | backend/api/services.py:61 | Dropping missing types keeps each type's number of occurrences. |
| Services.TypeDistributionCounts | backend/api/services.py:61 | `type_distribution` is keyed in ascending order by exactly the types that occur, counts the rows of each, and sums to the row count when no type is missing. |
| Services.AveragesWithinHighlights | backend/api/services.py:55-77 | Over rounded records, the rounded mean flowrate lies between the min- and max-flowrate highlights, and the rounded mean temperature is at most the max-temperature highlight. |
| Files.BaseNameComponents | backend/api/services.py:93 | `Path(...).name` is the last real component: after the last `/`, a component other than `.` is the answer; a trailing `/` or `/.` is skipped; a plain name is kept; the result never holds `/` and is never `.`. |
| Services.SafeFilename | backend/api/services.py:93 | The stored file name is the base name of the file's `name`, or `uploaded.csv` without one; it contains no `/` and is not `.`. |
| Services.DefaultFilenameIsBase | backend/api/services.py:93 | `uploaded.csv` is its own base name. |
| Files.StemSplitsSuffix | backend/api/services.py:94 | The stem is the name cut before a last `.` that neither starts nor ends the name and has no `.` after it; otherwise the stem is the whole name. |
| Strings.TitleIdempotent | backend/api/services.py:94 | Title-casing twice equals title-casing once. |
| Services.DisplayNameRule | backend/api/services.py:94 | A non-empty name is used unchanged. Otherwise the display name is the stem with `_` turned into spaces, of the same length, with no `_`: every letter that starts a word is upper-cased, every letter following a letter is lower-cased, and every other character is kept. |
| Services.DisplayNameExamples | backend/api/services.py:93-94 | `pump_data.csv` without a name displays as `Pump Data`; the supplied name `Test Dataset` is kept. |
| Services.CreateDatasetFromFile | backend/api/services.py:81-111 | Returns exactly `Ingest`'s result. On every error, the table is unchanged. On success, the new row is saved with the five-most-recent prune, and it survives when it is the newest. |
| Services.EmptyUploadRejected | backend/api/services.py:85-87 | Empty bytes fail with "Uploaded file is empty." before `read_csv` is consulted. |
| Services.CreatedDatasetShape | backend/api/services.py:89-110 | A created dataset has a record count equal to its records (at least one), its safe file name and display name, the uploaded bytes under its upload path, an ascending type distribution over the types that occur (summing to the count when none is missing), and its flowrate average between its flowrate highlights. |
| Services.LoadOneRow | backend/api/services.py:31-51 | A table with all columns and one row that parses loads to exactly that row's record. |
| Services.SampleTableLoads | backend/api/tests.py:10 | The sample `Pump-1` table loads to one record (120, 5.2, 110). |
| Services.SampleSummary | backend/api/tests.py:20-28 | The sample record summarises to one record, an average flowrate of 120 and one `Pump`. |
| Services.SampleUpload | backend/api/tests.py:20-28 | Uploading the sample as `Test Dataset` creates a dataset with that name, one record, an average flowrate of 120 and a `Pump` count of 1. |
| Models.Timestamp14 | backend/api/models.py:8 | The timestamp is fourteen decimal digits. |
| Models.UploadPathShape | backend/api/models.py:7-9 | The path is `datasets/`, fourteen digits that read back as the instant, `_`, then the file name unchanged. |
| Models.DatasetLabelShape | backend/api/models.py:32-33 | `__str__` is the name, ` (`, the record count in decimal (which reads back as the count), then ` records)`. |
| Models.ByRecency | backend/api/models.py:29-30 | `Meta.ordering`: the listing is most recent first and is a permutation of the rows. |
| Models.ByRecencyMembers | backend/api/models.py:29-30 | Ordering keeps exactly the same rows and ids. |
| Models.ByRecencyDistinct | backend/api/models.py:29-30 | Ordering keeps ids distinct. |
| Models.ByRecencyChronological | backend/api/models.py:29-30 | Rows saved in increasing time list in reverse order. |
| Models.KeepIds | backend/api/models.py:40 | `exclude(id__in=...).delete()` keeps exactly the rows whose id is preserved, never more rows. |
| Models.RetainSize | backend/api/models.py:35-40 | After the prune, the table holds min(rows, 5) rows with distinct ids. |
| Models.RetainKeepsMostRecent | backend/api/models.py:37-40 | No kept row is older than any deleted row. |
| Models.RetainSmallIsIdentity | backend/api/models.py:35-40 | Five rows or fewer: the prune deletes nothing. |
| Models.RetainIdempotent | backend/api/models.py:35-40 | A second prune changes nothing. |
| Models.NewestSurvivesSave | backend/api/models.py:35-40 | A saved row at least as recent as every other row survives its own prune and heads the listing. |
| Models.RetainChronological | backend/api/models.py:35-40 | With strictly increasing times, the prune keeps exactly the last five rows in order. |
| Models.HistoryKeepsLastFive | backend/api/models.py:35-40 | Saving uploads one after another into an empty table leaves exactly the last five, in upload order. |
| Models.SixUploadsKeepFive | backend/api/tests.py:30-42 | After six uploads, five remain, the first is gone and the sixth is listed first. |
| Models.DatasetStore.Save | backend/api/models.py:35-40 | `save` inserts the row and prunes. The new rows are the pruned table, at most five with distinct ids, and none is new apart from the saved row. The saved row survives when it is the newest. The table may hold more than five rows beforehand. |
| Models.DatasetStore.Listing | backend/api/models.py:29-30 | The listing is most recent first and holds exactly the table's rows. |
| Serializers.FieldLists | backend/api/serializers.py:8-29 | The detail fields are the summary fields then `records`. The summary fields hold neither `records` nor `original_file`, and no field appears twice. |
| Serializers.ValidateFile | backend/api/serializers.py:36-39 | The file passes, unchanged, if and only if its name ends in `.csv` in any letter case. Otherwise the error is "Only CSV uploads are supported." |
| Serializers.CsvNameIff | backend/api/serializers.py:37 | The lower-cased suffix test holds if and only if the last four characters are `.`, `c`/`C`, `s`/`S`, `v`/`V`. |
| Serializers.CsvNameExamples | backend/api/serializers.py:37 | `A.CSV`, `data.csv` and `.csv` pass; `a.csv.txt` and `csv` do not. |
| Serializers.ValidateFileField | backend/api/serializers.py:34-39 | The file field accepts exactly a present file with a non-empty name, non-empty content and a `.csv` name, and returns it unchanged. |
| Serializers.NameErrors | backend/api/serializers.py:33 | No validator message if and only if the value has at most 255 characters and no null character. |
| Serializers.ValidateName | backend/api/serializers.py:33 | An absent name is accepted as absent. An accepted value is the trimmed input, at most 255 characters and free of null characters. A given name fails if and only if its trimmed form is too long or holds a null character. |
| Serializers.BlankNameAccepted | backend/api/serializers.py:33 | A whitespace-only name is accepted as blank. |
| Serializers.ValidateUpload | backend/api/serializers.py:32-39 | The upload is valid if and only if both fields are; then it holds both validated values, and otherwise some field reports an error. |
| Serializers.ValidatedUploadNeverEmpty | backend/api/services.py:85-87 | An upload that passes the serializer has content and a `.csv` name, so creation never fails with the empty-upload error. |
| Serializers.LoadNeverEmptyUpload | backend/api/services.py:31-51 | Loading never yields the empty-upload error. |
| AuthStore.ReadFromStorage | frontend-web/src/lib/authStore.js:5-20 | A stored value is returned if and only if it exists under `cev-basic-auth` and has both a username and a password. |
| AuthStore.EnvCredentials | frontend-web/src/lib/authStore.js:22-29 | Environment credentials exist if and only if both variables are set; they carry source `env`. |
| AuthStore.RuntimeFirst | frontend-web/src/lib/authStore.js:32-34 | Complete runtime credentials are returned as they are, and nothing changes. |
| AuthStore.StoredSecond | frontend-web/src/lib/authStore.js:35-39 | Otherwise complete stored credentials are returned and cached; incomplete ones fall through to the environment. |
| AuthStore.EnvThird | frontend-web/src/lib/authStore.js:40-45 | Then environment credentials are returned and cached; with none of the three, the result is null and nothing changes. |
| AuthStore.GetResultComplete | frontend-web/src/lib/authStore.js:31-46 | Whatever `get` returns has both fields, and `get` never writes storage. |
| AuthStore.GetIdempotent | frontend-web/src/lib/authStore.js:31-46 | A second `get` returns the same and changes nothing. |
| AuthStore.SetEmptyIsClear | frontend-web/src/lib/authStore.js:49-51 | `set` with an empty field is exactly `clear` and returns null. |
| AuthStore.SetThenGet | frontend-web/src/lib/authStore.js:48-57 | After `set`, `get` returns the credentials with source `user`, and so does a fresh page reading only storage. Other storage keys are untouched. |
| AuthStore.ClearThenGet | frontend-web/src/lib/authStore.js:59-65 | After `clear`, the runtime value and the stored key are gone, and `get` falls back to the environment. |
| AuthStore.CredentialStore.Get | frontend-web/src/lib/authStore.js:31-46 | The method's result and new state are exactly `GetStep`'s. |
| AuthStore.CredentialStore.Set | frontend-web/src/lib/authStore.js:48-57 | The method's result and new state are exactly `SetStep`'s. |
| AuthStore.CredentialStore.Clear | frontend-web/src/lib/authStore.js:59-65 | The method's result and new state are exactly `ClearStep`'s. |
| EnsureSuperuser.MakeThenCheck | backend/api/management/commands/ensure_superuser.py:42-43 | A set password checks for the same raw password and for no other; an unusable password never checks. |
| EnsureSuperuser.Pick | backend/api/management/commands/ensure_superuser.py:18-20 | A non-empty option wins; otherwise the environment value is used. |
| EnsureSuperuser.CliOverEnv | backend/api/management/commands/ensure_superuser.py:18-20 | For each field, a given option beats the environment; an empty or absent option falls back to it. |
| EnsureSuperuser.MissingInputSkips | backend/api/management/commands/ensure_superuser.py:22-24 | A missing username, password or email skips the run: nothing is created, changed or saved. |
| EnsureSuperuser.Repaired | backend/api/management/commands/ensure_superuser.py:32-44 | The repaired user has the email, both flags and a password that checks, and keeps its username. It equals the old user if and only if nothing needed repair. |
| EnsureSuperuser.RunReconciles | backend/api/management/commands/ensure_superuser.py:26-47 | After a run that is not skipped, the user exists with the email, both flags and a password that checks. No other user changes and only that username may be added. |
| EnsureSuperuser.SavedIffChanged | backend/api/management/commands/ensure_superuser.py:32-47 | `save` is called exactly when an existing user's row changed, and always for a new user. |
| EnsureSuperuser.CreatedIffNew | backend/api/management/commands/ensure_superuser.py:49-50 | The status is `created` exactly when the username was new, and `updated` exactly when it existed. |
| EnsureSuperuser.SecondRunIsQuiet | backend/api/management/commands/ensure_superuser.py:17-50 | A second run with the same inputs changes nothing, saves nothing and reports `updated`. |
| EnsureSuperuser.UserTable.GetOrCreate | backend/api/management/commands/ensure_superuser.py:26-30 | Returns the existing user or inserts the default row (staff, superuser, no usable password); `created` exactly when the username was new. |
| EnsureSuperuser.UserTable.SaveUser | backend/api/management/commands/ensure_superuser.py:46-47 | Writes the user's row under its username and counts one save. |
| EnsureSuperuser.UserTable.Handle | backend/api/management/commands/ensure_superuser.py:17-50 | The step-by-step command leaves the table and status that `Reconcile` states. It saves once exactly when something changed, and writes the matching line. |

## Left out

- `pd.read_csv` is a parameter. The model does not capture its tokenising, quoting, dtype inference, duplicate-header renaming or which strings it reads as missing. A short row reads as missing in the columns it lacks. Errors it raises appear as `Unreadable` with their message.
- `pd.to_numeric` on one cell is the parameter `parse`, which does not depend on the rest of the column. Column-wide dtype effects are not modelled.
- Floating point is not modelled. Values are exact rationals, and `.round(2)` and Python's `round(..., 2)` are both exact half-to-even rounding on hundredths. Binary representation effects (e.g. 2.675 rounding down) and the float division in `mean()` are not captured.
- `df.to_dict`: the records are typed values. JSON encoding of NaN or numpy scalars is not modelled.
- The ORM, the database and file storage are not modelled: queries, transactions (`transaction.atomic`), and Django's renaming of a file name that already exists in storage. The blob of a pruned row that is left in storage is not modelled either.
- Concurrency between uploads is not modelled.
- UUID generation is left out: `id` is a parameter, and fresh ids are a precondition of `Models.DatasetStore.Save`.
- `timezone.now()` is called twice in the source, once for the upload path and once for `uploaded_at`. Both instants are parameters. Time zones are not modelled. `Models.UploadPathShape` asks for a four-digit year.
- Models.DatasetStore.Save: ties in `uploaded_at` are broken in favour of the later-inserted row. The database's order among equal timestamps is unspecified.
- Models.NewestSurvivesSave: a saved row whose `uploaded_at` equals another row's is kept only because of that tie-break; with the database's unspecified order, only a strictly newest row is sure to survive.
- Services.CreateDatasetFromFile: the same tie-break applies to its promise that the new row survives.
- Model field limits (`max_length=255`, `PositiveIntegerField`) are enforced by the database, not by the model.
- `Path(...).name` and `.stem` are modelled on `/`-separated strings. Other pathlib normalisation is not modelled.
- A `name` attribute that is `None` (a `TypeError` in the source) is treated like an absent attribute.
- Letter case (`lower`, `title`) is ASCII only; Unicode case mapping is not modelled. `str.strip()` uses Python's `str.isspace` set of whitespace characters.
- DRF's surrogate-character validator on `CharField` is not modelled, nor its `FileField` size and filename-length options. Serializer error texts are DRF's defaults.
- The views, URLs, HTTP, authentication, PDF export, the admin and the desktop and web UI components are outside this model, and so is the `owner` argument that the views and `backend/api/tests.py` pass.
- `authStore.js`: `JSON.parse` failures and the `console.warn` they log are not modelled. A stored value is its parsed object. The `typeof window` guards (server-side rendering) are not modelled either; a browser is assumed. The `useAuth` hook's trimming is outside this model.
- EnsureSuperuser.SavedIffChanged: Django's `check_password` may save the user itself when it upgrades an outdated password hash; that save is not counted, and neither is it in `EnsureSuperuser.UserTable.Handle`.
- `ensure_superuser.py`: password hashing and salting are modelled as an exact record of the raw password. Writing to stdout and the style wrapper are reduced to the returned line. `get_user_model` is the plain user table.
