# Weather-file upload of the pest and disease management service

This project models, in Dafny, the `/upload/` endpoint of the service's data API
and the catalog of recognised column names.

The endpoint takes a semicolon-separated file of weather measurements and stores
it as one dataset named after the file. It works in these steps:

- It refuses a file name that is already in use.
- It creates an empty dataset and skips the header row.
- It reads each data row at fixed positions, in order:
  - cell 0 is a `YYYY-MM-DD` date and cell 1 an `HH:MM:SS` time;
  - cells 2 and 3 are the NUTS3 and NUTS2 region codes, kept verbatim;
  - cells 4 to 13 are ten optional measurements, where an empty cell is none
    and any other cell has its commas turned into points and is read as a number.
- It stops at the first row that fails.
- It inserts all records in one batch and answers with a success message or an
  error kind with its detail text.

A row that does not convert, and a batch the database refuses, remove the new
dataset again. A row with fewer than 14 cells, and a file with no rows at all,
do not.

Modules, one per file:

- `Numbers` (`numbers.dfy`): the numeric cell conversion. It covers the comma
  normalisation, the empty-to-none rule and a decimal grammar whose values are
  exact reals.
- `Timestamps` (`timestamps.dfy`): the date and time cells. Calendar dates run
  from years 1 to 9999, with Gregorian leap years.
- `Rows` (`rows.dfy`): one row to one record. It also defines `ParseRows`, which
  parses the data rows of a file in order and stops at the first row that fails.
- `Store` (`store.dfy`): the dataset store.
  - It is stated as values: `Created`, `Removed` and `Inserted`.
  - It is also a class, `DatasetStore`, whose methods change it in place:
    `GetByName`, `Create`, `Remove` and `BatchInsert`.
- `Upload` (`upload.dfy`): the endpoint.
  - `UploadSpec` gives the answer and the new store as a function of the old one.
  - The method `Upload` runs the endpoint's steps against a `DatasetStore` and
    is proved equal to `UploadSpec`.
  - The lemmas state rollback, frame and ordering properties.
  - `AtomicUploadSpec` and `AtomicUpload` are the corrected all-or-nothing
    variant; see Findings.
- `ColumnCatalog` (`catalog.dfy`): the 23 recognised column names.
- `Wrappers` (`wrappers.dfy`): `Option` and `Result`.

The endpoint's failure paths do not all clean up. Only lines 70 and 82 of
app/api/api_v1/endpoints/data.py call `crud.dataset.remove`: after a row that
does not convert, and after a refused batch. The failure of `next()` at line 39
and the missing-columns error at lines 44-48 leave the new dataset in place.
`UploadSpec` and `Upload` do the same; the Findings section gives the variant
that removes it on every failure.

## Model

| member | source | states |
|---|---|---|
| Numbers.ReplaceCommas | app/api/api_v1/endpoints/data.py:57-66 | normalising the separator keeps the cell's length |
| Numbers.ParseDecimal | app/api/api_v1/endpoints/data.py:57-66 | an accepted text is never empty, and a negative value comes only from a leading `-` |
| Numbers.UnsignedSound | app/api/api_v1/endpoints/data.py:57-66 | every unsigned text the grammar accepts is whole digits, optionally a point and fraction digits, with at least one digit, and is read at their value |
| Numbers.DecimalSound | app/api/api_v1/endpoints/data.py:57-66 | every text the grammar accepts is an optional `+` or `-` followed by such an unsigned literal, read at its value and negated after `-`; so `1.2.3`, `1-2` and `+-1` are rejected |
| Numbers.ConvertCell | app/api/api_v1/endpoints/data.py:57 | a numeric cell is `None` exactly when it is the empty string; otherwise it is a number or a conversion error |
| Numbers.FractionValue | app/api/api_v1/endpoints/data.py:57-66 | the digits after the decimal point are worth at least 0 and less than 1 |
| Numbers.ReplaceCommasAt | app/api/api_v1/endpoints/data.py:57-66 | after `replace(",", ".")`, each position holds a point where the cell had a comma and the cell's own character elsewhere |
| Numbers.NoCommaAfterReplace | app/api/api_v1/endpoints/data.py:57-66 | the normalised text contains no comma |
| Numbers.ReplaceCommasIdempotent | app/api/api_v1/endpoints/data.py:57-66 | normalising twice gives the same text as normalising once |
| Numbers.CommaAndPeriodAgree | app/api/api_v1/endpoints/data.py:57-66 | two cells that differ only in using `,` or `.` as the separator convert to the same result, so `12,5` and `12.5` are the same measurement |
| Numbers.IntegerLiteral | app/api/api_v1/endpoints/data.py:57-66 | a digit string is read as the integer it writes, and with a leading `-` as its negation |
| Numbers.FractionLiteral | app/api/api_v1/endpoints/data.py:57-66 | `w.f` is read as w plus the fraction f, and `-w.f` as its negation, with digits on either side or both |
| Numbers.ForeignCharacterRejected | app/api/api_v1/endpoints/data.py:57-66 | a cell holding a character that is not a digit, a sign or a separator fails to convert |
| Numbers.DecimalCommaExample | app/api/api_v1/endpoints/data.py:57 | `12,5` and `12.5` both convert to 12.5 |
| Numbers.ThousandsSeparatorExample | app/api/api_v1/endpoints/data.py:57 | `1,000` converts to 1.0: a comma is always a decimal point |
| Timestamps.ParseDate | app/api/api_v1/endpoints/data.py:53 | a date cell that is accepted gives a valid calendar date |
| Timestamps.DateRoundTrip | app/api/api_v1/endpoints/data.py:53 | every valid date is read back from its `YYYY-MM-DD` text |
| Timestamps.DateCanonical | app/api/api_v1/endpoints/data.py:53 | an accepted date cell is exactly the `YYYY-MM-DD` text of its date |
| Timestamps.LeapDay | app/api/api_v1/endpoints/data.py:53 | February 29th is a date exactly in leap years |
| Timestamps.ParseTime | app/api/api_v1/endpoints/data.py:54 | a time cell that is accepted gives a valid time of day, with hour below 24 and minute and second below 60 |
| Timestamps.TimeRoundTrip | app/api/api_v1/endpoints/data.py:54 | every valid time of day is read back from its `HH:MM:SS` text |
| Timestamps.TimeCanonical | app/api/api_v1/endpoints/data.py:54 | an accepted time cell is exactly the `HH:MM:SS` text of its time |
| Rows.ParseRow | app/api/api_v1/endpoints/data.py:44-68 | a row is refused for missing columns exactly when it has fewer than 14 cells. It parses exactly when its date, its time and its ten numeric cells convert. Otherwise the error carries the raw row. The record holds the parsed date and time, cells 2 and 3 verbatim, the converted cells 4 to 13 in order, and the dataset id |
| Rows.ConvertCells | app/api/api_v1/endpoints/data.py:57-66 | the converted cells are one value per numeric cell |
| Rows.ConvertCellsEach | app/api/api_v1/endpoints/data.py:57-66 | the numeric cells convert exactly when each one does, and value k is the conversion of cell k |
| Rows.ParseRowCells | app/api/api_v1/endpoints/data.py:51-68 | a row of 14 or more cells parses exactly when each of its date, time and numeric cells converts; measurement k - 4 is the conversion of cell k |
| Rows.ExtraCellsIgnored | app/api/api_v1/endpoints/data.py:44-66 | cells past index 13 play no part: a row parses exactly as its first 14 cells do, to the same record |
| Rows.RegionCodesVerbatim | app/api/api_v1/endpoints/data.py:55-56 | empty region codes stay empty strings, never none |
| Rows.ParseRows | app/api/api_v1/endpoints/data.py:41-77 | a file that parses gives one record per data row |
| Rows.ParseRowsOkIffAllRows | app/api/api_v1/endpoints/data.py:41-77 | the data rows parse exactly when every row does |
| Rows.ParseRowsInOrder | app/api/api_v1/endpoints/data.py:67-77 | record i of a parsed file is the parse of row i |
| Rows.ParseRowsFirstFailure | app/api/api_v1/endpoints/data.py:41-75 | a failed parse fails with the error of the first row that does not parse |
| Rows.ParseRowsAtFirstFailure | app/api/api_v1/endpoints/data.py:41-75 | if row k is the first bad row, the whole file fails with row k's error, whatever follows it |
| Rows.ParseRowsFailFast | app/api/api_v1/endpoints/data.py:41-75 | once a prefix of the rows fails, the rows after it are never looked at |
| Rows.ParsedRecordsStamped | app/api/api_v1/endpoints/data.py:67 | every parsed record carries the identifier of the dataset it was parsed for |
| Store.Created | app/api/api_v1/endpoints/data.py:35 | creation adds exactly one key, the fresh identifier, holding an empty dataset with the given name. It advances the counter by one, leaves every other dataset unchanged and keeps the store consistent |
| Store.Removed | app/api/api_v1/endpoints/data.py:70 | removal deletes the dataset with its records, keeps every other dataset and keeps the store consistent |
| Store.InsertAllIntoOne | app/api/api_v1/endpoints/data.py:79 | a batch stamped with one dataset's identifier is appended, in order, to that dataset; every other dataset is unchanged |
| Store.InsertedConsistent | app/api/api_v1/endpoints/data.py:79 | appending records to the datasets they name keeps the store consistent |
| Store.CreatedThenInserted | app/api/api_v1/endpoints/data.py:35-79 | creating a dataset and then inserting a batch stamped with its id adds exactly one dataset, holding the batch in order |
| Store.DatasetStore.GetByName | app/api/api_v1/endpoints/data.py:27 | the lookup finds a dataset exactly when one with that name exists, and what it finds has that name |
| Store.DatasetStore.Create | app/api/api_v1/endpoints/data.py:35 | the store becomes `Created` of the old one; the returned id was not in use |
| Store.DatasetStore.Remove | app/api/api_v1/endpoints/data.py:70 | the store becomes `Removed` of the old one |
| Store.DatasetStore.BatchInsert | app/api/api_v1/endpoints/data.py:79-81 | the batch succeeds exactly when the database accepts it and every record names an existing dataset. Then all records are inserted; otherwise nothing changes |
| Upload.BadRowMessage | app/api/api_v1/endpoints/data.py:74 | the bad-row detail text starts with the fixed prefix and ends with the closing parenthesis after the row |
| Upload.UploadSpec | app/api/api_v1/endpoints/data.py:17-89 | the upload is refused as a duplicate exactly when the name is taken. A success carries the success message. The counter advances exactly when a dataset was created |
| Upload.AfterParse | app/api/api_v1/endpoints/data.py:41-89 | after the rows are read, the upload succeeds exactly when every row parsed and the batch was accepted. A failure here is never a duplicate or an empty file. No dataset is added: the keys are a subset of those after creation, and the counter is kept |
| Upload.ReadRows | app/api/api_v1/endpoints/data.py:41-77 | the row loop returns what `ParseRows` states: the records in order, or the error of the first bad row |
| Upload.Upload | app/api/api_v1/endpoints/data.py:17-89 | the endpoint's answer and the store it leaves are those of `UploadSpec` |
| Upload.DuplicateRejected | app/api/api_v1/endpoints/data.py:27-33 | a name in use is refused with the duplicate message, the store unchanged, whatever the file holds |
| Upload.HeaderNeverValidated | app/api/api_v1/endpoints/data.py:37-39 | any two header rows give the same outcome: the first row is never read |
| Upload.SucceedsIff | app/api/api_v1/endpoints/data.py:17-89 | an upload succeeds exactly when the name is free, the file has a header, every data row parses and the database accepts the batch |
| Upload.SuccessShape | app/api/api_v1/endpoints/data.py:35-89 | a successful upload is the creation of the dataset followed by the insertion of the parsed rows |
| Upload.SuccessAddsOneDataset | app/api/api_v1/endpoints/data.py:79-89 | after a success the store holds one new dataset with the file's name and all parsed records; every earlier dataset is unchanged and the store stays consistent |
| Upload.SuccessKeepsRowOrder | app/api/api_v1/endpoints/data.py:67-79 | after a success the new dataset holds one record per data row, record i - 1 being the parse of file row i |
| Upload.DataRowInOrder | app/api/api_v1/endpoints/data.py:39-77 | data row i of the file becomes record i - 1 |
| Upload.BadRowRollsBack | app/api/api_v1/endpoints/data.py:69-75 | a row that does not convert fails the upload with a message naming that row. The new dataset is removed, so the datasets are as before |
| Upload.BadRowMessageShowsRow | app/api/api_v1/endpoints/data.py:74 | the bad-row detail text shows every cell of the row |
| Upload.InsertFailureRollsBack | app/api/api_v1/endpoints/data.py:79-87 | a refused batch fails the upload with the database message and removes the new dataset |
| Upload.ShortRowLeavesDataset | app/api/api_v1/endpoints/data.py:44-48 | a short first bad row fails the upload with the missing-columns message. The new dataset is left behind, empty |
| Upload.EmptyFileLeavesDataset | app/api/api_v1/endpoints/data.py:35-39 | a file without any row fails after the dataset is created, which is left behind, empty |
| Upload.UploadFrame | app/api/api_v1/endpoints/data.py:17-89 | whatever happens, earlier datasets are untouched, only the new identifier may appear, and the store stays consistent |
| Upload.SecondUploadRefused | app/api/api_v1/endpoints/data.py:27-35 | after a successful upload, any second upload under the same name is refused and changes nothing |
| Upload.ShortRowBlocksRetry | app/api/api_v1/endpoints/data.py:27-48 | after a short-row failure, uploading a corrected file under the same name is refused as a duplicate |
| Upload.ShortRowExample | app/api/api_v1/endpoints/data.py:44-48 | a header and one three-cell row, on an empty store, fail with the missing-columns message and leave dataset 0 behind |
| Upload.AtomicUploadSpec | app/api/api_v1/endpoints/data.py:17-89 | the corrected upload is refused as a duplicate exactly when the name is taken, and advances the counter exactly when a dataset was created |
| Upload.AtomicUpload | app/api/api_v1/endpoints/data.py:17-89 | the endpoint with a removal on the empty-file and short-row paths has the outcome and the store of `AtomicUploadSpec` |
| Upload.AtomicUploadAllOrNothing | app/api/api_v1/endpoints/data.py:35-87 | in the corrected upload, the datasets are left exactly as they were if and only if the upload fails |
| Upload.AtomicAgreesWithUpload | app/api/api_v1/endpoints/data.py:17-89 | the corrected upload gives the same answers. It leaves the same store whenever the original does not fail with an empty file or a short row |
| ColumnCatalog.CatalogSize | app/utils/data.py:1-8 | the catalog holds 23 names |
| ColumnCatalog.CatalogDistinct | app/utils/data.py:1-8 | no name is listed twice |
| ColumnCatalog.CatalogStartsWithDateAndTime | app/utils/data.py:2 | `date` and `time` are the first two names |
| ColumnCatalog.CatalogHasLeafWetnessAndParcel | app/utils/data.py:2-5 | `leaf_wetness` and `parcel_location` are recognised names |
| ColumnCatalog.NoDelimiterInNames | app/utils/data.py:1-8 | no name contains `;`, so every name fits in one header cell |

## Left out

- **Web framework plumbing:** the router, dependency injection, the authenticated user and the upload object are left out. Only the file name and the file's rows are inputs. HTTP status codes are not modelled; an outcome is a success message, or an error kind with its detail text.
- **CSV decoding:** `csv.reader` splitting, quoting and escaping are not modelled, nor the UTF-8 decoding with byte-order-mark removal. The file arrives already split into rows of cells. Reading the rows at data.py:42 can itself raise, outside the `try` at line 51: a `UnicodeDecodeError` on bytes that are not UTF-8, or a `csv.Error`. Like the failures at lines 39 and 44-48, that leaves the new dataset behind; the model does not include this failure.
- **The empty file:** `next()` on a file with no rows raises an uncaught exception whose text is not shown. The model reports error kind `EmptyFile` with an empty detail.
- **`float()`:** it is modelled by a decimal grammar with exact real values: an optional sign, digits, an optional point and digits, and at least one digit. Left out are:
  - surrounding whitespace, exponents, `inf` and `nan`, digit-group underscores and non-ASCII decimal digits, which Python also accepts;
  - binary floating-point rounding.
- **`strptime`:** only the zero-padded layouts `YYYY-MM-DD` and `HH:MM:SS` are accepted. Python also accepts single-digit month, day, hour, minute and second fields, a space-padded day such as `2023-05- 1`, and non-ASCII decimal digits, so the model accepts fewer cells than the source.
- Numbers.ForeignCharacterRejected: the rejection holds of the modelled decimal grammar only. Python's `float()` also accepts cells such as ` 5`, `1e3`, `inf`, `nan` and `1_0`, which hold characters this lemma says are rejected.
- Timestamps.DateCanonical: holds of the zero-padded `YYYY-MM-DD` grammar only. `strptime` also accepts `2023-5-1` and `2023-05- 1`, which are not the canonical text of their date.
- Timestamps.TimeCanonical: holds of the zero-padded `HH:MM:SS` grammar only. `strptime` also accepts `1:2:3`, which is not the canonical text of its time.
- **The `crud` module and the data schemas,** which are not part of this model:
  - `get_by_name`, `create`, `remove` and `batch_insert` are operations on an abstract store;
  - whether the database accepts a batch is the input `accepted`, not derived from the database. A file with a header and no data rows passes an empty batch, and its outcome depends on that input alone.
- **Dataset identifiers:** they come from a counter rather than `uuid4` (app/models/dataset.py:16). Identifiers are therefore never reused and always fresh, which a random UUID gives only with overwhelming probability.
- **Dataset names** carry no uniqueness constraint in the store (app/models/dataset.py:17). Only the endpoint's check before creating keeps them apart, as in the source.
- **Concurrency:** races between concurrent uploads of the same name are not modelled; each upload runs alone.
- **A failing removal** during rollback is not modelled.
- Upload.BadRowMessageShowsRow: each cell is shown between single quotes exactly as it is. Python's `repr` escapes backslashes, quotes, tabs, newlines, carriage returns and every non-printable character, and puts a cell that holds `'` between double quotes. For such cells, for instance `1 234,5` with a no-break space (U+00A0), the source's message does not contain the raw quoted cell that this lemma finds.
- **app/init/db_init.py** is not part of this model: it seeds reference data through the database session and holds no upload logic.
- **The header-driven column resolver** that would use the catalog is not part of this model: its code is not among the modelled files. The catalog is modelled as a constant with its properties.

## Findings

| source | as written | input that shows it | evidently intended | confidence | as-written member | corrected member |
|---|---|---|---|---|---|---|
| app/api/api_v1/endpoints/data.py:44-48 | a row with fewer than 14 cells raises without removing the dataset created at line 35 | header `date` and one data row `2023-05-01;12:00:00;21,5` on an empty store: the upload fails, yet dataset `weather.csv` stays with no records and blocks a corrected retry as a duplicate | remove the new dataset, as the bad-row and refused-batch paths do at lines 70 and 82 | not executed | Upload.ShortRowExample | Upload.AtomicUploadAllOrNothing |
| app/api/api_v1/endpoints/data.py:35-39 | the dataset is created before `next()` skips the header, and a file without any row fails there without removing it | an empty file under a free name: the upload fails and leaves an empty dataset with the file's name | remove the new dataset on this failure too, or create it only after the header is read | not executed | Upload.EmptyFileLeavesDataset | Upload.AtomicUploadAllOrNothing |
