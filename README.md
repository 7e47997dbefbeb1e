# Batch ingestion of departments, jobs and employees

This project models the ingestion service of a small data-migration API. The
service accepts departments, jobs and employees in two ways:

- **CSV upload** (`upload_departments_csv`, `upload_jobs_csv`, `upload_employees_csv`):
  1. decode the bytes as UTF-8 and read them as a header-less comma-separated table;
  2. require 1 to 1000 rows;
  3. require the fixed column count: 2 for departments and jobs, 5 for employees;
  4. map every row by position onto a record, with `int()` for the integer columns and `str()` for the text columns;
  5. add each record to the database session, counting as it goes;
  6. commit once and return the count.
- **Structured batch** (`batch_insert_*`): the same 1..1000 bound, then add every entry, commit once and return the length of the list.

The model has four modules, one per concern.

- `Database` (`database.dfy`) models the store.
  - It has the three record shapes and the committed tables, which are maps from primary key to row.
  - A `Session` class holds those tables and a `pending` sequence. `Add` appends to `pending`. `Commit` inserts every pending row, or none of them when any primary key clashes with a stored row or with another pending row. Either way `pending` is empty afterwards.
- `Schemas` (`schemas.dfy`) models the request shapes and their batch-size validators.
- `CsvService` (`csv_service.dfy`) models the service itself.
  - `ParseCsv` and `ValidateBatchSize` are the checks.
  - `DepartmentOf`, `JobOf` and `EmployeeOf` map one row onto a record.
  - `DepartmentsFromCsv` and its siblings are specification functions: what an upload commits, or the error it raises.
  - The `Upload*Csv` and `BatchInsert*` methods are imperative. They loop over the rows, call `Session.Add`, and end with `Session.Commit`. Each is proved against those specification functions.
- `CsvRoundTrip` (`round_trip.dfy`) proves that an upload and a structured batch with the same values commit the same records and refuse the same sizes. This holds for non-empty batches, with each field read as the text written in the file; the exceptions of the real CSV reader are listed under "Left out" below.

Two shared modules support them:

- `Text` (`text.dfy`) holds the text operations the service relies on:
  - a strict UTF-8 decoder and encoder, with a proved round trip;
  - splitting and joining at a separator;
  - `int()` and `str()` on decimal text, with `int(str(n)) == n` proved.
- `Wrappers` (`wrappers.dfy`) holds `Option`, `Result` and `Outcome`.

Every raised `ValueError` is a `Result.Err`. The commit-time primary-key failure is `Err(DuplicateKey)`.

All of the service's checks come before the single commit. So every method's contract says that a failed call leaves the committed tables as they were.

Behaviours worth knowing, because the code checks no more than this:

- Names, job titles and department names may be empty.
- `datetime` is stored verbatim as text, with no date-time format check.
- A failing row is reported by its field text, not by its position in the file.
- Duplicate ids, within a batch or against stored rows, make the commit fail as a whole. This follows from the primary key.

## Model

| member | source | states |
|---|---|---|
| Text.DecodeFirst | app/csv_service.py:13 | the first well-formed UTF-8 sequence takes 1 to 4 bytes; a leading continuation byte is never well formed |
| Text.DecodeEncodeUtf8 | app/csv_service.py:13 | decoding the UTF-8 encoding of any text gives that text back, so every valid file decodes |
| Text.DecodeFirstEncodeChar | app/csv_service.py:13 | the encoding of one scalar value decodes back to that value and its byte count, whatever follows |
| Text.StrayContinuationRejected | app/csv_service.py:13 | bytes starting with a continuation byte (such as 80 81 82) are not UTF-8 |
| Text.DecodeUtf8 | app/csv_service.py:13 | `bytes.decode('utf-8')`: a decoded text has at most one character per byte and at least one per four bytes |
| Text.DecodeFirstCanonical | app/csv_service.py:13 | the bytes the decoder accepts for one character are exactly that character's UTF-8 encoding |
| Text.EncodeDecodeUtf8 | app/csv_service.py:13 | bytes that decode are exactly the UTF-8 encoding of the text they decode to, so overlong forms, encoded surrogates and values past U+10FFFF are refused |
| Text.IllFormedRejected | app/csv_service.py:13 | the overlong `C0 80`, the surrogate `ED A0 80` and the out-of-range `F5 80 80 80` are not UTF-8 |
| Text.Split | app/csv_service.py:14 | splitting yields at least one piece and no piece holds the separator |
| Text.SplitJoin | app/csv_service.py:14 | joining separator-free fields and splitting again returns exactly those fields |
| Text.JoinSplit | app/csv_service.py:14 | splitting a text and joining the pieces again returns the text |
| Text.JoinLacks | app/csv_service.py:14 | joining pieces that lack a character (other than the separator) gives a text lacking it |
| Text.ParseInt | app/csv_service.py:40 | `int()` on text succeeds exactly when the text is an optionally signed run of decimal digits |
| Text.FormatNat | app/csv_service.py:40 | the decimal text in which a structured entry's integer is written on its CSV line is a non-empty run of digits |
| Text.FormatInt | app/csv_service.py:40 | the decimal text in which a structured entry's integer is written on its CSV line holds only digits and a minus sign |
| Text.DigitsValueFormatNat | app/csv_service.py:40 | the digits written for a natural number read back as that number |
| Text.ParseFormatInt | app/csv_service.py:40 | `int(str(n)) == n` for every integer |
| Database.Tables.Lookup | app/database.py:15-36 | a row is found under a key exactly when the table holds that key |
| Database.Tables.Insert | app/database.py:15-36 | after an insert the row is found under its primary key; every other key is unchanged; primary-key integrity is kept; a new key adds exactly one row |
| Database.InsertAllHas | app/database.py:18 | after inserting rows, a key is present exactly when it was stored before or is one of the rows' keys |
| Database.KeysOfSnoc | app/database.py:18 | the keys of rows plus one more row are the old keys plus that row's key |
| Database.FreshKeysSnoc | app/database.py:18 | a further row keeps the batch committable exactly when its key is not yet taken |
| Database.FreshKeysPrefix | app/database.py:18 | a prefix of a committable batch is committable |
| Database.InsertAllContents | app/database.py:15-36 | committing a batch whose keys are fresh files every row under its own key and leaves every other key as it was |
| Database.InsertAllSize | app/database.py:15-36 | committing a batch whose keys are fresh adds exactly one stored row per batch row |
| Database.InsertAll | app/csv_service.py:46 | the INSERTs of a commit, in order, never break the rule that every row is stored under its own id (app/database.py:18,25,32) |
| Database.OrphanEmployeeStorable | app/database.py:35-36 | with no foreign key, an employee whose department and job do not exist can be committed when its own id is free |
| Database.Flush | app/csv_service.py:46 | the inserts of a commit succeed exactly when the batch's keys are fresh (no clash with stored rows or within the batch), and then yield every row inserted |
| Database.Session.constructor | app/database.py:43-46 | a new session sees the committed tables and has nothing pending |
| Database.Session.Add | app/csv_service.py:43 | `db.add` appends the row to the pending rows and commits nothing |
| Database.Session.Commit | app/csv_service.py:46 | `db.commit` inserts all pending rows when their keys are fresh and otherwise changes nothing (rollback); integrity is kept and nothing stays pending |
| Schemas.ValidateBatchSize | app/schemas.py:39-42 | the validator accepts exactly the lists of 1 to 1000 items, returns the list unchanged, and otherwise raises the size message |
| Schemas.ValidateDepartmentBatch | app/schemas.py:34-42 | `DepartmentBatch.departments` is accepted exactly when it holds 1 to 1000 entries and is then unchanged |
| Schemas.ValidateJobBatch | app/schemas.py:47-55 | `JobBatch.jobs` is accepted exactly when it holds 1 to 1000 entries and is then unchanged |
| Schemas.ValidateEmployeeBatch | app/schemas.py:58-66 | `EmployeeBatch.employees` is accepted exactly when it holds 1 to 1000 entries and is then unchanged |
| CsvService.NonBlank | app/csv_service.py:14 | no kept line is blank (empty, or only spaces and tabs), and a file with no blank line keeps all its lines |
| CsvService.NonBlankOne | app/csv_service.py:14 | a single line is kept exactly when it is not blank |
| CsvService.NonBlankAppend | app/csv_service.py:14 | skipping blank lines distributes over concatenation, so the other lines are kept in their order |
| CsvService.FieldsOf | app/csv_service.py:14 | one row per line; no field holds a comma; joining a row's fields with commas gives back its line |
| CsvService.ParseCsv | app/csv_service.py:10-17 | a parsed table is non-empty and rectangular; every failure is a parse error, and bytes that are not UTF-8 are one |
| CsvService.ParseCsvWritesBack | app/csv_service.py:10-17 | a parsed table writes back to the file: each row's fields joined by commas give, in order, exactly the non-blank lines of the decoded text, and no field holds a comma |
| CsvService.ParseCsvReads | app/csv_service.py:10-17 | conversely, a UTF-8 file whose non-blank lines are, in order, the comma-joins of a rectangular table of comma-free fields parses to exactly that table, whatever blank or trailing empty lines it also holds |
| CsvService.ParseCsvIgnoresBom | app/csv_service.py:13-14 | a leading byte-order mark does not change the parsed table |
| CsvService.InvalidUtf8IsParseError | app/csv_service.py:12-17 | the bytes 80 81 82 are a parse error |
| CsvService.EmptyContentIsParseError | app/csv_service.py:12-17 | empty content is a parse error |
| CsvService.ValidateBatchSize | app/csv_service.py:20-23 | the size check passes exactly for 1 to 1000 rows and otherwise reports the row count received |
| CsvService.SizeChecksAgree | app/csv_service.py:20-23 | the service's size check and the request validator accept exactly the same sizes |
| CsvService.DepartmentOf | app/csv_service.py:39-42 | a row becomes a department exactly when its first field is an integer; id is `int(col0)`, department is `col1` verbatim; otherwise the error names the bad field |
| CsvService.JobOf | app/csv_service.py:63-66 | a row becomes a job exactly when its first field is an integer; id is `int(col0)`, job is `col1` verbatim; otherwise the error names the bad field |
| CsvService.EmployeeOf | app/csv_service.py:87-93 | a row becomes an employee exactly when columns 0, 3 and 4 are integers; `int()` is applied to them in that order and the first failing one is reported; name and datetime are taken verbatim |
| CsvService.Coerced | app/csv_service.py:38-44 | the records of the rows the loop gets through before the first conversion that raises, each converted from its own row |
| CsvService.CoercedUnique | app/csv_service.py:38-44 | that longest converting prefix is determined by the rows alone |
| CsvService.CoerceAll | app/csv_service.py:38-44 | every row converts and the records are the converted rows in order, or the error is that of the first row that fails |
| CsvService.CheckedTable | app/csv_service.py:28-29 | a table that passes parsing and the size check is rectangular and has 1 to 1000 rows |
| CsvService.SizeCheckedBeforeColumns | app/csv_service.py:28-33 | a parsed file of more than 1000 rows is refused for its size whatever its column count, for all three entities |
| CsvService.WrongColumnCountRefused | app/csv_service.py:32-81 | a well-sized table whose column count is not 2 (departments, jobs) or 5 (employees) is refused with the column-count error |
| CsvService.DepartmentsFromCsvSpec | app/csv_service.py:26-47 | a department upload reaches its commit exactly when the file parses, has 1 to 1000 rows of 2 columns and integer ids; it then commits one department per row, mapped by position; otherwise the error is a parse, size, column or integer error |
| CsvService.JobsFromCsvSpec | app/csv_service.py:50-71 | a job upload reaches its commit exactly when the file parses, has 1 to 1000 rows of 2 columns and integer ids; it then commits one job per row, mapped by position; otherwise the error is a parse, size, column or integer error |
| CsvService.EmployeesFromCsvSpec | app/csv_service.py:74-98 | an employee upload reaches its commit exactly when the file parses, has 1 to 1000 rows of 5 columns and integer id, department_id and job_id; it then commits one employee per row, mapped by position, with datetime verbatim |
| CsvService.DepartmentsFromCsv | app/csv_service.py:26-47 | a department upload that reaches its commit carries 1 to 1000 departments, and each of its errors is raised before the commit, never a key clash |
| CsvService.DepartmentsAdded | app/csv_service.py:37-44 | an upload adds at most 1000 departments to the session, and when it reaches its commit exactly the departments it commits |
| CsvService.JobsFromCsv | app/csv_service.py:50-71 | a job upload that reaches its commit carries 1 to 1000 jobs, and each of its errors is raised before the commit, never a key clash |
| CsvService.JobsAdded | app/csv_service.py:61-68 | an upload adds at most 1000 jobs to the session, and when it reaches its commit exactly the jobs it commits |
| CsvService.EmployeesFromCsv | app/csv_service.py:74-98 | an employee upload that reaches its commit carries 1 to 1000 employees, and each of its errors is raised before the commit, never a key clash |
| CsvService.EmployeesAdded | app/csv_service.py:85-95 | an upload adds at most 1000 employees to the session, and when it reaches its commit exactly the employees it commits |
| CsvService.DepartmentsFromBatch | app/csv_service.py:101-111 | a structured department batch is accepted exactly when it has 1 to 1000 entries; it then yields one department per entry, field for field; otherwise the size error carries its length |
| CsvService.JobsFromBatch | app/csv_service.py:114-124 | a structured job batch is accepted exactly when it has 1 to 1000 entries; it then yields one job per entry, field for field; otherwise the size error carries its length |
| CsvService.EmployeesFromBatch | app/csv_service.py:127-137 | a structured employee batch is accepted exactly when it has 1 to 1000 entries; it then yields one employee per entry, field for field; otherwise the size error carries its length |
| CsvService.AddDepartmentRows | app/csv_service.py:37-44 | the row loop adds the converted departments in order, stopping at the first row whose `int()` raises; it commits nothing and counts every row when all convert |
| CsvService.AddJobRows | app/csv_service.py:61-68 | the row loop adds the converted jobs in order, stopping at the first row whose `int()` raises; it commits nothing and counts every row when all convert |
| CsvService.AddEmployeeRows | app/csv_service.py:85-95 | the row loop adds the converted employees in order, stopping at the first row whose `int()` raises; it commits nothing and counts every row when all convert |
| CsvService.UploadDepartmentsCsv | app/csv_service.py:26-47 | on any failure before the commit the error is raised and the committed tables are unchanged; otherwise the single commit stores exactly the file's departments and returns their count, or rolls back on a key clash |
| CsvService.UploadJobsCsv | app/csv_service.py:50-71 | on any failure before the commit the error is raised and the committed tables are unchanged; otherwise the single commit stores exactly the file's jobs and returns their count, or rolls back on a key clash |
| CsvService.UploadEmployeesCsv | app/csv_service.py:74-98 | on any failure before the commit the error is raised and the committed tables are unchanged; otherwise the single commit stores exactly the file's employees and returns their count, or rolls back on a key clash |
| CsvService.BatchInsertDepartments | app/csv_service.py:101-111 | a batch of the wrong size is refused before anything is added; otherwise its departments are committed all or none and the count is the batch length |
| CsvService.BatchInsertJobs | app/csv_service.py:114-124 | a batch of the wrong size is refused before anything is added; otherwise its jobs are committed all or none and the count is the batch length |
| CsvService.BatchInsertEmployees | app/csv_service.py:127-137 | a batch of the wrong size is refused before anything is added; otherwise its employees are committed all or none and the count is the batch length |
| CsvRoundTrip.ParseCsvText | app/csv_service.py:10-17 | a rectangular table of at least two comma- and newline-free fields per row, whose first field does not start with a byte-order mark, written as CSV and encoded as UTF-8, parses back to exactly that table |
| CsvRoundTrip.FormatIntPlain | app/csv_service.py:40 | the decimal text of an integer holds no comma and no line break |
| CsvRoundTrip.DepartmentTableConverts | app/csv_service.py:39-42 | the line `str(id),department` of a structured entry converts back to the department that entry becomes |
| CsvRoundTrip.JobTableConverts | app/csv_service.py:63-66 | the line `str(id),job` of a structured entry converts back to the job that entry becomes |
| CsvRoundTrip.EmployeeTableConverts | app/csv_service.py:87-93 | the line `str(id),name,datetime,str(department_id),str(job_id)` converts back to the employee that entry becomes |
| CsvRoundTrip.DepartmentUploadMatchesBatch | app/csv_service.py:101-111 | with fields read as the text written, uploading the CSV lines of a non-empty structured batch commits the same departments as inserting the batch, and refuses the same sizes |
| CsvRoundTrip.JobUploadMatchesBatch | app/csv_service.py:114-124 | with fields read as the text written, uploading the CSV lines of a non-empty structured batch commits the same jobs as inserting the batch, and refuses the same sizes |
| CsvRoundTrip.EmployeeUploadMatchesBatch | app/csv_service.py:127-137 | with fields read as the text written, uploading the CSV lines of a non-empty structured batch commits the same employees as inserting the batch, and refuses the same sizes |
| CsvRoundTrip.EmptyUploadAndBatchDiffer | app/csv_service.py:101-111 | for empty input the two paths differ: the empty file is a parse error, the empty list a size error carrying 0 |

## Left out

- The CSV reader of the data-frame library is modelled as a plain splitter. Lines are split at `\n`. Lines that are empty or hold only spaces and tabs are skipped, and a leading byte-order mark is dropped. Fields are split at `,`. This model does not cover:
  - quoting and escaped commas;
  - `\r` and `\r\n` line ends;
  - dtype inference.
- Ragged lines: any line whose field count differs from the first line's is a parse error. The library pads short lines with missing values rather than refusing them.
- CsvService.ParseCsv: an empty field or a missing-value token (`NA`, `null`, `None`, `NaN`, `n/a` and the like) is read by the library as missing, and `str()` then stores `"nan"`. The model stores the text as written, so `1,` commits a department with an empty name.
- CsvService.ParseCsv: the library reads a numeric column as numbers before `int()` or `str()` sees it. So a text column holding only digits such as `007` would be stored as `7`. An id written as `1.0`, `1e3` or `1.5` in an all-numeric column passes `int()` truncated in the source. The model hands every field to `int()` and `str()` as the text in the file, and refuses such ids.
- CsvRoundTrip.DepartmentUploadMatchesBatch: holds for the model's reading of fields as text. In the service, an upload stores `"nan"` for an empty or missing-value-token name and a digits-only name column in normalised form, while the batch stores the text as given. The same goes for CsvRoundTrip.JobUploadMatchesBatch and CsvRoundTrip.EmployeeUploadMatchesBatch (names and datetimes).
- Text.ParseInt: `int()` also accepts surrounding whitespace, underscores between digits and non-ASCII digits. The model accepts only an optional sign followed by ASCII digits.
- Integer width: ids are unbounded integers. The 64-bit limit of the storage engine's INTEGER column is not modelled.
- The service's error texts are left out. Each service error is modelled by its kind and data only: the parse-failure reason, the received row count, the expected column count, the bad field. The request validators' message is modelled as `Schemas.BatchSizeMessage`.
- The HTTP layer (`app/main.py`) is left out:
  - routing and the asynchronous file read;
  - mapping errors to status codes;
  - response messages.
- Session plumbing is left out. `get_db` closing the session after a request discards rows left pending by a failed upload; the model keeps them in `pending` and says so in each method's contract. `create_tables`, the engine setup and the session identity map are not modelled.
- Database.Session.Commit: other commit failures are left out. Apart from integer width, a primary-key clash is the only one, because every column is present by construction and there are no foreign keys.
- The reporting queries (hires by quarter, departments above the average) are left out. No handler for them exists in the service source.
- The request schemas' lax type coercion and their redundant `Field(min_length, max_length)` constraint are left out. Only the length predicate is modelled.
- Concurrent requests and transaction isolation are left out. They belong to the storage engine.
