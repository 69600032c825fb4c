# Patient record generation, modelled in Dafny

This project models `generate_patient_data.py`. The script has three modes:

- The loader (`-load`) reads two pipe-separated files, `demo` (patients) and `events` (diagnosis events), into SQLite tables. It then builds the joined table `patient_events`.
- The exporter (`--run_json`) writes one JSON document per patient of `patient_events`.
- The reporter (`--run_analysis`) prints four aggregate results: the patient count, timeline-length statistics, per-gender counts and age statistics.

The database is not modelled as a store. Each table is a sequence of rows. Each SQL statement the script runs becomes a function over those sequences, following the SQLite semantics it relies on:

- `SELECT DISTINCT` keeps first occurrences.
- Integer division and `CAST(... AS INT)` truncate toward zero.
- `LIMIT`/`OFFSET` select a window of the ordered rows.
- `BINARY` collation orders text by code point.

Modules:

- `Text` (`text.dfy`): `split_rows` and `clean_newline`, on top of Python's `str.split`, `str.join` and `str.replace`.
- `Loader` (`loader.dfy`): `parse_files`, as a method whose loop updates the header list the way the source does. It also holds the statement texts of `create_table` and `insert_rows`, including the `IndexError` that an empty row list raises.
- `PatientEvents` (`patient_events.dfy`): the `INSERT INTO patient_events SELECT ...` join and its filter.
- `Export` (`export.dfy`): the `--run_json` loop, as a method building the output directory, which is a map from path to document.
- `Sql` (`sql.dfy`), `Median` (`median.dfy`): `DISTINCT`, truncating division, text order, and the shared median rule.
- `Analysis` (`analysis.dfy`): the four reporter queries.
- `Wrappers` (`wrappers.dfy`): `Option` and `Result`.

Dates enter the reporter through `JULIANDAY`: event dates as `JULIANDAY(date(date))` (lines 170-174, 214-216) and birth dates as `JULIANDAY(A.birth_date)` (line 214). Both are the parameter `day: string -> int`, which maps a date text to its day number.

Three behaviours of the queries the model keeps:

- **Age rounding.** Age is truncated, not floored. `CAST(x / 365 AS INT)` (lines 221-229) rounds toward zero, which differs from a floor only for a negative age, that is, a birth date after the last event. The model uses truncation (`Sql.TruncDiv`).
- **Median on an empty population.** The code computes offset `(0 - 1) / 2 = 0` (SQLite truncates) and limit 2 (lines 185-186, 227-228), selects nothing, and averages nothing, giving NULL. The model does the same (`Median.EmptyMedian`).
- **Abort after the gender query.** Lines 205-206 index the first two gender groups outside any `try`. With fewer than two groups, for example on an empty view or a view with one gender, this raises `IndexError` and the script stops before the age query at lines 209-231. `Analysis.RunAnalysis` records the age result as not reached in that case (`Analysis.AgeReachedTwoGenders`).

## Model

| member | source | states |
|---|---|---|
| Text.Split | generate_patient_data.py:7-8 | Python's `split` on one separator always yields at least one field |
| Text.SplitCount | generate_patient_data.py:7-8 | a line with k separators splits into k + 1 fields; empty fields are kept |
| Text.SplitFieldsFree | generate_patient_data.py:7-8 | no field contains the separator |
| Text.SplitFieldsAvoid | generate_patient_data.py:7-8 | a character absent from the line is absent from every field |
| Text.JoinSplit | generate_patient_data.py:7-8 | joining the fields back with the separator restores the line |
| Text.SplitJoin | generate_patient_data.py:7-8 | splitting a join of separator-free fields gives the fields back |
| Text.SplitNoSep | generate_patient_data.py:7-8 | a line without the separator is a single field equal to the line |
| Text.CleanNewlineFree | generate_patient_data.py:11-12 | `replace('\n', '')` leaves no newline |
| Text.CleanNewlineKeeps | generate_patient_data.py:11-12 | every other character keeps its number of occurrences |
| Text.CleanNewlineConcat | generate_patient_data.py:11-12 | the replacement works piecewise over a concatenation |
| Text.CleanNewlineNoop | generate_patient_data.py:11-12 | a row without newline is unchanged |
| Text.CleanNewlineIdempotent | generate_patient_data.py:11-12 | cleaning twice is cleaning once |
| Text.SplitRows | generate_patient_data.py:7-8 | `split_rows`: Python's `split` on the pipe character; its field count, round trip and separator-free fields are stated by `Text.SplitCount`, `Text.JoinSplit`, `Text.SplitJoin` and `Text.SplitFieldsFree` on `Text.Split` |
| Text.CleanNewline | generate_patient_data.py:11-12 | `clean_newline`: removes every newline and keeps everything else in order, as `Text.CleanNewlineFree`, `Text.CleanNewlineKeeps` and `Text.CleanNewlineConcat` state |
| Loader.AnnotateHeaders | generate_patient_data.py:61-66 | `demo`: first header gets ` PRIMARY KEY` and the rest is unchanged; `events`: the foreign-key clause is appended after the unchanged headers; any other table: untouched |
| Loader.ParseFiles | generate_patient_data.py:55-71 | one load per table, in mapping order; each load has the annotated header line and one row per later line, produced by the in-place header updates of the loop |
| Loader.ParseFile | generate_patient_data.py:55-69 | one file's load: annotated headers and one row per data line, as `Loader.RowsOfFile` and `Loader.CreateTableColumns` state |
| Loader.RowsOfFile | generate_patient_data.py:57-69 | every line after the header becomes exactly one row, in order; the row has one field more than the line has pipes, re-joins to the line without newlines, and no field holds a pipe or a newline; an empty file has no row |
| Loader.ColumnListRoundTrip | generate_patient_data.py:19 | the `CREATE TABLE` column list holds each header once, in order, when no header contains a comma |
| Loader.CreateTableSql | generate_patient_data.py:15-20 | the `CREATE TABLE IF NOT EXISTS <table> (<columns>)` statement; `Loader.CreateTableColumns` reads its columns back |
| Loader.CreateTableColumns | generate_patient_data.py:55-70 | for a parsed file whose header line has no comma, the statement text is `CREATE TABLE IF NOT EXISTS <table> (`, a column list and `)`, and the column list splits back into the annotated headers: one per field of the header line, plus the foreign-key clause for `events` |
| Loader.ConstraintsCommaFree | generate_patient_data.py:61-66 | neither the primary-key suffix nor the foreign-key clause holds a comma, so neither splits a column |
| Loader.PlaceholdersShape | generate_patient_data.py:31 | `"?," * (n - 1) + "?"` is n `?` separated by n - 1 commas, splitting back into n placeholders |
| Loader.Placeholders | generate_patient_data.py:31 | `"?," * (n - 1) + "?"`; its shape is stated by `Loader.PlaceholdersShape` |
| Loader.PlaceholdersJoin | generate_patient_data.py:31 | the placeholder list equals n `?` joined with commas |
| Loader.PlaceholdersCount | generate_patient_data.py:31 | the placeholder list holds n `?` and n - 1 commas |
| Loader.InsertSql | generate_patient_data.py:27-35 | the insert fails with `IndexError` exactly when there is no row; otherwise its text is `INSERT INTO <table> VALUES (<placeholders for the first row>)` |
| Loader.InsertPlaceholderCount | generate_patient_data.py:31 | the insert has one `?` per field of the first row, beyond those in the table name |
| Loader.InsertHasOnePlaceholderPerField | generate_patient_data.py:67-71 | a file with a data line gives an insert with one `?` per field of its first data line |
| Loader.EmptyDataFails | generate_patient_data.py:27-35 | a file with no data line reaches the `IndexError` branch |
| PatientEvents.ViewMembership | generate_patient_data.py:106-125 | a row is in `patient_events` exactly when a `demo` row and an `events` row with equal `patient_id` and all five required fields non-empty give it |
| PatientEvents.View | generate_patient_data.py:106-125 | the rows `INSERT INTO patient_events SELECT ...` adds; characterised by `PatientEvents.ViewMembership`, `PatientEvents.ViewCount` and `PatientEvents.JoinOrderIrrelevant` |
| PatientEvents.MatchesOfMembership | generate_patient_data.py:117-125 | the rows one event contributes are exactly its qualifying `demo` partners |
| PatientEvents.ViewFieldsNonEmpty | generate_patient_data.py:120-124 | code, version, date, birth date and gender are non-empty in every row of the view |
| PatientEvents.ViewComplete | generate_patient_data.py:117-125 | every qualifying pair appears in the view |
| PatientEvents.MatchesOfUnique | generate_patient_data.py:117-119 | with unique `demo` ids an event joins at most one patient |
| PatientEvents.ViewCount | generate_patient_data.py:106-125 | with unique `demo` ids the view has one row per event whose patient exists and whose required fields are non-empty |
| PatientEvents.JoinOrderIrrelevant | generate_patient_data.py:117-119 | both loop orders of the join give the same rows with the same multiplicities |
| Sql.Distinct | generate_patient_data.py:131 | `SELECT DISTINCT` keeps exactly the rows present, each once |
| Sql.NoDuplicatesCard | generate_patient_data.py:160 | a duplicate-free column is as long as its set of values is large |
| Sql.TruncDivSpec | generate_patient_data.py:221-229 | SQLite's integer quotient is the whole part of a / b, with the sign of a |
| Sql.TruncDivMonotonic | generate_patient_data.py:221-222 | truncating division is monotonic in the numerator |
| Sql.TextLessTransitive | generate_patient_data.py:202 | the text order of `ORDER BY` is transitive |
| Sql.TextLessTotal | generate_patient_data.py:202 | any two different texts are ordered one way or the other |
| Sql.TextLessIrreflexive | generate_patient_data.py:202 | no text precedes itself |
| Export.CodingSystem | generate_patient_data.py:142-145 | version `9` gives the ICD-9-CM URI, `10` the ICD-10 URI, anything else NULL |
| Export.RunJson | generate_patient_data.py:131-154 | starting from the files already in the directory, the method's nested loops write, in `DISTINCT` order, each patient's document under its path; a path written again is replaced and every other file is kept |
| Export.RowsOfSpec | generate_patient_data.py:140-148 | the per-patient query returns exactly the view rows with that id, with their multiplicities, and is empty exactly when the id is absent |
| Export.Patients | generate_patient_data.py:131 | `SELECT DISTINCT patient_id, birth_date, gender`; stated by `Export.PatientsSpec` |
| Export.EventsQuery | generate_patient_data.py:140-148 | the per-patient events query; its rows are stated by `Export.RowsOfSpec` and `Export.DocumentEvents` |
| Export.DocumentFor | generate_patient_data.py:133-152 | the document built for one patient; stated by `Export.DocumentEvents` and `Export.SystemsAreKnown` |
| Export.JsonPath | generate_patient_data.py:74-77 | the file path of a patient's document; injective by `Export.JsonPathInjective` |
| Export.DocumentEvents | generate_patient_data.py:133-152 | a document carries the patient's birth date and gender and one entry per event row, in order, with date, mapped system and code; it is empty exactly when the patient has no row |
| Export.SystemsAreKnown | generate_patient_data.py:142-145 | every entry's system is NULL or one of the two URIs |
| Export.PatientsSpec | generate_patient_data.py:131 | the exported patients are exactly the triples of the view, each once |
| Export.JsonPathInjective | generate_patient_data.py:75-77 | two ids share a path exactly when they are equal |
| Export.WrittenSpec | generate_patient_data.py:74-81 | the files present are exactly the paths of the exported patients |
| Export.WrittenDistinct | generate_patient_data.py:74-81 | with distinct ids one file per patient is written, each holding that patient's document |
| Export.ViewOneTriplePerId | generate_patient_data.py:106-125 | with unique `demo` ids an id has one birth date and one gender throughout the view |
| Export.PatientsDistinctIds | generate_patient_data.py:131 | then the exported triples have pairwise different ids |
| Export.SameIdSamePatient | generate_patient_data.py:131 | then two exported triples with the same id are the same triple |
| Export.ExportAfterLoad | generate_patient_data.py:106-154 | after a load with unique `demo` ids the export writes exactly one file per patient of the view, holding that patient's document, and no other file |
| Median.Insert | generate_patient_data.py:182-184 | inserting into a sorted column keeps it sorted and adds exactly the value |
| Median.SortAscending | generate_patient_data.py:182-184 | `ORDER BY` yields a sorted permutation of the column |
| Median.SortedUnique | generate_patient_data.py:182-184 | two sorted permutations of one column are equal, so the ordered column is well defined |
| Median.LimitOffset | generate_patient_data.py:185-186 | `LIMIT k` returns at most k rows |
| Median.MedianWindow | generate_patient_data.py:185-186 | for n >= 1 the window lies inside the column; it is the middle row when n is odd and the two middle rows when n is even |
| Median.MiddleValues | generate_patient_data.py:182-186 | the ordered window the median averages; stated by `Median.MiddleValuesSpec` |
| Median.MedianOf | generate_patient_data.py:181-187 | `AVG` of the window, truncated; stated by `Median.MedianDefined`, `Median.OddMedianCentred`, `Median.EvenMedianMean` and `Median.MedianBetween` |
| Median.EmptyMedian | generate_patient_data.py:181-187 | on no rows the offset is 0, the limit 2, and the median NULL |
| Median.Window | generate_patient_data.py:184-186 | the window of n ordered values is `[s[n/2]]` for odd n, `[s[n/2-1], s[n/2]]` for even n >= 2, and empty for n = 0 |
| Median.MiddleValuesSpec | generate_patient_data.py:182-186 | the averaged values are the middle one or two of the sorted column |
| Median.OddMedianCentred | generate_patient_data.py:181-187 | for an odd column the median is the sorted middle value, with as many values at or below it as at or above it |
| Median.EvenMedianMean | generate_patient_data.py:181-187 | for an even column the median is the truncated mean of the two middle values |
| Median.TruncMeanBetween | generate_patient_data.py:181-187 | the truncated mean of two values lies between them |
| Median.MaxOf | generate_patient_data.py:179 | `MAX` is a value of the column and at least every value |
| Median.MinOf | generate_patient_data.py:180 | `MIN` is a value of the column and at most every value |
| Median.MedianDefined | generate_patient_data.py:223-229 | the median is NULL exactly when the column is empty |
| Median.MedianBetween | generate_patient_data.py:220-229 | the median, scaled and truncated like `MAX` and `MIN`, lies between them |
| Median.MedianExampleOdd | generate_patient_data.py:181-187 | the median of 1..5, in any order, is 3 |
| Median.MedianExampleEven | generate_patient_data.py:181-187 | the median of 1..4, in any order, is 2, the truncated 2.5 |
| Analysis.EventDays | generate_patient_data.py:170-175 | every patient of the view has at least one event day |
| Analysis.TimelineBounds | generate_patient_data.py:170-175 | every event day of a patient lies between its `min(date)` and its `max(date)` |
| Analysis.TimelineEnds | generate_patient_data.py:170-175 | the first and last days are days of the patient's own events |
| Analysis.TimelineIds | generate_patient_data.py:166-176 | the timeline CTE has exactly the patient ids of the view, each once |
| Analysis.TimelineLengthsSpec | generate_patient_data.py:166-176 | one `event_length` per distinct patient, never negative, including every row's patient |
| Analysis.BirthPairs | generate_patient_data.py:210-218 | the age CTE has exactly the (patient_id, birth_date) pairs of the view, each once |
| Analysis.AgeDaysSpec | generate_patient_data.py:210-218 | one `age` per distinct (patient, birth date) pair, including every row's |
| Analysis.AgeOnePerPatient | generate_patient_data.py:210-218 | with one birth date per patient there is one age per distinct patient |
| Analysis.Summary | generate_patient_data.py:220-230 | the three statistics are NULL exactly when the column is empty |
| Analysis.SummaryOrdered | generate_patient_data.py:220-230 | min <= median <= max; every value, scaled and truncated the same way, lies between min and max; both bounds are attained; the median is the median rule's |
| Analysis.TimelineReport | generate_patient_data.py:165-189 | on a non-empty view 0 <= min <= median <= max of timeline lengths, each patient's length in between |
| Analysis.AgeReport | generate_patient_data.py:209-231 | on a non-empty view min <= median <= max of ages in years, each row's truncated age in between |
| Analysis.ReportPresent | generate_patient_data.py:160-231 | a non-empty view reports at least one patient, the timeline statistics and at least one gender group, and age statistics whenever the age query runs |
| Analysis.EmptyReport | generate_patient_data.py:160-231 | an empty view reports 0 patients, a NULL timeline and no gender group, and stops before the age query |
| Analysis.ValidPatientsIsExportCount | generate_patient_data.py:160 | with one triple per id the distinct-patient count is the number of exported documents |
| Analysis.ValidPatients | generate_patient_data.py:160 | `COUNT(DISTINCT patient_id)`; related to the export by `Analysis.ValidPatientsIsExportCount` |
| Analysis.TimelineLengths | generate_patient_data.py:166-176 | the `event_length` column of the timeline CTE; stated by `Analysis.TimelineLengthsSpec` |
| Analysis.AgeDays | generate_patient_data.py:210-218 | the `age` column of the age CTE; stated by `Analysis.AgeDaysSpec` and `Analysis.AgeOnePerPatient` |
| Analysis.RunAnalysis | generate_patient_data.py:157-235 | the reporter's results; stated by `Analysis.ReportPresent`, `Analysis.EmptyReport` and `Analysis.AgeReachedTwoGenders` |
| Analysis.AgeReachedTwoGenders | generate_patient_data.py:196-231 | the age query runs exactly when the view holds two different genders; otherwise indexing the second gender group at line 206 raises first |
| Analysis.InsertText | generate_patient_data.py:202 | inserting a new gender into a strictly ascending list keeps it strictly ascending and adds exactly that gender |
| Analysis.SortTexts | generate_patient_data.py:202 | sorting distinct genders gives a strictly ascending list of the same genders |
| Analysis.Genders | generate_patient_data.py:196-202 | the groups are the genders present in the view, strictly ascending |
| Analysis.GenderCounts | generate_patient_data.py:196-202 | the groups come in strictly ascending code-point order of gender, as `ORDER BY 1` sorts them, so no gender has two groups |
| Analysis.GenderCountsCover | generate_patient_data.py:196-202 | every gender of the view has a group |
| Analysis.GenderCountsGroups | generate_patient_data.py:196-202 | every group's gender occurs in the view, and it counts that gender's distinct patients, at least one |
| Analysis.GenderCountsTotal | generate_patient_data.py:196-202 | the group counts add up to the number of distinct (patient_id, gender) pairs |

## Left out

- SQLite as a store: persistence in `patient.db`, connections, `isolation_level`, and enforcement of the primary- and foreign-key constraints. The model produces the statement texts and the joined rows the statements describe. It does not reject a duplicate `demo` row, and it does not stop `executemany` part-way after a failing row.
- Exception printing in `create_table`, `insert_rows`, `run_query` and `run_command`: only the `IndexError` of `rows[0]` is modelled, as `Loader.LoadError`. A query that fails and returns `None` is not modelled; every query is taken to succeed.
- File and directory I/O: `open`, `readline`/`readlines` (a file is given as its list of lines), `os.path.isdir`, `os.mkdir` and `json.dump`. The output directory is a map from path to document, and a later write to the same path replaces the earlier one.
- `os.path.join` on an absolute or `..` patient id: `Export.JsonPath` is plain concatenation onto the relative directory.
- `Export.RunJson`: the per-patient query text is built by pasting `patient_id` between quotes. An id containing a quote would change that query. The model filters by id equality instead.
- Row order: the order of a join and of a query without `ORDER BY` is left to SQLite's planner. The model fixes table order, with events as the outer loop of the join. `PatientEvents.JoinOrderIrrelevant` shows the rows themselves do not depend on that choice.
- Date parsing: `date()` and `JULIANDAY()` are the parameter `day`. Dates SQLite cannot parse, which it turns into NULL, are not modelled.
- Floating point: `AVG` and `JULIANDAY` work in floating point. The model computes `AVG` of the one or two middle values and the division by 365 exactly, as a rational truncated toward zero.
- The printing of the report, including the positional labelling of the first two gender groups as "female" and "male" (generate_patient_data.py:204-206). The `IndexError` that this indexing raises with fewer than two groups is modelled, as `Analysis.AgeResult.NotReached`. The printed text itself is not.
- Analysis.AgeAt: birth dates are taken as plain dates. `JULIANDAY(A.birth_date)` at line 214 is applied without `date()`, so a birth date with a time of day gives a fractional day number. For example, `'2000-01-02 12:00'` against a last event on `'2001-01-01'` gives 364.5 days and age 0 in the source, while the model's whole day numbers give 365 days and age 1. Times of day and fractional days are not modelled.
- `argparse` and the flag dispatch in `main`.
- Tests/test.py and mssql_pipeline.py are not part of this model.
