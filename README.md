# synthea-helper, modelled in Dafny

This project models the cohort and table pipeline of synthea-helper. The
pipeline works on the tables of a Synthea synthetic health record: one
patient table and ten clinical event tables (allergy, careplan, condition,
device, encounter, imaging study, immunization, medication, observation,
procedure). The model covers five steps:

- **Cohort selection** (`generate_cohort`). The case set is the
  intersection of the patient-id sets of all criteria.
- **Sampling** (`generate_cohort_sample`). A working cohort is a sample of
  cases followed by a sample of controls.
- **Annotation** (`filter_cohort_data` with the nested `string_to_datetime`
  and `age_at_event`):
  - every table is restricted to the cohort;
  - the patient table gets a CASE flag;
  - date strings become dates;
  - every table gets an AGE column at position 3;
  - DEAD becomes 0/1.
- **Unification** (`join_synthea_tables`). Each domain table is reduced to
  one row per (PATIENT, DESCRIPTION), tagged with its CLASS and coding
  SYSTEM, and the results are concatenated into one event log.
- **Sheet range** (`sheet_range` / `iter_all_strings` in the spreadsheet
  export). This builds the `A1:<column label><rows+1>` range.

The files:

- `records.dfy`: tables are a header plus row records. A cell is a `Value`:
  missing (NaN), text, a parsed date, or an integer. `wrappers.dfy` holds
  `Option` and `Result`.
- `dates.dfy`: the proleptic Gregorian calendar, day numbers and the
  `YYYY-MM-DD` text form.
- `rows.dfy`: row-wise helpers: `isin` filtering, `apply`, and an `apply`
  whose first exception stops the run.
- `cohort.dfy`: cohort selection and sampling. The source loops become
  methods with loop invariants.
- `annotate.dfy`: the annotation as pure functions, plus what it promises.
- `filter.dfy`: in the source, the annotation assigns columns of data frames
  in place. Here those steps are methods of the `PatientTable` and
  `EventTable` classes. Each is proved to leave exactly the state the pure
  functions describe.
- `dedup.dfy`, `sorting.dfy`, `concat.dfy`, `unify.dfy`: this code covers
  - `drop_duplicates`,
  - `sort_values(ascending=False)`,
  - `pd.concat`,
  - the table unifier.
- `column_label.dfy`: the column-label enumeration and the sheet range.

The errors the modelled code raises are values of the model's `Error`
type. Two exceptions are listed under "## Left out": the `TypeError` of
sorting a DATE column that mixes dates with text, and the `KeyError` of
selecting a column a table does not have. `Error` has seven cases:

- no criteria: indexing an empty argument tuple;
- a sample size that is negative or larger than its population: `ValueError`;
- a missing birth date: `KeyError`;
- a birth date that is not a date: `TypeError`;
- an existing column: `ValueError` from `insert`;
- a value of more than one column: `ValueError` from `insert`;
- an insert position past the end: `IndexError` from `insert`.

The clock is a parameter: `datetime.now()` becomes `today`. Where
`random.sample` picks is left open by a nondeterministic choice.

Three behaviours follow the code rather than the intent one might read into
it:

- When the first ten characters do not parse as a date,
  `string_to_datetime` returns those ten characters, not the value it was
  given: the slice is taken before `strptime` fails.
  `Annotate.StringToDatetimeText` states the code's behaviour.
- The birth-date map is built from the patient table after it is
  restricted to the cohort. An event row of a patient outside that table
  therefore raises a lookup error. `Annotate.MissingBirthdateComesFromEvents`
  states when that happens.
- A table that the cohort filter leaves without rows cannot take its AGE
  column. On a frame with no rows, pandas' `apply(..., axis=1)` only probes
  the function, swallows the error of the probe, and returns a copy of the
  two selected columns. `insert` then refuses a two-column value.
  `Annotate.EmptyTableAgeFails` states that case, and
  `Annotate.AnnotateCohortNeedsRows` states that a successful run left rows
  in every table.

## Model

| member | source | states |
|---|---|---|
| Cohort.GenerateCohort | synthea_functions.py:56-75 | No criterion set is an error. Otherwise the list has no duplicates, and a patient is in it iff the patient is in every set. It also returns the two reported counts: the list's length, and the number of patient rows outside it. |
| Cohort.Intersection | synthea_functions.py:68-70 | `intersection_update` folded over the sets; `Cohort.IntersectionMembers` proves it holds exactly the patients in every set. |
| Cohort.IntersectionMembers | synthea_functions.py:68-70 | A patient is in the folded `intersection_update` iff the patient is in every set. |
| Cohort.IntersectionExample | synthea_functions.py:68-70 | {p1, p2} ∩ {p2, p3} = {p2}. |
| Cohort.CountOutside | synthea_functions.py:73 | The "not meeting criteria" count is at most the number of patient rows. |
| Cohort.Controls | synthea_functions.py:92 | The controls are exactly the patient ids of the table that are not cases. |
| Cohort.CountOutsideIsControls | synthea_functions.py:73-92 | The "not meeting criteria" count of `generate_cohort` equals the size of the control population `generate_cohort_sample` draws from. |
| Cohort.Sample | synthea_functions.py:90 | `random.sample`: an error iff k < 0 or k exceeds the population. Otherwise there are k draws from distinct positions, as a sub-multiset of the population. |
| Cohort.GenerateCohortSample | synthea_functions.py:77-97 | An error iff either sample is impossible. The case sample is drawn first, so its error is the one reported when both fail. Otherwise caseN + controlN ids: the first caseN drawn from the cases, the rest from the controls. |
| Cohort.ControlsDistinct | synthea_functions.py:92 | Unique patient ids give duplicate-free controls. |
| Cohort.CohortSampleDistinct | synthea_functions.py:90-95 | With unique ids, the sampled cohort has no duplicates. Cases and controls never overlap. |
| Rows.KeepCohort | synthea_functions.py:112-122 | `df[df["PATIENT"].isin(cohort)]`; its meaning is proved by `KeepCohortCount`, `KeepCohortMembers` and `KeepCohortAppend`. |
| Rows.KeepCohortCount | synthea_functions.py:112-122 | `df[df.PATIENT.isin(cohort)]` keeps each row with its multiplicity iff its patient is in the cohort, and drops the others. |
| Rows.KeepCohortMembers | synthea_functions.py:112-122 | A row survives the filter iff it is in the table and its patient is in the cohort. |
| Rows.KeepCohortAppend | synthea_functions.py:112-122 | The filter works row by row, in table order: filtering a concatenation is concatenating the filtered parts. |
| Rows.KeepCohortIdempotent | synthea_functions.py:112-122 | Filtering twice by the same cohort is filtering once. |
| Rows.Map | synthea_functions.py:142-153 | A column-wise `apply` keeps the number of rows; `Rows.MapAt` proves each row is the function of its input row. |
| Rows.MapAt | synthea_functions.py:142-153 | The i-th row of an elementwise `apply` is f of the i-th input row. |
| Rows.MapWith | synthea_functions.py:125-126 | An `apply` with a context keeps the number of rows; `Rows.MapWithAt` proves each row is f of its input row and the context. |
| Rows.MapWithAt | synthea_functions.py:125-126 | The i-th row of a context `apply` is f of the i-th input row and the context. |
| Rows.TryMap | synthea_functions.py:176-190 | `apply(axis=1)` of a function that may raise; `TryMapOk`, `TryMapFirstError` and `TryMapErrPrefix` prove when it succeeds and which error it raises. |
| Rows.TryMapErrPrefix | synthea_functions.py:176-190 | Once a prefix of the rows raises, the whole `apply` raises that same error: later rows are never reached. |
| Rows.TryMapOk | synthea_functions.py:176-190 | A row-wise `apply` succeeds iff every row succeeds. Then each output row is the function of its input row. |
| Rows.TryMapFirstError | synthea_functions.py:176-190 | A failing `apply` raises the error of its first failing row. |
| Annotate.StringToDatetime | synthea_functions.py:128-139 | `string_to_datetime`; its meaning is proved by `StringToDatetimeText`, `DatePrefixParses` and `StringToDatetimeIdempotent`. |
| Annotate.Truncate10 | synthea_functions.py:136 | `s[:10]` is the prefix of length min(10, \|s\|). |
| Annotate.StringToDatetimeText | synthea_functions.py:128-139 | Text becomes the date its first ten characters spell. When they spell none, it becomes exactly those ten characters. |
| Annotate.DatePrefixParses | synthea_functions.py:136-137 | Text that starts with a formatted date parses to that date, whatever follows (e.g. a time stamp). |
| Annotate.StringToDatetimeExamples | synthea_functions.py:128-139 | "2020-06-15T10:00:00Z" gives 2020-06-15. "" stays "". A missing value stays missing. |
| Annotate.StringToDatetimeIdempotent | synthea_functions.py:142-153 | Parsing an already parsed column changes nothing. |
| Dates.ParseDate | synthea_functions.py:137 | `strptime(s, "%Y-%m-%d")`; `ParseFormat`, `FormatParse` and `ParseDateExactly` prove it accepts exactly the formatted calendar dates. |
| Dates.ParseFormat | synthea_functions.py:137 | `strptime('%Y-%m-%d')` reads back every formatted calendar date. |
| Dates.FormatParse | synthea_functions.py:137 | Whatever parses is the zero-padded form of the date it gives. |
| Dates.ParseDateExactly | synthea_functions.py:137 | A string parses to d iff it is d's `YYYY-MM-DD` form. |
| Dates.DaysInMonth | synthea_functions.py:137 | Months have 28 to 31 days. February has 29 days exactly in leap years. |
| Dates.DayNumber | synthea_functions.py:169 | The ordinal behind `date - date`; `DaysBeforeYearIsSum`, `NextDayNumber`, `DayNumberMonotone` and `DayNumberInjective` prove it counts calendar days. |
| Dates.DaysBetween | synthea_functions.py:169 | `event - birthdate` in days; `DaysBetweenSign` and `NextDayNumber` prove that it counts calendar days with the right sign. |
| Dates.DaysBetweenSign | synthea_functions.py:169 | The day difference is positive exactly when the first date is earlier, zero exactly on the same date, and antisymmetric. |
| Dates.DaysBeforeYearIsSum | synthea_functions.py:169 | The closed-form day count before a year equals the sum of the year lengths. |
| Dates.NextDayNumber | synthea_functions.py:169 | Consecutive calendar days have consecutive day numbers, so date subtraction counts days. |
| Dates.DayNumberMonotone | synthea_functions.py:169 | Later dates have larger day numbers. |
| Dates.DayNumberInjective | synthea_functions.py:169 | Different dates have different day numbers. |
| Annotate.AgeInYears | synthea_functions.py:169-173 | The age is the largest n with 365.25·n ≤ the days between birth and event. |
| Annotate.AgeIsFloorOfYears | synthea_functions.py:173 | The integer form is `floor(days / 365.25)`. |
| Annotate.AgeMonotone | synthea_functions.py:169-173 | A later event never gives a younger age. |
| Annotate.AgeExample | synthea_functions.py:169-173 | Born 2000-01-01, at 2020-06-15 the age is 20. |
| Annotate.AgeAtEvent | synthea_functions.py:158-173 | `age_at_event`; `AgeAtEventFails` and `AgeFallsBackToToday` prove when it raises and which date it measures to. |
| Annotate.AgeAtEventFails | synthea_functions.py:166-171 | The lookup raises iff the patient has no birth-date entry, or the entry is not a date. |
| Annotate.AgeFallsBackToToday | synthea_functions.py:168-171 | An event value that is not a date counts as today. |
| Annotate.BirthMap | synthea_functions.py:156 | The map's keys are exactly the patients of the rows. |
| Annotate.BirthMapLastWins | synthea_functions.py:156 | A patient's entry is the birth date of the last row naming the patient. |
| Annotate.RecodeDead | synthea_functions.py:178-179 | DEAD becomes 0 or 1. It is 0 iff it was missing or 0. |
| Annotate.SetColumn | synthea_functions.py:125 | `df["CASE"] = 0` appends CASE at the end when it is new and leaves the header as it was when it exists. Either way the old labels keep their places. |
| Annotate.InsertColumn | synthea_functions.py:176 | `DataFrame.insert`, checked in pandas' order; `InsertColumnAt` proves when it succeeds and where the label goes. |
| Annotate.InsertColumnAt | synthea_functions.py:176 | `insert` succeeds iff the label is new, the value is a single column, and the position is within the header. The label then stands at that position, and removing it gives the old header. |
| Annotate.AddPatientAgesOk | synthea_functions.py:156-176 | The patient table gets its AGE iff it has rows, no AGE column yet, at least three columns, and every row's age can be computed. |
| Annotate.AddEventAgesOk | synthea_functions.py:181-190 | An event table gets its AGE iff it has rows, no AGE column yet, at least three columns, and every row's age can be computed. |
| Annotate.AddPatientAges | synthea_functions.py:176 | `patient_df.insert(3, "AGE", ...apply(age_at_event))`; `AddPatientAgesOk`, `AddPatientAgesRows` and `EmptyTableAgeFails` prove when it succeeds and what it returns. |
| Annotate.AddPatientAgesRows | synthea_functions.py:176 | On success AGE stands at position 3 of the header, and each row is its input row with the age of its own DEAD value. |
| Annotate.AddEventAges | synthea_functions.py:181-190 | An event table's `insert(3, "AGE", ...)`; `AddEventAgesOk`, `AddEventAgesRows` and `EmptyTableAgeFails` prove when it succeeds and what it returns. |
| Annotate.AddEventAgesRows | synthea_functions.py:181-190 | On success AGE stands at position 3 of the header, and each row is its input row with the age at its DATE. |
| Annotate.AgeEvents | synthea_functions.py:181-190 | The ten event-table inserts in order; `AgeEventsOk` and `AgeEventsFirstError` prove what it returns. |
| Annotate.EmptyTableAgeFails | synthea_functions.py:176-190 | A table without rows makes `insert` fail with the two-column `ValueError`. |
| Annotate.PreparePatients | synthea_functions.py:112-143 | The patient table filtered, flagged and parsed; `PreparePatientsAt` proves each row. |
| Annotate.PreparePatientsAt | synthea_functions.py:112-143 | The prepared patient table has one row per kept row, in order: the kept row with CASE set and BIRTHDATE and DEAD parsed. |
| Annotate.PrepareEvent | synthea_functions.py:113-153 | An event table filtered and with DATE parsed; `PrepareEventAt` proves each row. |
| Annotate.PrepareEventAt | synthea_functions.py:113-153 | The prepared event table has one row per kept row, in order: the kept row with DATE parsed. |
| Annotate.PrepareEvents | synthea_functions.py:113-153 | Every event table is prepared on its own: the k-th output is the k-th table prepared. |
| Annotate.AnnotatedPatientCells | synthea_functions.py:125-179 | An annotated patient row keeps its PATIENT, has CASE 1 exactly for the cases, and DEAD 0 exactly where no death date was recorded, 1 elsewhere. |
| Annotate.AnnotateCohort | synthea_functions.py:99-192 | `filter_cohort_data` as one function; `AnnotatedPatients`, `AnnotatedEvents`, `AnnotateCohortNeedsRows` and the error lemmas below prove what it returns. |
| Annotate.AnnotateCohortNeedsRows | synthea_functions.py:112-190 | A successful run left at least one row in the patient table and in every event table. |
| Annotate.AnnotatedPatients | synthea_functions.py:112-179 | On success the patient table holds the cohort's rows in order, with AGE inserted at 3 after CASE. Each row is its kept row with CASE set (1 iff the patient is a case), BIRTHDATE parsed, DEAD parsed and recoded to 0/1, and an AGE. All other cells are the kept row's; `AnnotatedPatientCells` draws out the CASE and DEAD values. |
| Annotate.PatientAgeFromOwnBirthdate | synthea_functions.py:156-176 | With unique patient ids, a patient's AGE is the age from the patient's own parsed birth date to the death date, or to today when not dead. |
| Annotate.AnnotatedEvents | synthea_functions.py:113-190 | On success every event table holds its cohort rows in order, with DATE parsed and AGE inserted at 3, and nothing else changed. Each AGE is the age from the birth date that the filtered patient table records for the row's patient, to the parsed DATE, or to today when DATE is not a date. |
| Annotate.PatientAgesNeverMissing | synthea_functions.py:156-176 | The patient table itself never fails the birth-date lookup: its map is built from it. |
| Annotate.CohortPatientsHaveBirthdates | synthea_functions.py:112-156 | Every cohort patient of the patient table has an entry in the birth-date map built from the filtered table. |
| Annotate.MissingBirthdateComesFromEvents | synthea_functions.py:156-190 | A lookup error names a cohort patient who has an event row but no row in the cohort-filtered patient table. |
| Annotate.AgeEventsOk | synthea_functions.py:181-190 | The event tables are annotated one after another, all or none. |
| Annotate.AgeEventsFirstError | synthea_functions.py:181-190 | A failing run reports the error of a table that raises, and every table before it succeeds. |
| Filter.PatientTable.FilterByCohort | synthea_functions.py:112 | The rows become the cohort rows of the old rows. The header is unchanged. |
| Filter.PatientTable.FlagCases | synthea_functions.py:125-126 | CASE is set on every row, 1 exactly for cases. |
| Filter.PatientTable.ParseDates | synthea_functions.py:142-143 | BIRTHDATE and DEAD are parsed on every row. |
| Filter.PatientTable.InsertAge | synthea_functions.py:176 | On success the table becomes the aged table. On an error the table is unchanged. |
| Filter.PatientTable.RecodeDeadColumn | synthea_functions.py:178-179 | DEAD is recoded on every row. |
| Filter.EventTable.FilterByCohort | synthea_functions.py:113-122 | The rows become the cohort rows of the old rows. |
| Filter.EventTable.ParseDates | synthea_functions.py:144-153 | DATE is parsed on every row. |
| Filter.EventTable.InsertAge | synthea_functions.py:181-190 | On success the table becomes the aged table. On an error it is unchanged. |
| Filter.PrepareEventTables | synthea_functions.py:113-153 | The loop over the event tables gives the filtered, date-parsed tables. |
| Filter.AgeEventTables | synthea_functions.py:181-190 | The loop adding AGE to each event table equals the all-or-first-error annotation. |
| Filter.FilterCohortData | synthea_functions.py:99-192 | The in-place pipeline returns exactly the annotation described by `Annotate.AnnotateCohort`. |
| Dedup.DedupBy | synthea_functions.py:212 | `drop_duplicates(subset=key)` keeping the first row of each key; proved by the `DedupFrom…` lemmas below. |
| Dedup.DedupFromKeys | synthea_functions.py:212 | `drop_duplicates(subset=key)` keeps only rows of the input, with no key twice. |
| Dedup.DedupFromCovers | synthea_functions.py:212 | Every key of the input keeps a row. |
| Dedup.DedupFromFirst | synthea_functions.py:212 | A kept row is the first row of the input with its key. |
| Dedup.DedupSnoc | synthea_functions.py:212 | A further input row is appended to the result exactly when its key is new, so the kept rows stay in input order. |
| Dedup.DedupIdempotent | synthea_functions.py:249 | Dropping duplicates twice is dropping them once. |
| Sorting.SortDown | synthea_functions.py:239 | `sort_values(ascending=False)` as an insertion sort on a rank; `SortDownSorted` proves it sorted and a permutation. |
| Sorting.SortDownSorted | synthea_functions.py:239 | `sort_values(ascending=False)` orders by the key, largest first, and only reorders rows (same multiset). |
| Unify.LatestObservations | synthea_functions.py:239-240 | Observations sorted by DATE, latest first, then deduplicated by (PATIENT, DESCRIPTION); `LatestObservationKept` proves each pair keeps its latest row. |
| Unify.LatestObservationKept | synthea_functions.py:239-240 | Every observation (PATIENT, DESCRIPTION) keeps a row of its own table. That row has the latest DATE of its pair: no row of the pair is dated later. |
| Unify.KeptShape | synthea_functions.py:212-244 | Each domain keeps, from its own rows, exactly one row per (PATIENT, DESCRIPTION). |
| Unify.Block | synthea_functions.py:212-246 | One domain's part of the concatenation: rows deduplicated (observations sorted first), selected and tagged; `BlockShape`, `BlockTags` and `BlockKeepsFirst` prove what it holds. |
| Unify.BlockShape | synthea_functions.py:212-246 | A block has at most one row per (CLASS, PATIENT, DESCRIPTION), all of its domain. Each row is a projection of a table row, and every pair of the table is represented. |
| Unify.ProjectFromRows | synthea_functions.py:212-246 | Each row of a block is the projection of a row of the table the block was cut from. |
| Unify.ProjectCovers | synthea_functions.py:212-246 | When every pair of the table has a kept row, every pair still shows in the projected block. |
| Unify.BlockTags | synthea_functions.py:212-246 | CLASS is the domain. SYSTEM is the allergy's own, SNOMED-CT for careplan, condition, device, encounter and procedure, CVX for immunization, RXNORM for medication, and LOINC for observation. VALUE, UNITS and TYPE are empty outside observations. The other columns are copied. |
| Unify.BlockKeepsFirst | synthea_functions.py:212-237 | Outside observations, each kept row is the first of its (PATIENT, DESCRIPTION) in table order. |
| Unify.Concatenated | synthea_functions.py:248 | `pd.concat` as written, with the procedure block a second time between medication and observation; `JoinIsDomainBlocks` proves what the final `drop_duplicates()` makes of it. |
| Concat.FlatMap | synthea_functions.py:248 | `pd.concat` of the blocks, in list order; `FlatMapAppend`, `FlatMapSplit` and `FlatMapContains` prove how it concatenates. |
| Concat.FlatMapAppend | synthea_functions.py:248 | Concatenating two lists of parts is concatenating their concatenations. |
| Concat.FlatMapSplit | synthea_functions.py:248 | A list ending in one or two parts concatenates to the lead's rows followed by those parts' rows. |
| Concat.FlatMapContains | synthea_functions.py:248 | Every row of every part is in the concatenation. |
| Unify.JoinSyntheaTables | synthea_functions.py:194-251 | `join_synthea_tables`; `JoinIsDomainBlocks`, `EventLogShape` and `EventLogIdempotent` prove what the log holds. |
| Unify.JoinIsDomainBlocks | synthea_functions.py:248-249 | The final `drop_duplicates()` removes exactly the repeated procedure block. The log is the nine domain blocks, each once: allergy, careplan, condition, device, encounter, immunization, procedure, medication, observation. |
| Unify.EventLogShape | synthea_functions.py:248-249 | The log has at most one row per (CLASS, PATIENT, DESCRIPTION), and it does not depend on the imaging table. That it has no imaging row holds by construction of `Domain`. |
| Unify.EventLogIdempotent | synthea_functions.py:248-249 | Dropping duplicates from the log again, by whole row or by class key, changes nothing. |
| Unify.AllergyDuplicatesCollapse | synthea_functions.py:212 | Two allergy rows of one patient and description become one row, from the first. |
| Unify.LaterObservationKept | synthea_functions.py:239-240 | Of two observations of one patient and description, the later-dated one is kept, whatever their order. |
| ColumnLabel.Successor | gsheet_requests.py:61-68 | The next string `iter_all_strings` yields; `SuccessorNth` and `SuccessorIsLater` prove where it leads. |
| ColumnLabel.Nth | gsheet_requests.py:61-68 | The n-th string the generator yields, in closed form; `ValueNth`, `NthValue` and `NthIncreasing` prove it is the enumeration a, …, z, aa, …. |
| ColumnLabel.SuccessorNth | gsheet_requests.py:61-68 | The generator's next string after the n-th is the (n+1)-th of the enumeration a, …, z, aa, …. |
| ColumnLabel.SuccessorIsLater | gsheet_requests.py:66-68 | Each generated string comes after the previous one: by length first, then alphabetically. |
| ColumnLabel.NthIncreasing | gsheet_requests.py:66-68 | The enumeration is strictly increasing in that order. |
| ColumnLabel.ValueNth | gsheet_requests.py:61-79 | Reading the n-th string as bijective base 26 gives n back. |
| ColumnLabel.NthValue | gsheet_requests.py:61-79 | Every non-empty lowercase string is enumerated, at the position its base-26 value names. |
| ColumnLabel.NthInjective | gsheet_requests.py:61-79 | Distinct column counts give distinct labels. |
| ColumnLabel.Upper | gsheet_requests.py:79 | `upper()` maps each lowercase letter to its capital. |
| ColumnLabel.UpperExamples | gsheet_requests.py:79 | `upper()` turns a, z, aa, zz and aaa into A, Z, AA, ZZ and AAA. |
| ColumnLabel.Label | gsheet_requests.py:79 | The label is non-empty and all capitals A–Z. |
| ColumnLabel.LabelExamples | gsheet_requests.py:66-79 | 1 → A, 26 → Z, 27 → AA, 702 → ZZ, 703 → AAA. |
| ColumnLabel.DecimalRoundTrip | gsheet_requests.py:79 | The row count is written in decimal digits that read back as the number. |
| ColumnLabel.SheetRange | gsheet_requests.py:57-79 | For n ≥ 1 columns, the loop stops at the n-th string. The range is "A1:" + label(n) + (rows + 1); the + 1 is the header row. |

## Left out

- `load_synthea` (CSV reading, column renames, dropped columns): file input only. The tables start as the row records above.
- The `print` calls of `generate_cohort`: the two counts are returned instead.
- Which rows `random.sample` draws: a nondeterministic choice, with no distribution.
- `datetime.now()`: the date is the `today` parameter.
- Cohort.GenerateCohort: the order of `list(a set)` is left open (any duplicate-free order). The error for an empty argument tuple is the `NoCriteria` value.
- Annotate.AgeInYears: `math.floor(days / 365.25)` in floating point is modelled as the exact integer `4·days div 1461`. `Annotate.AgeIsFloorOfYears` proves the two agree in real arithmetic. Rounding of the float is not modelled.
- Dates.ParseDate: only the fixed `YYYY-MM-DD` form with two-digit month and day is accepted. `strptime` also accepts single-digit fields and surrounding forms, which Synthea never writes.
- The tie order of `sort_values`: pandas' default sort is not stable, so which of several rows with the same latest DATE is kept is unspecified. The model's insertion sort fixes one order. The proof of `Unify.LatestObservationKept` uses only that the rows are sorted by rank and are a permutation of the table, so it holds for any tie order.
- Unify.LatestObservations / Unify.LatestObservationKept: `Unify.DateRank` ranks every DATE cell that is not a date (unparsed text as well as missing) as 0, below every date, so `Unify.LatestObservations` keeps the first such row of a pair in table order. In the source, a DATE column that mixes dates with unparsed text raises `TypeError` in `sort_values`. A column with only unparsed text, with or without missing values, is sorted by pandas as strings, largest first and missing last, so the lexically largest text would be kept. A column of dates and missing values is ranked as pandas ranks it.
- Annotate.InsertColumn takes non-negative positions only. pandas also accepts negative positions counted from the end, which the source never uses: it always inserts at 3.
- Column positions of SYSTEM and CLASS in the unified table, and `reset_index`: `concat` aligns by column name, so log rows are records with named fields.
- Domain-specific columns that play no part in the pipeline (encounter class, reason codes and the like) are not modelled.
- All pandas missing values (NaN, None, NaT) are one `Missing` value.
- Missing columns: every table is taken to carry the columns its row record names, and a frame's header is never checked against those fields. The `KeyError` that pandas raises for selecting an absent column is not modelled. For example, `join_synthea_tables` on event tables without an AGE column (tables that did not go through `filter_cohort_data`) raises `KeyError` at its `[[...]]` selections (lines 212-244), while `Unify.JoinSyntheaTables` returns a log.
- Spreadsheet access in `gsheet_requests.py` (gspread, OAuth, `worksheet.clear/update`, the `warnings` filter, `astype(str)`): network and foreign calls. Only `sheet_range` is modelled.
- ColumnLabel.SheetRange requires at least one column: with 0 columns the source loop never stops.
- Filter.FilterCohortData takes the event tables as a list, in the source's parameter order, and returns them in that order. It does not model that the source rebinds its local names to new frames rather than mutating the caller's frames.
