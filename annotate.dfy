/**
 * The cohort filter and temporal annotator: every table is restricted to the
 * cohort, the patient table gets its CASE flag, date columns are parsed, an
 * AGE column is inserted at position 3 of every table, and the patient
 * table's DEAD column is recoded as 0/1.
 */
module Annotate {
  import opened Wrappers
  import opened Dates
  import opened Records
  import opened Rows

  // ---------------------------------------------------------------------------
  // string_to_datetime

  /** `s[:10]`. */
  function Truncate10(s: string): (t: string)
    ensures |t| <= 10 && |t| <= |s| && t == s[..|t|]
    ensures |s| <= 10 ==> t == s
    ensures |s| >= 10 ==> |t| == 10
  {
    if |s| <= 10 then s else s[..10]
  }

  /**
   * Parses the first ten characters of a text cell as `YYYY-MM-DD`; when they
   * do not parse, the truncated text remains. A cell that is not text (a
   * missing value) cannot be sliced and is returned as it is.
   */
  function StringToDatetime(v: Value): Value {
    match v
    case Text(s) =>
      var t := Truncate10(s);
      (match ParseDate(t)
       case Some(d) => Day(d)
       case None => Text(t))
    case _ => v
  }

  /** Text that starts with a formatted date parses to that date, whatever follows it. */
  lemma {:induction false} DatePrefixParses(d: CalendarDate, rest: string)
    ensures StringToDatetime(Text(FormatDate(d) + rest)) == Day(d)
  {
    var s := FormatDate(d) + rest;
    assert Truncate10(s) == FormatDate(d);
    ParseFormat(d);
  }

  /** The result is the date the first ten characters spell, or exactly those characters when they spell none. */
  lemma {:induction false} StringToDatetimeText(s: string)
    ensures var r := StringToDatetime(Text(s));
      (r.Day? && FormatDate(r.date) == Truncate10(s))
      || (r == Text(Truncate10(s)) && forall d: CalendarDate :: FormatDate(d) != Truncate10(s))
  {
    var t := Truncate10(s);
    match ParseDate(t)
    case Some(d) =>
      FormatParse(t);
    case None =>
      forall d: CalendarDate
        ensures FormatDate(d) != t
      {
        ParseFormat(d);
      }
  }

  lemma {:induction false} StringToDatetimeExamples()
    ensures StringToDatetime(Text("2020-06-15T10:00:00Z")) == Day(Date(2020, 6, 15))
    ensures StringToDatetime(Text("")) == Text("")
    ensures StringToDatetime(Missing) == Missing
  {
    assert FormatDate(Date(2020, 6, 15)) == "2020-06-15";
    assert "2020-06-15T10:00:00Z" == "2020-06-15" + "T10:00:00Z";
    DatePrefixParses(Date(2020, 6, 15), "T10:00:00Z");
  }

  /** Parsing a column that is already parsed changes nothing. */
  lemma {:induction false} StringToDatetimeIdempotent(v: Value)
    ensures StringToDatetime(StringToDatetime(v)) == StringToDatetime(v)
  {
  }

  // ---------------------------------------------------------------------------
  // age_at_event

  /** Whole years of 365.25 days from birth to the event, rounded down. */
  function AgeInYears(birth: CalendarDate, event: CalendarDate): (age: int)
    ensures 1461 * age <= 4 * DaysBetween(birth, event) < 1461 * (age + 1)
  {
    4 * DaysBetween(birth, event) / 1461
  }

  /** The integer form is the floor of the day count divided by 365.25. */
  lemma {:induction false} AgeIsFloorOfYears(birth: CalendarDate, event: CalendarDate)
    ensures var age, days := AgeInYears(birth, event), DaysBetween(birth, event);
      age as real <= days as real / 365.25 < (age + 1) as real
  {
    var age, days := AgeInYears(birth, event), DaysBetween(birth, event);
    assert days as real / 365.25 == (4 * days) as real / 1461.0;
    assert (1461 * age) as real <= (4 * days) as real < (1461 * (age + 1)) as real;
  }

  /** A later event never gives a younger age. */
  lemma {:induction false} AgeMonotone(birth: CalendarDate, e1: CalendarDate, e2: CalendarDate)
    requires DayNumber(e1) <= DayNumber(e2)
    ensures AgeInYears(birth, e1) <= AgeInYears(birth, e2)
  {
    var a1, a2 := AgeInYears(birth, e1), AgeInYears(birth, e2);
    assert 1461 * a1 < 1461 * (a2 + 1);
  }

  lemma {:induction false} AgeExample()
    ensures AgeInYears(Date(2000, 1, 1), Date(2020, 6, 15)) == 20
  {
    assert DayNumber(Date(2000, 1, 1)) == 730120;
    assert DayNumber(Date(2020, 6, 15)) == 737591;
  }

  /** What an age lookup needs besides the row: the birth-date map and today. */
  datatype AgeContext = AgeContext(births: map<string, Value>, today: CalendarDate)

  /**
   * The age of a patient at an event: a patient with no birth-date entry is
   * a lookup error, a birth date that is not a date cannot be subtracted, and
   * an event that is not a date is replaced by today.
   */
  function AgeAtEvent(event: Value, patient: string, ctx: AgeContext): Result<int, Error> {
    if patient !in ctx.births then Err(MissingBirthdate(patient))
    else
      match ctx.births[patient]
      case Day(birth) => Ok(AgeInYears(birth, if event.Day? then event.date else ctx.today))
      case _ => Err(BirthdateNotADate(patient))
  }

  /** The lookup fails exactly when the patient has no birth date, or a birth date that is not a date. */
  lemma {:induction false} AgeAtEventFails(event: Value, patient: string, ctx: AgeContext)
    ensures AgeAtEvent(event, patient, ctx).Err? <==> patient !in ctx.births || !ctx.births[patient].Day?
  {
  }

  /** An event that is not a date counts as today. */
  lemma {:induction false} AgeFallsBackToToday(event: Value, patient: string, ctx: AgeContext)
    requires !event.Day?
    ensures AgeAtEvent(event, patient, ctx) == AgeAtEvent(Day(ctx.today), patient, ctx)
  {
  }

  /** `dict(zip(PATIENT, BIRTHDATE))`: a later row for the same patient overrides an earlier one. */
  function BirthMap(rows: seq<PatientRow>): (m: map<string, Value>)
    ensures m.Keys == set r | r in rows :: r.patient
  {
    if rows == [] then map[]
    else
      var last := rows[|rows| - 1];
      var init := rows[..|rows| - 1];
      assert forall r :: r in rows <==> r in init || r == last;
      BirthMap(init)[last.patient := last.birthdate]
  }

  /** A patient's entry is the birth date of the last row that names the patient. */
  lemma {:induction false} BirthMapLastWins(rows: seq<PatientRow>, i: int)
    requires 0 <= i < |rows|
    requires forall j :: i < j < |rows| ==> rows[j].patient != rows[i].patient
    ensures BirthMap(rows)[rows[i].patient] == rows[i].birthdate
    decreases |rows|
  {
    if i < |rows| - 1 {
      var init := rows[..|rows| - 1];
      BirthMapLastWins(init, i);
    }
  }

  // ---------------------------------------------------------------------------
  // Row and header operations

  /** `CASE = 0`, then `CASE = 1` where the patient is a case. */
  function FlagCase(r: PatientRow, cases: seq<string>): PatientRow {
    r.(isCase := Some(if r.patient in cases then 1 else 0))
  }

  function ParsePatientDates(r: PatientRow): PatientRow {
    r.(birthdate := StringToDatetime(r.birthdate), dead := StringToDatetime(r.dead))
  }

  function ParseEventDate(r: EventRow): EventRow {
    r.(date := StringToDatetime(r.date))
  }

  /** `fillna(0)`, then every value other than 0 becomes 1. */
  function RecodeDead(v: Value): (r: Value)
    ensures r == Num(0) || r == Num(1)
    ensures r == Num(0) <==> v == Missing || v == Num(0)
  {
    if v == Missing || v == Num(0) then Num(0) else Num(1)
  }

  function RecodePatientDead(r: PatientRow): PatientRow {
    r.(dead := RecodeDead(r.dead))
  }

  /** AGE of a patient: at the death date when there is one, else today. */
  function WithPatientAge(r: PatientRow, ctx: AgeContext): Result<PatientRow, Error> {
    match AgeAtEvent(r.dead, r.patient, ctx)
    case Ok(a) => Ok(r.(age := Some(a)))
    case Err(e) => Err(e)
  }

  /** AGE of an event: at the event's date when it is a date, else today. */
  function WithEventAge(r: EventRow, ctx: AgeContext): Result<EventRow, Error> {
    match AgeAtEvent(r.date, r.patient, ctx)
    case Ok(a) => Ok(r.(age := Some(a)))
    case Err(e) => Err(e)
  }

  /** `df[name] = ...`: a new label goes last, an existing one keeps its place. */
  function SetColumn(header: seq<string>, name: string): (h: seq<string>)
    ensures name in h
    ensures |header| <= |h| && h[..|header|] == header
    ensures name !in header ==> h == header + [name]
    ensures name in header ==> h == header
  {
    if name in header then header else header + [name]
  }

  /** The position `insert` puts AGE at. */
  const AgeIndex := 3

  /**
   * How many columns `df[[a, b]].apply(f, axis=1)` hands to `insert`: one (a
   * Series) for a frame with rows. For a frame without rows pandas only probes
   * f, swallows the error the probe raises, and returns a copy of the two
   * selected columns.
   */
  function AppliedColumns(rowCount: nat): nat {
    if rowCount == 0 then 2 else 1
  }

  /**
   * `df.insert(loc, name, value)` with a value of `columns` columns, checked
   * in pandas' order: an existing label, then a value that is not one
   * column, then a position past the end.
   */
  function InsertColumn(header: seq<string>, loc: nat, name: string, columns: nat): Result<seq<string>, Error> {
    if name in header then Err(ColumnExists(name))
    else if columns > 1 then Err(NotOneDimensional(columns))
    else if loc > |header| then Err(ColumnIndexOutOfRange(loc))
    else Ok(header[..loc] + [name] + header[loc..])
  }

  /** On success the new label stands at loc and removing it gives the old header back. */
  lemma {:induction false} InsertColumnAt(header: seq<string>, loc: nat, name: string, columns: nat)
    ensures InsertColumn(header, loc, name, columns).Ok? <==> name !in header && columns <= 1 && loc <= |header|
    ensures InsertColumn(header, loc, name, columns).Ok? ==>
      var h := InsertColumn(header, loc, name, columns).value;
      |h| == |header| + 1 && h[loc] == name && h[..loc] + h[loc + 1..] == header
  {
    if name !in header && columns <= 1 && loc <= |header| {
      var h := header[..loc] + [name] + header[loc..];
      assert h[..loc] == header[..loc];
      assert h[loc + 1..] == header[loc..];
    }
  }

  // ---------------------------------------------------------------------------
  // Whole-table steps

  function AddPatientAges(f: Frame<PatientRow>, ctx: AgeContext): Result<Frame<PatientRow>, Error> {
    match TryMap(f.rows, WithPatientAge, ctx)
    case Err(e) => Err(e)
    case Ok(rows) =>
      match InsertColumn(f.header, AgeIndex, "AGE", AppliedColumns(|rows|))
      case Err(e) => Err(e)
      case Ok(h) => Ok(Frame(h, rows))
  }

  function AddEventAges(f: Frame<EventRow>, ctx: AgeContext): Result<Frame<EventRow>, Error> {
    match TryMap(f.rows, WithEventAge, ctx)
    case Err(e) => Err(e)
    case Ok(rows) =>
      match InsertColumn(f.header, AgeIndex, "AGE", AppliedColumns(|rows|))
      case Err(e) => Err(e)
      case Ok(h) => Ok(Frame(h, rows))
  }

  /** The patient table restricted to the cohort, flagged and with parsed dates. */
  function PreparePatients(f: Frame<PatientRow>, cohort: seq<string>, cases: seq<string>): Frame<PatientRow> {
    Frame(SetColumn(f.header, "CASE"),
          Map(MapWith(KeepCohort(f.rows, PatientOf, cohort), FlagCase, cases), ParsePatientDates))
  }

  function PrepareEvent(f: Frame<EventRow>, cohort: seq<string>): Frame<EventRow> {
    Frame(f.header, Map(KeepCohort(f.rows, EventPatient, cohort), ParseEventDate))
  }

  /** Each event table restricted to the cohort, with parsed dates. */
  function PrepareEvents(events: seq<Frame<EventRow>>, cohort: seq<string>): (out: seq<Frame<EventRow>>)
    ensures |out| == |events|
    ensures forall k :: 0 <= k < |events| ==> out[k] == PrepareEvent(events[k], cohort)
  {
    if events == [] then []
    else PrepareEvents(events[..|events| - 1], cohort) + [PrepareEvent(events[|events| - 1], cohort)]
  }

  /** Ages for the event tables in order; the first table that raises decides the error. */
  function AgeEvents(frames: seq<Frame<EventRow>>, ctx: AgeContext): Result<seq<Frame<EventRow>>, Error> {
    TryMap(frames, AddEventAges, ctx)
  }

  /** filter_cohort_data: the patient table and the event tables, filtered and annotated. */
  function AnnotateCohort(cohort: seq<string>, cases: seq<string>, patients: Frame<PatientRow>,
                          events: seq<Frame<EventRow>>, today: CalendarDate)
    : Result<(Frame<PatientRow>, seq<Frame<EventRow>>), Error>
  {
    var p := PreparePatients(patients, cohort, cases);
    var ctx := AgeContext(BirthMap(p.rows), today);
    match AddPatientAges(p, ctx)
    case Err(e) => Err(e)
    case Ok(aged) =>
      match AgeEvents(PrepareEvents(events, cohort), ctx)
      case Err(e) => Err(e)
      case Ok(evs) => Ok((Frame(aged.header, Map(aged.rows, RecodePatientDead)), evs))
  }

  // ---------------------------------------------------------------------------
  // What filter_cohort_data promises

  /** The header of an annotated table: AGE at position 3 of the header before. */
  predicate AgeInsertedInto(before: seq<string>, after: seq<string>) {
    3 <= |before| && after == before[..3] + ["AGE"] + before[3..]
  }

  lemma {:induction false} AddPatientAgesRows(p: Frame<PatientRow>, ctx: AgeContext)
    requires AddPatientAges(p, ctx).Ok?
    ensures var out := AddPatientAges(p, ctx).value;
      && AgeInsertedInto(p.header, out.header)
      && |out.rows| == |p.rows|
      && forall i :: 0 <= i < |p.rows| ==> WithPatientAge(p.rows[i], ctx) == Ok(out.rows[i])
  {
    TryMapOk(p.rows, WithPatientAge, ctx);
  }

  lemma {:induction false} AddEventAgesRows(f: Frame<EventRow>, ctx: AgeContext)
    requires AddEventAges(f, ctx).Ok?
    ensures var out := AddEventAges(f, ctx).value;
      && AgeInsertedInto(f.header, out.header)
      && |out.rows| == |f.rows|
      && forall i :: 0 <= i < |f.rows| ==> WithEventAge(f.rows[i], ctx) == Ok(out.rows[i])
  {
    TryMapOk(f.rows, WithEventAge, ctx);
  }

  /**
   * The patient table gets its AGE exactly when it has rows, no AGE column
   * yet, at least three columns, and every row's age can be computed.
   */
  lemma {:induction false} AddPatientAgesOk(p: Frame<PatientRow>, ctx: AgeContext)
    ensures AddPatientAges(p, ctx).Ok? <==>
      && p.rows != [] && "AGE" !in p.header && AgeIndex <= |p.header|
      && forall i :: 0 <= i < |p.rows| ==> WithPatientAge(p.rows[i], ctx).Ok?
  {
    TryMapOk(p.rows, WithPatientAge, ctx);
  }

  /**
   * An event table gets its AGE exactly when it has rows, no AGE column yet,
   * at least three columns, and every row's age can be computed.
   */
  lemma {:induction false} AddEventAgesOk(f: Frame<EventRow>, ctx: AgeContext)
    ensures AddEventAges(f, ctx).Ok? <==>
      && f.rows != [] && "AGE" !in f.header && AgeIndex <= |f.header|
      && forall i :: 0 <= i < |f.rows| ==> WithEventAge(f.rows[i], ctx).Ok?
  {
    TryMapOk(f.rows, WithEventAge, ctx);
  }

  /** A table without rows cannot take its AGE column: the empty apply yields two columns. */
  lemma {:induction false} EmptyTableAgeFails(header: seq<string>, ctx: AgeContext)
    requires "AGE" !in header
    ensures AddPatientAges(Frame(header, []), ctx) == Err(NotOneDimensional(2))
    ensures AddEventAges(Frame(header, []), ctx) == Err(NotOneDimensional(2))
  {
    assert TryMap([], WithPatientAge, ctx) == Ok([]);
    assert TryMap([], WithEventAge, ctx) == Ok([]);
  }

  lemma AgeEventsOk(frames: seq<Frame<EventRow>>, ctx: AgeContext)
    requires AgeEvents(frames, ctx).Ok?
    ensures |AgeEvents(frames, ctx).value| == |frames|
    ensures forall k :: 0 <= k < |frames| ==> AddEventAges(frames[k], ctx) == Ok(AgeEvents(frames, ctx).value[k])
  {
    TryMapOk(frames, AddEventAges, ctx);
  }

  lemma AgeEventsFirstError(frames: seq<Frame<EventRow>>, ctx: AgeContext)
    requires AgeEvents(frames, ctx).Err?
    ensures exists k :: 0 <= k < |frames| && AddEventAges(frames[k], ctx) == Err(AgeEvents(frames, ctx).error)
                        && forall j :: 0 <= j < k ==> AddEventAges(frames[j], ctx).Ok?
  {
    TryMapFirstError(frames, AddEventAges, ctx);
  }

  lemma {:induction false} PreparePatientsAt(f: Frame<PatientRow>, cohort: seq<string>, cases: seq<string>, i: int)
    requires 0 <= i < |KeepCohort(f.rows, PatientOf, cohort)|
    ensures var kept := KeepCohort(f.rows, PatientOf, cohort);
      |PreparePatients(f, cohort, cases).rows| == |kept|
      && PreparePatients(f, cohort, cases).rows[i] == ParsePatientDates(FlagCase(kept[i], cases))
  {
    var kept := KeepCohort(f.rows, PatientOf, cohort);
    MapWithAt(kept, FlagCase, cases, i);
    MapAt(MapWith(kept, FlagCase, cases), ParsePatientDates, i);
  }

  lemma {:induction false} PrepareEventAt(f: Frame<EventRow>, cohort: seq<string>, j: int)
    requires 0 <= j < |KeepCohort(f.rows, EventPatient, cohort)|
    ensures var kept := KeepCohort(f.rows, EventPatient, cohort);
      |PrepareEvent(f, cohort).rows| == |kept|
      && PrepareEvent(f, cohort).rows[j] == ParseEventDate(kept[j])
  {
    MapAt(KeepCohort(f.rows, EventPatient, cohort), ParseEventDate, j);
  }

  function RecodeFrame(aged: Frame<PatientRow>): Frame<PatientRow> {
    Frame(aged.header, Map(aged.rows, RecodePatientDead))
  }

  /** A successful run is the composition of its stages. */
  lemma {:induction false} AnnotateCohortOk(cohort: seq<string>, cases: seq<string>, patients: Frame<PatientRow>,
                         events: seq<Frame<EventRow>>, today: CalendarDate)
    requires AnnotateCohort(cohort, cases, patients, events, today).Ok?
    ensures var p := PreparePatients(patients, cohort, cases);
      var ctx := AgeContext(BirthMap(p.rows), today);
      && AddPatientAges(p, ctx).Ok?
      && AgeEvents(PrepareEvents(events, cohort), ctx).Ok?
      && AnnotateCohort(cohort, cases, patients, events, today).value
         == (RecodeFrame(AddPatientAges(p, ctx).value), AgeEvents(PrepareEvents(events, cohort), ctx).value)
  {
  }

  /** What the annotation makes of one patient row. */
  predicate AnnotatedPatientRow(out: PatientRow, row: PatientRow, cases: seq<string>) {
    && out == FlagCase(row, cases).(birthdate := StringToDatetime(row.birthdate),
                                    dead := RecodeDead(StringToDatetime(row.dead)), age := out.age)
    && out.age.Some?
  }

  /**
   * The cells of an annotated patient row: the same PATIENT, CASE 1 exactly
   * for the cases, and DEAD 0 exactly where no death date was recorded, 1
   * elsewhere.
   */
  lemma {:induction false} AnnotatedPatientCells(out: PatientRow, row: PatientRow, cases: seq<string>)
    requires AnnotatedPatientRow(out, row, cases)
    ensures out.patient == row.patient
    ensures out.isCase == Some(if row.patient in cases then 1 else 0)
    ensures out.dead == Num(0) || out.dead == Num(1)
    ensures out.dead == Num(0) <==> row.dead == Missing || row.dead == Num(0)
  {
    var parsed := StringToDatetime(row.dead);
    assert parsed == Missing || parsed == Num(0) <==> row.dead == Missing || row.dead == Num(0);
  }

  lemma {:induction false} AnnotatedPatientRowAt(p: Frame<PatientRow>, ctx: AgeContext, kept: seq<PatientRow>, cases: seq<string>, i: int)
    requires AddPatientAges(p, ctx).Ok? && 0 <= i < |kept|
    requires |p.rows| == |kept| && p.rows[i] == ParsePatientDates(FlagCase(kept[i], cases))
    ensures |RecodeFrame(AddPatientAges(p, ctx).value).rows| == |kept|
    ensures AnnotatedPatientRow(RecodeFrame(AddPatientAges(p, ctx).value).rows[i], kept[i], cases)
  {
    var aged := AddPatientAges(p, ctx).value;
    AddPatientAgesRows(p, ctx);
    MapAt(aged.rows, RecodePatientDead, i);
  }

  /**
   * The annotated patient table has one row per patient-table row whose
   * patient is in the cohort, in order; CASE is 1 exactly for the cases and 0
   * for everyone else; DEAD is 0 exactly where no death date was recorded and
   * 1 elsewhere; AGE stands at position 3 of the header, after CASE was added.
   */
  lemma {:induction false} AnnotatedPatients(cohort: seq<string>, cases: seq<string>, patients: Frame<PatientRow>,
                          events: seq<Frame<EventRow>>, today: CalendarDate)
    requires AnnotateCohort(cohort, cases, patients, events, today).Ok?
    ensures var out := AnnotateCohort(cohort, cases, patients, events, today).value.0;
      var kept := KeepCohort(patients.rows, PatientOf, cohort);
      && AgeInsertedInto(SetColumn(patients.header, "CASE"), out.header)
      && |out.rows| == |kept|
      && forall i :: 0 <= i < |kept| ==> AnnotatedPatientRow(out.rows[i], kept[i], cases)
  {
    var p := PreparePatients(patients, cohort, cases);
    var ctx := AgeContext(BirthMap(p.rows), today);
    var kept := KeepCohort(patients.rows, PatientOf, cohort);
    AnnotateCohortOk(cohort, cases, patients, events, today);
    AddPatientAgesRows(p, ctx);
    forall i | 0 <= i < |kept|
      ensures AnnotatedPatientRow(RecodeFrame(AddPatientAges(p, ctx).value).rows[i], kept[i], cases)
    {
      PreparePatientsAt(patients, cohort, cases, i);
      AnnotatedPatientRowAt(p, ctx, kept, cases, i);
    }
  }

  /**
   * With one row per patient, each patient's AGE is computed from the
   * patient's own parsed BIRTHDATE, at the parsed death date when there is
   * one and at today otherwise.
   */
  lemma {:induction false} PatientAgeFromOwnBirthdate(cohort: seq<string>, cases: seq<string>, patients: Frame<PatientRow>,
                                   events: seq<Frame<EventRow>>, today: CalendarDate, i: int)
    requires AnnotateCohort(cohort, cases, patients, events, today).Ok?
    requires var kept := KeepCohort(patients.rows, PatientOf, cohort);
      0 <= i < |kept| && forall j :: 0 <= j < |kept| && j != i ==> kept[j].patient != kept[i].patient
    ensures var kept := KeepCohort(patients.rows, PatientOf, cohort);
      var out := AnnotateCohort(cohort, cases, patients, events, today).value.0;
      var birth, dead := StringToDatetime(kept[i].birthdate), StringToDatetime(kept[i].dead);
      && birth.Day?
      && |out.rows| == |kept|
      && out.rows[i].age == Some(AgeInYears(birth.date, if dead.Day? then dead.date else today))
  {
    var p := PreparePatients(patients, cohort, cases);
    var ctx := AgeContext(BirthMap(p.rows), today);
    var kept := KeepCohort(patients.rows, PatientOf, cohort);
    var aged := AddPatientAges(p, ctx).value;
    AnnotateCohortOk(cohort, cases, patients, events, today);
    AddPatientAgesRows(p, ctx);
    PreparePatientsAt(patients, cohort, cases, i);
    MapAt(aged.rows, RecodePatientDead, i);
    forall j | i < j < |p.rows|
      ensures p.rows[j].patient != p.rows[i].patient
    {
      PreparePatientsAt(patients, cohort, cases, j);
    }
    BirthMapLastWins(p.rows, i);
  }

  /** What the annotation makes of one event row. */
  predicate AnnotatedEventRow(out: EventRow, row: EventRow, births: map<string, Value>, today: CalendarDate) {
    var date := StringToDatetime(row.date);
    && out == ParseEventDate(row).(age := out.age)
    && row.patient in births && births[row.patient].Day?
    && out.age == Some(AgeInYears(births[row.patient].date, if date.Day? then date.date else today))
  }

  lemma {:induction false} AnnotatedEventFrame(f: Frame<EventRow>, cohort: seq<string>, ctx: AgeContext)
    requires AddEventAges(PrepareEvent(f, cohort), ctx).Ok?
    ensures var out := AddEventAges(PrepareEvent(f, cohort), ctx).value;
      var kept := KeepCohort(f.rows, EventPatient, cohort);
      && AgeInsertedInto(f.header, out.header)
      && |out.rows| == |kept|
      && forall j :: 0 <= j < |kept| ==> AnnotatedEventRow(out.rows[j], kept[j], ctx.births, ctx.today)
  {
    var kept := KeepCohort(f.rows, EventPatient, cohort);
    var prepared := PrepareEvent(f, cohort);
    AddEventAgesRows(prepared, ctx);
    forall j | 0 <= j < |kept|
      ensures prepared.rows[j] == ParseEventDate(kept[j])
    {
      PrepareEventAt(f, cohort, j);
    }
  }

  /**
   * Each annotated event table has one row per row of the table whose patient
   * is in the cohort, in order, with DATE parsed and an AGE added and nothing
   * else changed; AGE stands at position 3 of its header. The AGE is the age
   * from the birth date the filtered patient table records for the row's
   * patient to the parsed DATE, or to today when DATE is not a date.
   */
  lemma {:induction false} AnnotatedEvents(cohort: seq<string>, cases: seq<string>, patients: Frame<PatientRow>,
                        events: seq<Frame<EventRow>>, today: CalendarDate, k: int)
    requires AnnotateCohort(cohort, cases, patients, events, today).Ok?
    requires 0 <= k < |events|
    ensures var evs := AnnotateCohort(cohort, cases, patients, events, today).value.1;
      var kept := KeepCohort(events[k].rows, EventPatient, cohort);
      var births := BirthMap(PreparePatients(patients, cohort, cases).rows);
      && |evs| == |events|
      && AgeInsertedInto(events[k].header, evs[k].header)
      && |evs[k].rows| == |kept|
      && forall j :: 0 <= j < |kept| ==> AnnotatedEventRow(evs[k].rows[j], kept[j], births, today)
  {
    var p := PreparePatients(patients, cohort, cases);
    var ctx := AgeContext(BirthMap(p.rows), today);
    var prepared := PrepareEvents(events, cohort);
    AnnotateCohortOk(cohort, cases, patients, events, today);
    AgeEventsOk(prepared, ctx);
    AnnotatedEventFrame(events[k], cohort, ctx);
  }

  /**
   * A run succeeds only when the cohort filter leaves rows in every table:
   * a table it empties makes its AGE insert fail.
   */
  lemma {:induction false} AnnotateCohortNeedsRows(cohort: seq<string>, cases: seq<string>, patients: Frame<PatientRow>,
                                events: seq<Frame<EventRow>>, today: CalendarDate)
    requires AnnotateCohort(cohort, cases, patients, events, today).Ok?
    ensures KeepCohort(patients.rows, PatientOf, cohort) != []
    ensures forall k :: 0 <= k < |events| ==> KeepCohort(events[k].rows, EventPatient, cohort) != []
  {
    var p := PreparePatients(patients, cohort, cases);
    var ctx := AgeContext(BirthMap(p.rows), today);
    var prepared := PrepareEvents(events, cohort);
    AnnotateCohortOk(cohort, cases, patients, events, today);
    AddPatientAgesOk(p, ctx);
    AgeEventsOk(prepared, ctx);
    forall k | 0 <= k < |events|
      ensures KeepCohort(events[k].rows, EventPatient, cohort) != []
    {
      AddEventAgesOk(prepared[k], ctx);
    }
  }

  /** Every patient of the table has a birth-date entry, so its own ages never fail on the lookup. */
  lemma {:induction false} PatientAgesNeverMissing(p: Frame<PatientRow>, today: CalendarDate)
    ensures var r := AddPatientAges(p, AgeContext(BirthMap(p.rows), today));
      r.Err? ==> !r.error.MissingBirthdate?
  {
    var ctx := AgeContext(BirthMap(p.rows), today);
    if TryMap(p.rows, WithPatientAge, ctx).Err? {
      TryMapFirstError(p.rows, WithPatientAge, ctx);
      var i :| 0 <= i < |p.rows| && WithPatientAge(p.rows[i], ctx) == Err(TryMap(p.rows, WithPatientAge, ctx).error)
               && forall j :: 0 <= j < i ==> WithPatientAge(p.rows[j], ctx).Ok?;
      assert p.rows[i] in p.rows;
      assert p.rows[i].patient in ctx.births;
    }
  }

  /** The row of one event table behind a failed lookup. */
  lemma MissingBirthdateInFrame(f: Frame<EventRow>, cohort: seq<string>, ctx: AgeContext, who: string)
    requires AddEventAges(PrepareEvent(f, cohort), ctx) == Err(MissingBirthdate(who))
    ensures who in cohort && who !in ctx.births
    ensures exists r :: r in f.rows && r.patient == who
  {
    var kept := KeepCohort(f.rows, EventPatient, cohort);
    var prepared := PrepareEvent(f, cohort);
    assert TryMap(prepared.rows, WithEventAge, ctx).Err?;
    TryMapFirstError(prepared.rows, WithEventAge, ctx);
    var j :| 0 <= j < |prepared.rows| && WithEventAge(prepared.rows[j], ctx) == Err(MissingBirthdate(who));
    MapAt(kept, ParseEventDate, j);
    assert kept[j] in kept;
    KeepCohortMembers(f.rows, EventPatient, cohort, kept[j]);
  }

  /** The event row behind a failed lookup. */
  lemma MissingBirthdateRow(events: seq<Frame<EventRow>>, cohort: seq<string>, ctx: AgeContext, who: string)
    requires AgeEvents(PrepareEvents(events, cohort), ctx) == Err(MissingBirthdate(who))
    ensures who in cohort && who !in ctx.births
    ensures exists k, r :: 0 <= k < |events| && r in events[k].rows && r.patient == who
  {
    var prepared := PrepareEvents(events, cohort);
    AgeEventsFirstError(prepared, ctx);
    var k :| 0 <= k < |prepared| && AddEventAges(prepared[k], ctx) == Err(MissingBirthdate(who));
    MissingBirthdateInFrame(events[k], cohort, ctx, who);
  }

  /**
   * A missing birth-date entry is never raised for the patient table itself;
   * it comes from an event row of a cohort patient whom the patient table
   * does not have.
   */
  lemma {:induction false} MissingBirthdateComesFromEvents(cohort: seq<string>, cases: seq<string>, patients: Frame<PatientRow>,
                                        events: seq<Frame<EventRow>>, today: CalendarDate, who: string)
    requires AnnotateCohort(cohort, cases, patients, events, today) == Err(MissingBirthdate(who))
    ensures who in cohort
    ensures forall q :: q in patients.rows ==> q.patient != who || q.patient !in cohort
    ensures exists k, r :: 0 <= k < |events| && r in events[k].rows && r.patient == who
  {
    var p := PreparePatients(patients, cohort, cases);
    var births := BirthMap(p.rows);
    var ctx := AgeContext(births, today);
    PatientAgesNeverMissing(p, today);
    MissingBirthdateRow(events, cohort, ctx, who);
    CohortPatientsHaveBirthdates(patients, cohort, cases);
  }

  /** Every cohort patient of the patient table has an entry in the birth-date map. */
  lemma CohortPatientsHaveBirthdates(patients: Frame<PatientRow>, cohort: seq<string>, cases: seq<string>)
    ensures forall q :: q in patients.rows && q.patient in cohort ==>
      q.patient in BirthMap(PreparePatients(patients, cohort, cases).rows)
  {
    var p := PreparePatients(patients, cohort, cases);
    forall q | q in patients.rows && q.patient in cohort
      ensures q.patient in BirthMap(p.rows)
    {
      KeepCohortMembers(patients.rows, PatientOf, cohort, q);
      var kp := KeepCohort(patients.rows, PatientOf, cohort);
      var i :| 0 <= i < |kp| && kp[i] == q;
      PreparePatientsAt(patients, cohort, cases, i);
      assert p.rows[i] in p.rows;
    }
  }
}
