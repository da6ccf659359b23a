/**
 * filter_cohort_data as the source runs it: each table is a data frame that
 * is filtered into a new frame and then changed in place, column by column.
 */
module Filter {
  import opened Wrappers
  import opened Dates
  import opened Records
  import opened Rows
  import opened Annotate

  /** The patient data frame. */
  class PatientTable {
    var header: seq<string>
    var rows: seq<PatientRow>

    constructor (f: Frame<PatientRow>)
      ensures header == f.header && rows == f.rows
    {
      header := f.header;
      rows := f.rows;
    }

    function Snapshot(): Frame<PatientRow>
      reads this
    {
      Frame(header, rows)
    }

    /** `df = df[df["PATIENT"].isin(cohort)].reset_index(drop=True)` */
    method FilterByCohort(cohort: seq<string>)
      modifies this
      ensures header == old(header)
      ensures rows == KeepCohort(old(rows), PatientOf, cohort)
    {
      var rs := rows;
      var kept: seq<PatientRow> := [];
      var i := 0;
      while i < |rs|
        invariant 0 <= i <= |rs|
        invariant kept == KeepCohort(rs[..i], PatientOf, cohort)
      {
        assert rs[..i + 1][..i] == rs[..i];
        if rs[i].patient in cohort {
          kept := kept + [rs[i]];
        }
        i := i + 1;
      }
      assert rs[..i] == rs;
      rows := kept;
    }

    /** `df["CASE"] = 0; df.loc[df["PATIENT"].isin(cases), "CASE"] = 1` */
    method FlagCases(cases: seq<string>)
      modifies this
      ensures header == SetColumn(old(header), "CASE")
      ensures rows == MapWith(old(rows), FlagCase, cases)
    {
      var rs := rows;
      var flagged: seq<PatientRow> := [];
      var i := 0;
      while i < |rs|
        invariant 0 <= i <= |rs|
        invariant flagged == MapWith(rs[..i], FlagCase, cases)
      {
        assert rs[..i + 1][..i] == rs[..i];
        flagged := flagged + [rs[i].(isCase := Some(if rs[i].patient in cases then 1 else 0))];
        i := i + 1;
      }
      assert rs[..i] == rs;
      rows := flagged;
      if "CASE" !in header {
        header := header + ["CASE"];
      }
    }

    /** BIRTHDATE and DEAD through string_to_datetime. */
    method ParseDates()
      modifies this
      ensures header == old(header)
      ensures rows == Map(old(rows), ParsePatientDates)
    {
      var rs := rows;
      var parsed: seq<PatientRow> := [];
      var i := 0;
      while i < |rs|
        invariant 0 <= i <= |rs|
        invariant parsed == Map(rs[..i], ParsePatientDates)
      {
        assert rs[..i + 1][..i] == rs[..i];
        parsed := parsed + [rs[i].(birthdate := StringToDatetime(rs[i].birthdate),
                                   dead := StringToDatetime(rs[i].dead))];
        i := i + 1;
      }
      assert rs[..i] == rs;
      rows := parsed;
    }

    /**
     * `df.insert(3, "AGE", ...)` with each patient's age at death, or today.
     * When a row raises, or the insert does, the frame is left as it was.
     */
    method InsertAge(ctx: AgeContext) returns (err: Option<Error>)
      modifies this
      ensures var r := AddPatientAges(old(Snapshot()), ctx);
        && (r.Ok? ==> err == None && Snapshot() == r.value)
        && (r.Err? ==> err == Some(r.error) && Snapshot() == old(Snapshot()))
    {
      var rs := rows;
      var aged: seq<PatientRow> := [];
      var i := 0;
      while i < |rs|
        invariant 0 <= i <= |rs|
        invariant TryMap(rs[..i], WithPatientAge, ctx) == Ok(aged)
      {
        assert rs[..i + 1][..i] == rs[..i];
        var a := AgeAtEvent(rs[i].dead, rs[i].patient, ctx);
        if a.Err? {
          TryMapErrPrefix(rs, WithPatientAge, ctx, i + 1);
          return Some(a.error);
        }
        aged := aged + [rs[i].(age := Some(a.value))];
        i := i + 1;
      }
      assert rs[..i] == rs;
      var h := InsertColumn(header, AgeIndex, "AGE", AppliedColumns(|aged|));
      if h.Err? {
        return Some(h.error);
      }
      header, rows := h.value, aged;
      return None;
    }

    /** `df["DEAD"] = df["DEAD"].fillna(0); df.loc[df["DEAD"] != 0, "DEAD"] = 1` */
    method RecodeDeadColumn()
      modifies this
      ensures header == old(header)
      ensures rows == Map(old(rows), RecodePatientDead)
    {
      var rs := rows;
      var recoded: seq<PatientRow> := [];
      var i := 0;
      while i < |rs|
        invariant 0 <= i <= |rs|
        invariant recoded == Map(rs[..i], RecodePatientDead)
      {
        assert rs[..i + 1][..i] == rs[..i];
        var dead := if rs[i].dead == Missing then Num(0) else rs[i].dead;
        dead := if dead != Num(0) then Num(1) else dead;
        recoded := recoded + [rs[i].(dead := dead)];
        i := i + 1;
      }
      assert rs[..i] == rs;
      rows := recoded;
    }
  }

  /** A clinical event data frame. */
  class EventTable {
    var header: seq<string>
    var rows: seq<EventRow>

    constructor (f: Frame<EventRow>)
      ensures header == f.header && rows == f.rows
    {
      header := f.header;
      rows := f.rows;
    }

    function Snapshot(): Frame<EventRow>
      reads this
    {
      Frame(header, rows)
    }

    /** `df = df[df["PATIENT"].isin(cohort)].reset_index(drop=True)` */
    method FilterByCohort(cohort: seq<string>)
      modifies this
      ensures header == old(header)
      ensures rows == KeepCohort(old(rows), EventPatient, cohort)
    {
      var rs := rows;
      var kept: seq<EventRow> := [];
      var i := 0;
      while i < |rs|
        invariant 0 <= i <= |rs|
        invariant kept == KeepCohort(rs[..i], EventPatient, cohort)
      {
        assert rs[..i + 1][..i] == rs[..i];
        if rs[i].patient in cohort {
          kept := kept + [rs[i]];
        }
        i := i + 1;
      }
      assert rs[..i] == rs;
      rows := kept;
    }

    /** DATE through string_to_datetime. */
    method ParseDates()
      modifies this
      ensures header == old(header)
      ensures rows == Map(old(rows), ParseEventDate)
    {
      var rs := rows;
      var parsed: seq<EventRow> := [];
      var i := 0;
      while i < |rs|
        invariant 0 <= i <= |rs|
        invariant parsed == Map(rs[..i], ParseEventDate)
      {
        assert rs[..i + 1][..i] == rs[..i];
        parsed := parsed + [rs[i].(date := StringToDatetime(rs[i].date))];
        i := i + 1;
      }
      assert rs[..i] == rs;
      rows := parsed;
    }

    /** `df.insert(3, "AGE", ...)` with each row's age at its DATE, or today. */
    method InsertAge(ctx: AgeContext) returns (err: Option<Error>)
      modifies this
      ensures var r := AddEventAges(old(Snapshot()), ctx);
        && (r.Ok? ==> err == None && Snapshot() == r.value)
        && (r.Err? ==> err == Some(r.error) && Snapshot() == old(Snapshot()))
    {
      var rs := rows;
      var aged: seq<EventRow> := [];
      var i := 0;
      while i < |rs|
        invariant 0 <= i <= |rs|
        invariant TryMap(rs[..i], WithEventAge, ctx) == Ok(aged)
      {
        assert rs[..i + 1][..i] == rs[..i];
        var a := AgeAtEvent(rs[i].date, rs[i].patient, ctx);
        if a.Err? {
          TryMapErrPrefix(rs, WithEventAge, ctx, i + 1);
          return Some(a.error);
        }
        aged := aged + [rs[i].(age := Some(a.value))];
        i := i + 1;
      }
      assert rs[..i] == rs;
      var h := InsertColumn(header, AgeIndex, "AGE", AppliedColumns(|aged|));
      if h.Err? {
        return Some(h.error);
      }
      header, rows := h.value, aged;
      return None;
    }
  }

  /** The event tables restricted to the cohort, with parsed dates. */
  method PrepareEventTables(events: seq<Frame<EventRow>>, cohort: seq<string>)
    returns (prepared: seq<Frame<EventRow>>)
    ensures prepared == PrepareEvents(events, cohort)
  {
    prepared := [];
    var i := 0;
    while i < |events|
      invariant 0 <= i <= |events|
      invariant prepared == PrepareEvents(events[..i], cohort)
    {
      assert events[..i + 1][..i] == events[..i];
      var t := new EventTable(events[i]);
      t.FilterByCohort(cohort);
      t.ParseDates();
      prepared := prepared + [t.Snapshot()];
      i := i + 1;
    }
    assert events[..i] == events;
  }

  /** AGE for every event table in turn; the first table that raises stops the run. */
  method AgeEventTables(prepared: seq<Frame<EventRow>>, ctx: AgeContext)
    returns (r: Result<seq<Frame<EventRow>>, Error>)
    ensures r == AgeEvents(prepared, ctx)
  {
    var annotated: seq<Frame<EventRow>> := [];
    var i := 0;
    while i < |prepared|
      invariant 0 <= i <= |prepared|
      invariant AgeEvents(prepared[..i], ctx) == Ok(annotated)
    {
      assert prepared[..i + 1][..i] == prepared[..i];
      var t := new EventTable(prepared[i]);
      var err := t.InsertAge(ctx);
      if err.Some? {
        TryMapErrPrefix(prepared, AddEventAges, ctx, i + 1);
        return Err(err.value);
      }
      annotated := annotated + [t.Snapshot()];
      i := i + 1;
    }
    assert prepared[..i] == prepared;
    return Ok(annotated);
  }

  /**
   * filter_cohort_data: every table restricted to the cohort, the patient
   * table flagged, dates parsed, ages added from the birth dates of the
   * filtered patient table, DEAD recoded. The event tables come and go in
   * the order they are given. Input frames are values, so nothing the caller
   * holds is changed.
   */
  method FilterCohortData(cohort: seq<string>, cases: seq<string>, patients: Frame<PatientRow>,
                          events: seq<Frame<EventRow>>, today: CalendarDate)
    returns (r: Result<(Frame<PatientRow>, seq<Frame<EventRow>>), Error>)
    ensures r == AnnotateCohort(cohort, cases, patients, events, today)
  {
    var prepared := PrepareEventTables(events, cohort);
    var pt := new PatientTable(patients);
    pt.FilterByCohort(cohort);
    pt.FlagCases(cases);
    pt.ParseDates();
    assert pt.Snapshot() == PreparePatients(patients, cohort, cases);
    var ctx := AgeContext(BirthMap(pt.rows), today);
    var err := pt.InsertAge(ctx);
    if err.Some? {
      return Err(err.value);
    }
    pt.RecodeDeadColumn();
    var evs := AgeEventTables(prepared, ctx);
    if evs.Err? {
      return Err(evs.error);
    }
    return Ok((pt.Snapshot(), evs.value));
  }
}
