/**
 * `join_synthea_tables`: each clinical domain table is reduced to one row per
 * (PATIENT, DESCRIPTION), projected onto the common columns of the event log,
 * tagged with its CLASS and coding SYSTEM, and the blocks are concatenated and
 * stripped of identical rows.
 */
module Unify {
  import opened Wrappers
  import opened Dates
  import opened Records
  import opened Dedup
  import opened Sorting
  import opened Concat

  /** The clinical domains that reach the event log. */
  datatype Domain =
    | Allergy | Careplan | Condition | Device | Encounter
    | Immunization | Medication | Observation | Procedure

  /**
   * A row of the unified event log; its CLASS cell is the name of its domain,
   * and VALUE, UNITS and TYPE are filled only on observation rows.
   */
  datatype LogRow = LogRow(
    domain: Domain, patient: string, date: Value, age: Option<int>, system: Value,
    description: Value, code: Value, value: Value, units: Value, kind: Value)

  /** The CLASS tag: the domain's name. */
  function ClassName(d: Domain): string {
    match d
    case Allergy => "allergy"
    case Careplan => "careplan"
    case Condition => "condition"
    case Device => "device"
    case Encounter => "encounter"
    case Immunization => "immunization"
    case Medication => "medication"
    case Observation => "observation"
    case Procedure => "procedure"
  }

  /** The SYSTEM cell: allergies keep their own, every other domain gets a constant. */
  function SystemOf(d: Domain, r: EventRow): Value {
    match d
    case Allergy => r.system
    case Immunization => Text("CVX")
    case Medication => Text("RXNORM")
    case Observation => Text("LOINC")
    case _ => Text("SNOMED-CT")
  }

  /** The duplicate key of every domain table. */
  function PairKey(r: EventRow): (string, Value) {
    (r.patient, r.description)
  }

  /** The key of the per-class invariant of the log: (CLASS, PATIENT, DESCRIPTION). */
  function ClassKey(r: LogRow): (Domain, string, Value) {
    (r.domain, r.patient, r.description)
  }

  /** The full-row key of the final `drop_duplicates()`. */
  function WholeRow(r: LogRow): LogRow {
    r
  }

  // ---------------------------------------------------------------------
  // Observations: sorted by DATE, latest first, before duplicates go
  // ---------------------------------------------------------------------

  /** Sort key of a DATE cell; cells that are not dates sort last. */
  function DateRank(r: EventRow): int {
    if r.date.Day? then DateKey(r.date.date) else 0
  }

  /** On rows sorted latest first, the first row of a pair is the latest one of that pair. */
  lemma FirstOfSortedIsLatest(sorted: seq<EventRow>, y: EventRow, x: EventRow)
    requires SortedDown(sorted, DateRank)
    requires y in DedupBy(sorted, PairKey)
    requires x in sorted && PairKey(x) == PairKey(y)
    ensures DateRank(x) <= DateRank(y)
  {
    DedupFromFirst(sorted, PairKey, {}, y);
    var i :| 0 <= i < |sorted| && sorted[i] == y && forall j :: 0 <= j < i ==> PairKey(sorted[j]) != PairKey(y);
    var j :| 0 <= j < |sorted| && sorted[j] == x;
    assert !(j < i);
  }

  /** The observation rows that survive: the latest row of every (PATIENT, DESCRIPTION). */
  function LatestObservations(rows: seq<EventRow>): seq<EventRow> {
    DedupBy(SortDown(rows, DateRank), PairKey)
  }

  /**
   * Every (PATIENT, DESCRIPTION) of the observation table keeps exactly one row,
   * and it is one of its rows with the latest DATE.
   */
  lemma LatestObservationKept(rows: seq<EventRow>, x: EventRow)
    requires x in rows
    ensures exists y :: y in LatestObservations(rows) && PairKey(y) == PairKey(x)
    ensures forall y :: y in LatestObservations(rows) && PairKey(y) == PairKey(x) ==>
      y in rows && DateRank(x) <= DateRank(y)
    ensures forall y :: y in LatestObservations(rows) && PairKey(y) == PairKey(x) && x.date.Day? ==>
      y.date.Day? && !Before(y.date.date, x.date.date)
  {
    var sorted := SortDown(rows, DateRank);
    SortDownSorted(rows, DateRank);
    assert x in multiset(sorted);
    DedupFromCovers(sorted, PairKey, {}, x);
    DedupFromKeys(sorted, PairKey, {});
    forall y | y in LatestObservations(rows) && PairKey(y) == PairKey(x)
      ensures y in rows && DateRank(x) <= DateRank(y)
    {
      assert y in multiset(rows);
      FirstOfSortedIsLatest(sorted, y, x);
    }
    forall y | y in LatestObservations(rows) && PairKey(y) == PairKey(x) && x.date.Day?
      ensures y.date.Day? && !Before(y.date.date, x.date.date)
    {
      DateKeyOrder(x.date.date, x.date.date);
      if y.date.Day? {
        DateKeyOrder(y.date.date, x.date.date);
      }
    }
  }

  // ---------------------------------------------------------------------
  // Domain blocks
  // ---------------------------------------------------------------------

  /** The row of the event log made from one row of domain d. */
  function ToLog(d: Domain, r: EventRow): LogRow {
    LogRow(d, r.patient, r.date, r.age, SystemOf(d, r), r.description, r.code,
      if d == Observation then r.value else Missing,
      if d == Observation then r.units else Missing,
      if d == Observation then r.kind else Missing)
  }

  function Project(d: Domain, rows: seq<EventRow>): (out: seq<LogRow>)
    ensures |out| == |rows|
    ensures forall i :: 0 <= i < |rows| ==> out[i] == ToLog(d, rows[i])
  {
    seq(|rows|, i requires 0 <= i < |rows| => ToLog(d, rows[i]))
  }

  /** The rows of domain d kept before the projection. */
  function Kept(d: Domain, rows: seq<EventRow>): seq<EventRow> {
    if d == Observation then LatestObservations(rows) else DedupBy(rows, PairKey)
  }

  /** The block domain d contributes to the concatenation. */
  function Block(d: Domain, rows: seq<EventRow>): seq<LogRow> {
    Project(d, Kept(d, rows))
  }

  /** Every domain keeps one row of each (PATIENT, DESCRIPTION) of its table, and nothing else. */
  lemma KeptShape(d: Domain, rows: seq<EventRow>)
    ensures UniqueKeys(Kept(d, rows), PairKey)
    ensures forall y :: y in Kept(d, rows) ==> y in rows
    ensures forall x :: x in rows ==> exists y :: y in Kept(d, rows) && PairKey(y) == PairKey(x)
  {
    if d == Observation {
      var sorted := SortDown(rows, DateRank);
      SortDownSorted(rows, DateRank);
      DedupFromKeys(sorted, PairKey, {});
      forall y | y in Kept(d, rows)
        ensures y in rows
      {
        assert y in multiset(rows);
      }
      forall x | x in rows
        ensures exists y :: y in Kept(d, rows) && PairKey(y) == PairKey(x)
      {
        LatestObservationKept(rows, x);
      }
    } else {
      DedupFromKeys(rows, PairKey, {});
      forall x | x in rows
        ensures exists y :: y in Kept(d, rows) && PairKey(y) == PairKey(x)
      {
        DedupFromCovers(rows, PairKey, {}, x);
      }
    }
  }

  /** Projecting rows with unique pairs gives rows with unique class keys, all of domain d. */
  lemma ProjectShape(d: Domain, kept: seq<EventRow>)
    requires UniqueKeys(kept, PairKey)
    ensures UniqueKeys(Project(d, kept), ClassKey)
    ensures forall r :: r in Project(d, kept) ==> r.domain == d
  {
    var b := Project(d, kept);
    forall i, j | 0 <= i < j < |b|
      ensures ClassKey(b[i]) != ClassKey(b[j])
    {
      assert PairKey(kept[i]) != PairKey(kept[j]);
    }
  }

  /**
   * A block holds at most one row per (PATIENT, DESCRIPTION), all of its
   * domain, each the projection of a row of the table, and every pair of the
   * table is represented.
   */
  lemma BlockShape(d: Domain, rows: seq<EventRow>)
    ensures UniqueKeys(Block(d, rows), ClassKey)
    ensures forall r :: r in Block(d, rows) ==> r.domain == d
    ensures forall r :: r in Block(d, rows) ==> exists x :: x in rows && r == ToLog(d, x)
    ensures forall x :: x in rows ==>
      exists r :: r in Block(d, rows) && r.patient == x.patient && r.description == x.description
  {
    KeptShape(d, rows);
    ProjectShape(d, Kept(d, rows));
    ProjectFromRows(d, Kept(d, rows), rows);
    ProjectCovers(d, Kept(d, rows), rows);
  }

  /** Every projected row is the projection of a row of the table. */
  lemma ProjectFromRows(d: Domain, kept: seq<EventRow>, rows: seq<EventRow>)
    requires forall y :: y in kept ==> y in rows
    ensures forall r :: r in Project(d, kept) ==> exists x :: x in rows && r == ToLog(d, x)
  {
    forall r | r in Project(d, kept)
      ensures exists x :: x in rows && r == ToLog(d, x)
    {
      var i :| 0 <= i < |kept| && Project(d, kept)[i] == r;
      assert kept[i] in rows;
    }
  }

  /** Every (PATIENT, DESCRIPTION) of the table that was kept shows in the projection. */
  lemma ProjectCovers(d: Domain, kept: seq<EventRow>, rows: seq<EventRow>)
    requires forall x :: x in rows ==> exists y :: y in kept && PairKey(y) == PairKey(x)
    ensures forall x :: x in rows ==>
      exists r :: r in Project(d, kept) && r.patient == x.patient && r.description == x.description
  {
    forall x | x in rows
      ensures exists r :: r in Project(d, kept) && r.patient == x.patient && r.description == x.description
    {
      var y :| y in kept && PairKey(y) == PairKey(x);
      var i :| 0 <= i < |kept| && kept[i] == y;
      assert Project(d, kept)[i] in Project(d, kept);
    }
  }

  /**
   * The tags of a block: CLASS is the domain; SYSTEM is the allergy's own or
   * the domain's coding system; VALUE, UNITS and TYPE are empty outside
   * observations; PATIENT, DATE, AGE, DESCRIPTION and CODE are copied.
   */
  lemma BlockTags(d: Domain, rows: seq<EventRow>)
    ensures forall r :: r in Block(d, rows) ==> r.domain == d
    ensures forall r :: r in Block(d, rows) && d == Allergy ==>
      exists x :: x in rows && r.system == x.system && r.patient == x.patient && r.description == x.description
    ensures forall r :: r in Block(d, rows) && d in {Careplan, Condition, Device, Encounter, Procedure} ==>
      r.system == Text("SNOMED-CT")
    ensures forall r :: r in Block(d, rows) && d == Immunization ==> r.system == Text("CVX")
    ensures forall r :: r in Block(d, rows) && d == Medication ==> r.system == Text("RXNORM")
    ensures forall r :: r in Block(d, rows) && d == Observation ==> r.system == Text("LOINC")
    ensures forall r :: r in Block(d, rows) && d != Observation ==>
      r.value == Missing && r.units == Missing && r.kind == Missing
    ensures forall r :: r in Block(d, rows) ==>
      (exists x :: x in rows && r.patient == x.patient && r.date == x.date && r.age == x.age
                   && r.description == x.description && r.code == x.code)
  {
    KeptShape(d, rows);
    ProjectTags(d, Kept(d, rows), rows);
  }

  lemma ProjectTags(d: Domain, kept: seq<EventRow>, rows: seq<EventRow>)
    requires forall y :: y in kept ==> y in rows
    ensures forall r :: r in Project(d, kept) ==> r.domain == d
    ensures forall r :: r in Project(d, kept) && d == Allergy ==>
      exists x :: x in rows && r.system == x.system && r.patient == x.patient && r.description == x.description
    ensures forall r :: r in Project(d, kept) && d in {Careplan, Condition, Device, Encounter, Procedure} ==>
      r.system == Text("SNOMED-CT")
    ensures forall r :: r in Project(d, kept) && d == Immunization ==> r.system == Text("CVX")
    ensures forall r :: r in Project(d, kept) && d == Medication ==> r.system == Text("RXNORM")
    ensures forall r :: r in Project(d, kept) && d == Observation ==> r.system == Text("LOINC")
    ensures forall r :: r in Project(d, kept) && d != Observation ==>
      r.value == Missing && r.units == Missing && r.kind == Missing
    ensures forall r :: r in Project(d, kept) ==>
      (exists x :: x in rows && r.patient == x.patient && r.date == x.date && r.age == x.age
                   && r.description == x.description && r.code == x.code)
  {
    forall r | r in Project(d, kept)
      ensures d == Allergy ==>
        exists x :: x in rows && r.system == x.system && r.patient == x.patient && r.description == x.description
      ensures exists x :: x in rows && r.patient == x.patient && r.date == x.date && r.age == x.age
                          && r.description == x.description && r.code == x.code
    {
      var i :| 0 <= i < |kept| && Project(d, kept)[i] == r;
      assert kept[i] in rows;
    }
  }

  /**
   * Outside observations, each kept row is the first row of its
   * (PATIENT, DESCRIPTION) in the table's own order.
   */
  lemma BlockKeepsFirst(d: Domain, rows: seq<EventRow>, r: LogRow)
    requires d != Observation && r in Block(d, rows)
    ensures exists i :: 0 <= i < |rows| && r == ToLog(d, rows[i])
                        && forall j :: 0 <= j < i ==> PairKey(rows[j]) != PairKey(rows[i])
  {
    var kept := Kept(d, rows);
    var k :| 0 <= k < |kept| && Block(d, rows)[k] == r;
    DedupFromFirst(rows, PairKey, {}, kept[k]);
  }

  // ---------------------------------------------------------------------
  // The event log
  // ---------------------------------------------------------------------

  /** The ten tables `join_synthea_tables` receives (the patient table is not one of them). */
  datatype EventTables = EventTables(
    allergy: seq<EventRow>, careplan: seq<EventRow>, condition: seq<EventRow>,
    device: seq<EventRow>, encounter: seq<EventRow>, imaging: seq<EventRow>,
    immunization: seq<EventRow>, medication: seq<EventRow>,
    observation: seq<EventRow>, procedure: seq<EventRow>)

  function PartBlock(p: (Domain, seq<EventRow>)): seq<LogRow> {
    Block(p.0, p.1)
  }

  /** `pd.concat` of the blocks of a list of (domain, table) parts, in list order. */
  function Blocks(parts: seq<(Domain, seq<EventRow>)>): seq<LogRow> {
    FlatMap(parts, PartBlock)
  }

  /** The parts up to and including medication, in the order of the concatenation. */
  function LeadingParts(t: EventTables): seq<(Domain, seq<EventRow>)> {
    [(Allergy, t.allergy), (Careplan, t.careplan), (Condition, t.condition),
     (Device, t.device), (Encounter, t.encounter), (Immunization, t.immunization),
     (Procedure, t.procedure), (Medication, t.medication)]
  }

  /** The concatenation as written: the procedure table appears a second time. */
  function Concatenated(t: EventTables): seq<LogRow> {
    Blocks(LeadingParts(t) + [(Procedure, t.procedure), (Observation, t.observation)])
  }

  function JoinSyntheaTables(t: EventTables): seq<LogRow> {
    DedupBy(Concatenated(t), WholeRow)
  }

  /** The event log with each domain's block once, in the order the blocks are concatenated. */
  function DomainBlocks(t: EventTables): seq<LogRow> {
    Blocks(LeadingParts(t) + [(Observation, t.observation)])
  }

  predicate InDomains(s: seq<LogRow>, ds: set<Domain>) {
    forall r :: r in s ==> r.domain in ds
  }

  function DomainsOf(parts: seq<(Domain, seq<EventRow>)>): set<Domain> {
    set i | 0 <= i < |parts| :: parts[i].0
  }

  predicate DistinctDomains(parts: seq<(Domain, seq<EventRow>)>) {
    forall i, j :: 0 <= i < j < |parts| ==> parts[i].0 != parts[j].0
  }

  /** Parts of distinct domains give a concatenation with unique class keys. */
  lemma {:induction false} BlocksShape(parts: seq<(Domain, seq<EventRow>)>)
    requires DistinctDomains(parts)
    ensures UniqueKeys(Blocks(parts), ClassKey)
    ensures InDomains(Blocks(parts), DomainsOf(parts))
    decreases |parts|
  {
    if parts != [] {
      var rest := parts[1..];
      assert DistinctDomains(rest) by {
        forall i, j | 0 <= i < j < |rest|
          ensures rest[i].0 != rest[j].0
        {
          assert rest[i] == parts[i + 1] && rest[j] == parts[j + 1];
        }
      }
      BlocksShape(rest);
      var d := parts[0].0;
      BlockShape(d, parts[0].1);
      assert d !in DomainsOf(rest) by {
        forall i | 0 <= i < |rest|
          ensures rest[i].0 != d
        {
          assert rest[i] == parts[i + 1];
        }
      }
      assert DomainsOf(parts) == {d} + DomainsOf(rest) by {
        forall e | e in DomainsOf(parts)
          ensures e in {d} + DomainsOf(rest)
        {
          var i :| 0 <= i < |parts| && parts[i].0 == e;
          if i > 0 {
            assert rest[i - 1] == parts[i];
          }
        }
        forall e | e in DomainsOf(rest)
          ensures e in DomainsOf(parts)
        {
          var i :| 0 <= i < |rest| && rest[i].0 == e;
          assert parts[i + 1] == rest[i];
        }
      }
      assert Blocks(parts) == PartBlock(parts[0]) + Blocks(rest);
      UniqueKeysAppend(PartBlock(parts[0]), Blocks(rest), ClassKey);
    }
  }

  /** Rows with unique (CLASS, PATIENT, DESCRIPTION) are in particular distinct rows. */
  lemma ClassKeysDistinguishRows(s: seq<LogRow>)
    requires UniqueKeys(s, ClassKey)
    ensures UniqueKeys(s, WholeRow)
  {
  }

  /**
   * No domain is named imaging. This holds by construction, since `Domain`
   * has no imaging case: no block is ever built from the imaging table.
   */
  lemma NoImagingClass(d: Domain)
    ensures ClassName(d) != "imaging"
  {
    assert |"imaging"| == 7 && "imaging"[0] == 'i';
    if d == Allergy {
      assert ClassName(d)[0] == 'a';
    }
  }

  /** The per-class invariant of the log and the classes it can hold. */
  lemma DomainBlocksShape(t: EventTables)
    ensures UniqueKeys(DomainBlocks(t), ClassKey)
    ensures forall r :: r in DomainBlocks(t) ==> ClassName(r.domain) != "imaging"
  {
    BlocksShape(LeadingParts(t) + [(Observation, t.observation)]);
    forall r | r in DomainBlocks(t)
      ensures ClassName(r.domain) != "imaging"
    {
      NoImagingClass(r.domain);
    }
  }

  /** None of the leading parts is the observation table. */
  lemma LeadingDomains(t: EventTables)
    ensures DistinctDomains(LeadingParts(t))
    ensures Observation !in DomainsOf(LeadingParts(t))
    ensures LeadingParts(t)[6] == (Procedure, t.procedure)
  {
  }

  /**
   * The final `drop_duplicates()` removes exactly the second procedure block:
   * the log is the nine domain blocks, each once, in the order allergy,
   * careplan, condition, device, encounter, immunization, procedure,
   * medication, observation.
   */
  lemma JoinIsDomainBlocks(t: EventTables)
    ensures JoinSyntheaTables(t) == DomainBlocks(t)
  {
    var lead := Blocks(LeadingParts(t));
    var proc := Block(Procedure, t.procedure);
    var obs := Block(Observation, t.observation);
    FlatMapSplit(LeadingParts(t), (Procedure, t.procedure), (Observation, t.observation), PartBlock);
    LeadingDomains(t);
    BlocksShape(LeadingParts(t));
    BlockShape(Observation, t.observation);
    BlockShape(Procedure, t.procedure);
    ClassKeysDistinguishRows(lead);
    ClassKeysDistinguishRows(obs);
    forall x | x in proc
      ensures exists y :: y in lead && WholeRow(y) == WholeRow(x)
    {
      FlatMapContains(LeadingParts(t), PartBlock, 6, x);
    }
    forall x, y | x in obs && y in lead + proc
      ensures WholeRow(x) != WholeRow(y)
    {
      assert x.domain == Observation;
    }
    DropRepeated(lead, proc, obs, WholeRow);
  }

  /**
   * The log holds at most one row per (CLASS, PATIENT, DESCRIPTION) and does
   * not depend on the imaging table: whatever that table holds, the log is
   * the same. That it holds no row of class imaging follows from `Domain`
   * alone (see NoImagingClass).
   */
  lemma EventLogShape(t: EventTables, imaging: seq<EventRow>)
    ensures UniqueKeys(JoinSyntheaTables(t), ClassKey)
    ensures forall r :: r in JoinSyntheaTables(t) ==> ClassName(r.domain) != "imaging"
    ensures JoinSyntheaTables(t.(imaging := imaging)) == JoinSyntheaTables(t)
  {
    JoinIsDomainBlocks(t);
    DomainBlocksShape(t);
  }

  /** Dropping duplicates again, by whole row or by class key, changes nothing. */
  lemma EventLogIdempotent(t: EventTables)
    ensures DedupBy(JoinSyntheaTables(t), WholeRow) == JoinSyntheaTables(t)
    ensures DedupBy(JoinSyntheaTables(t), ClassKey) == JoinSyntheaTables(t)
  {
    EventLogShape(t, t.imaging);
    ClassKeysDistinguishRows(JoinSyntheaTables(t));
    DedupFromUnique(JoinSyntheaTables(t), WholeRow, {});
    DedupFromUnique(JoinSyntheaTables(t), ClassKey, {});
  }

  /** Two allergy rows of one patient and description collapse to the first. */
  lemma AllergyDuplicatesCollapse(a: EventRow, b: EventRow)
    requires PairKey(a) == PairKey(b)
    ensures Block(Allergy, [a, b]) == [ToLog(Allergy, a)]
  {
    assert [a, b][1..] == [b];
    assert [b][1..] == [];
    assert DedupFrom([b], PairKey, {} + {PairKey(a)}) == DedupFrom([], PairKey, {} + {PairKey(a)});
    assert DedupFrom([a, b], PairKey, {}) == [a] + DedupFrom([b], PairKey, {} + {PairKey(a)});
    assert Kept(Allergy, [a, b]) == [a];
    assert Project(Allergy, [a])[0] == ToLog(Allergy, a);
  }

  /** The later of two observations of a patient and description, in either order, is kept. */
  lemma LaterObservationKept(early: EventRow, late: EventRow)
    requires PairKey(early) == PairKey(late)
    requires early.date.Day? && late.date.Day? && Before(early.date.date, late.date.date)
    ensures Block(Observation, [early, late]) == [ToLog(Observation, late)]
    ensures Block(Observation, [late, early]) == [ToLog(Observation, late)]
  {
    DateKeyOrder(early.date.date, late.date.date);
    assert DateRank(early) < DateRank(late);
    assert [early, late][1..] == [late];
    assert [late, early][1..] == [early];
    assert [late][1..] == [] && [early][1..] == [];
    assert SortDown([late], DateRank) == [late];
    assert SortDown([early], DateRank) == [early];
    assert InsertDown(early, [late], DateRank) == [late] + InsertDown(early, [], DateRank);
    assert SortDown([early, late], DateRank) == [late, early];
    assert SortDown([late, early], DateRank) == [late, early];
    assert DedupFrom([early], PairKey, {} + {PairKey(late)}) == DedupFrom([], PairKey, {} + {PairKey(late)});
    assert DedupFrom([late, early], PairKey, {}) == [late] + DedupFrom([early], PairKey, {} + {PairKey(late)});
    assert LatestObservations([early, late]) == [late];
    assert LatestObservations([late, early]) == [late];
    assert Project(Observation, [late])[0] == ToLog(Observation, late);
  }
}
