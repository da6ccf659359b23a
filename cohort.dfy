/**
 * Cohort selection: the case set is the intersection of the patient-id sets
 * of all inclusion criteria; a working cohort is a sample of cases followed by
 * a sample of the patients outside the case set.
 */
module Cohort {
  import opened Wrappers
  import opened Records

  predicate Distinct(s: seq<string>) {
    forall i, j :: 0 <= i < j < |s| ==> s[i] != s[j]
  }

  /** The patients that meet every criterion. */
  function Intersection(sets: seq<set<string>>): set<string>
    requires sets != []
  {
    if |sets| == 1 then sets[0] else Intersection(sets[..|sets| - 1]) * sets[|sets| - 1]
  }

  lemma {:induction false} IntersectionMembers(sets: seq<set<string>>, x: string)
    requires sets != []
    ensures x in Intersection(sets) <==> forall i :: 0 <= i < |sets| ==> x in sets[i]
    decreases |sets|
  {
    if |sets| > 1 {
      var p := sets[..|sets| - 1];
      IntersectionMembers(p, x);
      assert forall i :: 0 <= i < |p| ==> p[i] == sets[i];
    }
  }

  /** Two criteria sharing only p2 select exactly p2. */
  lemma IntersectionExample()
    ensures Intersection([{"p1", "p2"}, {"p2", "p3"}]) == {"p2"}
  {
    var sets := [{"p1", "p2"}, {"p2", "p3"}];
    assert sets[..1] == [{"p1", "p2"}];
    assert Intersection(sets) == {"p1", "p2"} * {"p2", "p3"};
    assert "p1" != "p2" by { assert "p1"[1] != "p2"[1]; }
    assert "p3" != "p2" by { assert "p3"[1] != "p2"[1]; }
  }

  /** The number of patient-table rows whose patient is not in s. */
  function CountOutside(patients: seq<PatientRow>, s: set<string>): (n: nat)
    ensures n <= |patients|
  {
    if patients == [] then 0
    else CountOutside(patients[..|patients| - 1], s)
         + (if patients[|patients| - 1].patient in s then 0 else 1)
  }

  /** The "not meeting criteria" count is the size of the control population a sample is drawn from. */
  lemma {:induction false} CountOutsideIsControls(patients: seq<PatientRow>, cases: seq<string>)
    ensures CountOutside(patients, set x | x in cases) == |Controls(patients, cases)|
    decreases |patients|
  {
    if patients != [] {
      CountOutsideIsControls(patients[..|patients| - 1], cases);
    }
  }

  /**
   * generate_cohort: the case set as a duplicate-free list in an unspecified
   * order, with the two counts the source reports (patients meeting all
   * criteria; patient rows not meeting them). No input set is changed: the
   * sets are values.
   */
  method GenerateCohort(patients: seq<PatientRow>, patientSets: seq<set<string>>)
    returns (r: Result<seq<string>, Error>, meeting: nat, notMeeting: nat)
    ensures patientSets == [] <==> r.Err?
    ensures r.Err? ==> r.error == NoCriteria
    ensures r.Ok? ==> Distinct(r.value)
    ensures r.Ok? ==> forall x :: x in r.value <==> (forall i :: 0 <= i < |patientSets| ==> x in patientSets[i])
    ensures r.Ok? ==> meeting == |r.value| && notMeeting == CountOutside(patients, set x | x in r.value)
  {
    if patientSets == [] {
      return Err(NoCriteria), 0, 0;
    }
    var cases := patientSets[0];
    var i := 1;
    while i < |patientSets|
      invariant 1 <= i <= |patientSets|
      invariant cases == Intersection(patientSets[..i])
    {
      assert patientSets[..i + 1][..i] == patientSets[..i];
      cases := cases * patientSets[i];
      i := i + 1;
    }
    assert patientSets[..i] == patientSets;
    var list: seq<string> := [];
    var rest := cases;
    while rest != {}
      invariant Distinct(list)
      invariant rest <= cases
      invariant forall x :: x in list <==> x in cases && x !in rest
      invariant |list| + |rest| == |cases|
      decreases |rest|
    {
      var x :| x in rest;
      list := list + [x];
      rest := rest - {x};
    }
    forall x
      ensures x in list <==> (forall j :: 0 <= j < |patientSets| ==> x in patientSets[j])
    {
      IntersectionMembers(patientSets, x);
    }
    assert (set x | x in list) == cases;
    return Ok(list), |list|, CountOutside(patients, cases);
  }

  /** The patient column restricted to ids outside the case list, in table order. */
  function Controls(patients: seq<PatientRow>, cases: seq<string>): (c: seq<string>)
    ensures forall x :: x in c <==> x !in cases && exists p :: p in patients && p.patient == x
  {
    if patients == [] then []
    else
      var p := patients[|patients| - 1];
      var init := patients[..|patients| - 1];
      assert forall q :: q in patients <==> q in init || q == p;
      Controls(init, cases) + (if p.patient in cases then [] else [p.patient])
  }

  /**
   * random.sample: k entries drawn from distinct positions of the population,
   * in any order; more than the population, or a negative k, is an error.
   * Which positions are drawn is left open.
   */
  method Sample(population: seq<string>, k: int) returns (r: Result<seq<string>, Error>)
    ensures r.Err? <==> k < 0 || k > |population|
    ensures r.Err? ==> r.error == SampleOutOfRange(|population|, k)
    ensures r.Ok? ==> |r.value| == k && multiset(r.value) <= multiset(population)
  {
    if k < 0 || k > |population| {
      return Err(SampleOutOfRange(|population|, k));
    }
    var drawn: seq<string> := [];
    var pool := population;
    while |drawn| < k
      invariant |drawn| + |pool| == |population|
      invariant |drawn| <= k
      invariant multiset(drawn) + multiset(pool) == multiset(population)
    {
      var j :| 0 <= j < |pool|;
      assert pool == pool[..j] + [pool[j]] + pool[j + 1..];
      drawn := drawn + [pool[j]];
      pool := pool[..j] + pool[j + 1..];
    }
    return Ok(drawn);
  }

  /**
   * generate_cohort_sample: caseN cases then controlN controls, drawn
   * without replacement; no shuffling.
   */
  method GenerateCohortSample(caseN: int, controlN: int, cases: seq<string>, patients: seq<PatientRow>)
    returns (r: Result<seq<string>, Error>)
    ensures r.Err? <==> caseN < 0 || caseN > |cases| || controlN < 0 || controlN > |Controls(patients, cases)|
    ensures r.Err? ==> r.error == if caseN < 0 || caseN > |cases| then SampleOutOfRange(|cases|, caseN)
                                 else SampleOutOfRange(|Controls(patients, cases)|, controlN)
    ensures r.Ok? ==> caseN >= 0 && |r.value| == caseN + controlN
    ensures r.Ok? ==> multiset(r.value[..caseN]) <= multiset(cases)
    ensures r.Ok? ==> multiset(r.value[caseN..]) <= multiset(Controls(patients, cases))
  {
    var caseSample := Sample(cases, caseN);
    if caseSample.Err? {
      return Err(caseSample.error);
    }
    var controlSample := Sample(Controls(patients, cases), controlN);
    if controlSample.Err? {
      return Err(controlSample.error);
    }
    var cohort := caseSample.value + controlSample.value;
    assert cohort[..caseN] == caseSample.value;
    assert cohort[caseN..] == controlSample.value;
    return Ok(cohort);
  }

  lemma {:induction false} DistinctCounts(s: seq<string>, x: string)
    requires Distinct(s)
    ensures multiset(s)[x] <= 1
    decreases |s|
  {
    if s != [] {
      var init := s[..|s| - 1];
      assert s == init + [s[|s| - 1]];
      DistinctCounts(init, x);
      if s[|s| - 1] == x {
        assert x !in init;
      }
    }
  }

  /** A sample drawn from distinct positions of a duplicate-free list has no duplicates. */
  lemma {:induction false} SubMultisetDistinct(a: seq<string>, b: seq<string>)
    requires multiset(a) <= multiset(b) && Distinct(b)
    ensures Distinct(a)
  {
    forall i, j | 0 <= i < j < |a|
      ensures a[i] != a[j]
    {
      if a[i] == a[j] {
        var x := a[i];
        assert a == a[..i] + [x] + a[i + 1..j] + [x] + a[j + 1..];
        assert multiset(a)[x] >= 2;
        DistinctCounts(b, x);
      }
    }
  }

  function PatientIds(patients: seq<PatientRow>): seq<string> {
    if patients == [] then [] else PatientIds(patients[..|patients| - 1]) + [patients[|patients| - 1].patient]
  }

  lemma {:induction false} ControlsDistinct(patients: seq<PatientRow>, cases: seq<string>)
    requires Distinct(PatientIds(patients))
    ensures Distinct(Controls(patients, cases))
    decreases |patients|
  {
    if patients != [] {
      var init := patients[..|patients| - 1];
      var ids := PatientIds(patients);
      assert PatientIds(init) == ids[..|ids| - 1];
      ControlsDistinct(init, cases);
      var p := patients[|patients| - 1];
      forall q | q in init
        ensures q.patient != p.patient
      {
        var k :| 0 <= k < |init| && init[k] == q;
        PatientIdsAt(init, k);
        PatientIdsLength(patients);
        assert ids[k] == q.patient && ids[|ids| - 1] == p.patient;
      }
    }
  }

  lemma {:induction false} PatientIdsAt(patients: seq<PatientRow>, k: int)
    requires 0 <= k < |patients|
    ensures |PatientIds(patients)| == |patients| && PatientIds(patients)[k] == patients[k].patient
    decreases |patients|
  {
    if k < |patients| - 1 {
      PatientIdsAt(patients[..|patients| - 1], k);
    } else {
      PatientIdsLength(patients[..|patients| - 1]);
    }
  }

  lemma {:induction false} PatientIdsLength(patients: seq<PatientRow>)
    ensures |PatientIds(patients)| == |patients|
    decreases |patients|
  {
    if patients != [] {
      PatientIdsLength(patients[..|patients| - 1]);
    }
  }

  /**
   * With a duplicate-free case list and unique patient ids, a sampled cohort
   * has no duplicates: the control draw contains no case.
   */
  lemma {:induction false} CohortSampleDistinct(caseN: int, cohort: seq<string>, cases: seq<string>, patients: seq<PatientRow>)
    requires Distinct(cases) && Distinct(PatientIds(patients))
    requires 0 <= caseN <= |cohort|
    requires multiset(cohort[..caseN]) <= multiset(cases)
    requires multiset(cohort[caseN..]) <= multiset(Controls(patients, cases))
    ensures Distinct(cohort)
  {
    var a, b := cohort[..caseN], cohort[caseN..];
    assert cohort == a + b;
    SubMultisetDistinct(a, cases);
    ControlsDistinct(patients, cases);
    SubMultisetDistinct(b, Controls(patients, cases));
    forall i, j | 0 <= i < |a| && 0 <= j < |b|
      ensures a[i] != b[j]
    {
      assert a[i] in multiset(a);
      assert b[j] in multiset(b);
      assert a[i] in cases;
      assert b[j] in Controls(patients, cases);
    }
  }
}
