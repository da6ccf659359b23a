/**
 * Column-wide operations on the rows of a data frame: boolean-mask
 * selection by patient, an elementwise `apply`, and an `apply` that can raise
 * (the first row that raises decides the error).
 */
module Rows {
  import opened Wrappers

  /** `df[df["PATIENT"].isin(cohort)]`: the rows whose patient is in the cohort, in order. */
  function KeepCohort<R>(rows: seq<R>, key: R -> string, cohort: seq<string>): seq<R> {
    if rows == [] then []
    else KeepCohort(rows[..|rows| - 1], key, cohort)
         + (if key(rows[|rows| - 1]) in cohort then [rows[|rows| - 1]] else [])
  }

  /** Selection distributes over concatenation: surviving rows keep their relative order. */
  lemma {:induction false} KeepCohortAppend<R>(a: seq<R>, b: seq<R>, key: R -> string, cohort: seq<string>)
    ensures KeepCohort(a + b, key, cohort) == KeepCohort(a, key, cohort) + KeepCohort(b, key, cohort)
    decreases |b|
  {
    if b == [] {
      assert a + b == a;
    } else {
      var b' := b[..|b| - 1];
      assert (a + b)[..|a + b| - 1] == a + b';
      KeepCohortAppend(a, b', key, cohort);
    }
  }

  /** A row is kept exactly as often as it occurs, when its patient is in the cohort, and never otherwise. */
  lemma {:induction false} KeepCohortCount<R>(rows: seq<R>, key: R -> string, cohort: seq<string>, x: R)
    ensures multiset(KeepCohort(rows, key, cohort))[x] == if key(x) in cohort then multiset(rows)[x] else 0
    decreases |rows|
  {
    if rows != [] {
      var init := rows[..|rows| - 1];
      assert rows == init + [rows[|rows| - 1]];
      KeepCohortCount(init, key, cohort, x);
    }
  }

  lemma {:induction false} KeepCohortMembers<R>(rows: seq<R>, key: R -> string, cohort: seq<string>, x: R)
    ensures x in KeepCohort(rows, key, cohort) <==> x in rows && key(x) in cohort
  {
    KeepCohortCount(rows, key, cohort, x);
    assert x in KeepCohort(rows, key, cohort) <==> x in multiset(KeepCohort(rows, key, cohort));
    assert x in rows <==> x in multiset(rows);
  }

  /** Selecting twice by the same cohort selects nothing more. */
  lemma {:induction false} KeepCohortIdempotent<R>(rows: seq<R>, key: R -> string, cohort: seq<string>)
    ensures KeepCohort(KeepCohort(rows, key, cohort), key, cohort) == KeepCohort(rows, key, cohort)
    decreases |rows|
  {
    if rows != [] {
      var init := rows[..|rows| - 1];
      var last := rows[|rows| - 1];
      KeepCohortIdempotent(init, key, cohort);
      var tail := if key(last) in cohort then [last] else [];
      KeepCohortAppend(KeepCohort(init, key, cohort), tail, key, cohort);
      assert KeepCohort(tail, key, cohort) == tail by {
        if tail != [] {
          assert tail[..0] == [];
        }
      }
    }
  }

  /** An elementwise `apply` of f. */
  function Map<R>(rows: seq<R>, f: R -> R): (out: seq<R>)
    ensures |out| == |rows|
  {
    if rows == [] then [] else Map(rows[..|rows| - 1], f) + [f(rows[|rows| - 1])]
  }

  lemma {:induction false} MapAt<R>(rows: seq<R>, f: R -> R, i: int)
    requires 0 <= i < |rows|
    ensures Map(rows, f)[i] == f(rows[i])
    decreases |rows|
  {
    if i < |rows| - 1 {
      MapAt(rows[..|rows| - 1], f, i);
    }
  }

  /** An elementwise `apply` of f with a context argument c. */
  function MapWith<R, C>(rows: seq<R>, f: (R, C) -> R, c: C): (out: seq<R>)
    ensures |out| == |rows|
  {
    if rows == [] then [] else MapWith(rows[..|rows| - 1], f, c) + [f(rows[|rows| - 1], c)]
  }

  lemma {:induction false} MapWithAt<R, C>(rows: seq<R>, f: (R, C) -> R, c: C, i: int)
    requires 0 <= i < |rows|
    ensures MapWith(rows, f, c)[i] == f(rows[i], c)
    decreases |rows|
  {
    if i < |rows| - 1 {
      MapWithAt(rows[..|rows| - 1], f, c, i);
    }
  }

  /** An `apply` of f, row by row, that stops at the first row f fails on. */
  function TryMap<R, C, E>(rows: seq<R>, f: (R, C) -> Result<R, E>, c: C): Result<seq<R>, E> {
    if rows == [] then Ok([])
    else
      match TryMap(rows[..|rows| - 1], f, c)
      case Err(e) => Err(e)
      case Ok(done) =>
        match f(rows[|rows| - 1], c)
        case Err(e) => Err(e)
        case Ok(r) => Ok(done + [r])
  }

  /** TryMap succeeds exactly when f succeeds on every row, and then maps each row. */
  lemma {:induction false} TryMapOk<R, C, E>(rows: seq<R>, f: (R, C) -> Result<R, E>, c: C)
    ensures TryMap(rows, f, c).Ok? <==> forall i :: 0 <= i < |rows| ==> f(rows[i], c).Ok?
    ensures TryMap(rows, f, c).Ok? ==>
      |TryMap(rows, f, c).value| == |rows|
      && forall i :: 0 <= i < |rows| ==> TryMap(rows, f, c).value[i] == f(rows[i], c).value
    decreases |rows|
  {
    if rows != [] {
      var init := rows[..|rows| - 1];
      TryMapOk(init, f, c);
      assert forall i :: 0 <= i < |init| ==> init[i] == rows[i];
    }
  }

  /** When TryMap fails, the error is that of the first row f fails on. */
  lemma {:induction false} TryMapFirstError<R, C, E>(rows: seq<R>, f: (R, C) -> Result<R, E>, c: C)
    requires TryMap(rows, f, c).Err?
    ensures exists i :: 0 <= i < |rows| && f(rows[i], c) == Err(TryMap(rows, f, c).error)
                        && forall j :: 0 <= j < i ==> f(rows[j], c).Ok?
    decreases |rows|
  {
    var init := rows[..|rows| - 1];
    assert forall i :: 0 <= i < |init| ==> init[i] == rows[i];
    if TryMap(init, f, c).Err? {
      TryMapFirstError(init, f, c);
      var i :| 0 <= i < |init| && f(init[i], c) == Err(TryMap(init, f, c).error)
               && forall j :: 0 <= j < i ==> f(init[j], c).Ok?;
      assert f(rows[i], c) == Err(TryMap(rows, f, c).error);
    } else {
      TryMapOk(init, f, c);
      var i := |rows| - 1;
      assert f(rows[i], c) == Err(TryMap(rows, f, c).error);
    }
  }

  /** An error on a prefix of the rows is the error of the whole apply. */
  lemma {:induction false} TryMapErrPrefix<R, C, E>(rows: seq<R>, f: (R, C) -> Result<R, E>, c: C, k: int)
    requires 0 <= k <= |rows| && TryMap(rows[..k], f, c).Err?
    ensures TryMap(rows, f, c) == TryMap(rows[..k], f, c)
    decreases |rows| - k
  {
    if k < |rows| {
      var init := rows[..|rows| - 1];
      assert init[..k] == rows[..k];
      TryMapErrPrefix(init, f, c, k);
    } else {
      assert rows[..k] == rows;
    }
  }
}
