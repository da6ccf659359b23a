/** `pd.concat` of the tables made from a list of parts, in list order. */
module Concat {

  function FlatMap<P, R>(parts: seq<P>, f: P -> seq<R>): seq<R>
    decreases |parts|
  {
    if parts == [] then [] else f(parts[0]) + FlatMap(parts[1..], f)
  }

  lemma {:induction false} FlatMapAppend<P, R>(a: seq<P>, b: seq<P>, f: P -> seq<R>)
    ensures FlatMap(a + b, f) == FlatMap(a, f) + FlatMap(b, f)
    decreases |a|
  {
    if a == [] {
      assert a + b == b;
    } else {
      assert (a + b)[0] == a[0];
      assert (a + b)[1..] == a[1..] + b;
      FlatMapAppend(a[1..], b, f);
    }
  }

  /** A list ending in one or two further parts. */
  lemma FlatMapSplit<P, R>(lead: seq<P>, p: P, o: P, f: P -> seq<R>)
    ensures FlatMap(lead + [p, o], f) == FlatMap(lead, f) + f(p) + f(o)
    ensures FlatMap(lead + [o], f) == FlatMap(lead, f) + f(o)
  {
    FlatMapAppend(lead, [p, o], f);
    FlatMapAppend(lead, [o], f);
    assert [p, o][1..] == [o];
    assert [o][1..] == [];
  }

  /** Every part's table is in the concatenation. */
  lemma {:induction false} FlatMapContains<P, R>(parts: seq<P>, f: P -> seq<R>, i: int, r: R)
    requires 0 <= i < |parts| && r in f(parts[i])
    ensures r in FlatMap(parts, f)
    decreases |parts|
  {
    if i > 0 {
      assert parts[1..][i - 1] == parts[i];
      FlatMapContains(parts[1..], f, i - 1, r);
    }
  }
}
