/**
 * `drop_duplicates(subset=..., keep="first")` on a sequence of rows: a row
 * is kept when no earlier row has the same key.
 */
module Dedup {

  /** No two rows share a key. */
  predicate UniqueKeys<T, K(==)>(s: seq<T>, key: T -> K) {
    forall i, j :: 0 <= i < j < |s| ==> key(s[i]) != key(s[j])
  }

  ghost function KeysOf<T, K>(s: seq<T>, key: T -> K): set<K> {
    set x | x in s :: key(x)
  }

  /** The rows of s whose key is neither in seen nor the key of an earlier row. */
  function DedupFrom<T, K(==)>(s: seq<T>, key: T -> K, seen: set<K>): seq<T>
    decreases |s|
  {
    if s == [] then []
    else if key(s[0]) in seen then DedupFrom(s[1..], key, seen)
    else [s[0]] + DedupFrom(s[1..], key, seen + {key(s[0])})
  }

  /** Keeps the first row of every key. */
  function DedupBy<T, K(==)>(s: seq<T>, key: T -> K): seq<T> {
    DedupFrom(s, key, {})
  }

  /** The kept rows come from s, have unique keys, and none of the keys already seen. */
  lemma {:induction false} DedupFromKeys<T, K>(s: seq<T>, key: T -> K, seen: set<K>)
    ensures var r := DedupFrom(s, key, seen);
      && UniqueKeys(r, key)
      && (forall y :: y in r ==> y in s && key(y) !in seen)
    decreases |s|
  {
    if s != [] {
      if key(s[0]) in seen {
        DedupFromKeys(s[1..], key, seen);
      } else {
        var rest := DedupFrom(s[1..], key, seen + {key(s[0])});
        DedupFromKeys(s[1..], key, seen + {key(s[0])});
        var r := [s[0]] + rest;
        forall i, j | 0 <= i < j < |r|
          ensures key(r[i]) != key(r[j])
        {
          if i == 0 {
            assert r[j] in rest;
          } else {
            assert r[i] == rest[i - 1] && r[j] == rest[j - 1];
          }
        }
      }
    }
  }

  /** Every key of s that was not already seen has a kept row. */
  lemma {:induction false} DedupFromCovers<T, K>(s: seq<T>, key: T -> K, seen: set<K>, x: T)
    requires x in s
    ensures key(x) in seen || exists y :: y in DedupFrom(s, key, seen) && key(y) == key(x)
    decreases |s|
  {
    if x != s[0] {
      if key(s[0]) in seen {
        DedupFromCovers(s[1..], key, seen, x);
      } else {
        DedupFromCovers(s[1..], key, seen + {key(s[0])}, x);
        if key(x) == key(s[0]) {
          assert s[0] in DedupFrom(s, key, seen);
        }
      }
    } else if key(x) !in seen {
      assert s[0] in DedupFrom(s, key, seen);
    }
  }

  /** A kept row is the first row of s with its key. */
  lemma {:induction false} DedupFromFirst<T, K>(s: seq<T>, key: T -> K, seen: set<K>, y: T)
    requires y in DedupFrom(s, key, seen)
    ensures exists i :: 0 <= i < |s| && s[i] == y && forall j :: 0 <= j < i ==> key(s[j]) != key(y)
    decreases |s|
  {
    var seen' := if key(s[0]) in seen then seen else seen + {key(s[0])};
    if key(s[0]) !in seen && y == s[0] {
      assert s[0] == y;
    } else {
      assert y in DedupFrom(s[1..], key, seen');
      DedupFromFirst(s[1..], key, seen', y);
      DedupFromKeys(s[1..], key, seen');
      var i :| 0 <= i < |s[1..]| && s[1..][i] == y && forall j :: 0 <= j < i ==> key(s[1..][j]) != key(y);
      assert s[i + 1] == y;
      forall j | 0 <= j < i + 1
        ensures key(s[j]) != key(y)
      {
        if j > 0 {
          assert s[j] == s[1..][j - 1];
        }
      }
    }
  }

  /** Dropping duplicates of a concatenation: the second part sees the keys of the first. */
  lemma {:induction false} DedupFromAppend<T, K>(a: seq<T>, b: seq<T>, key: T -> K, seen: set<K>)
    ensures DedupFrom(a + b, key, seen) == DedupFrom(a, key, seen) + DedupFrom(b, key, seen + KeysOf(a, key))
    decreases |a|
  {
    if a == [] {
      assert a + b == b;
      assert KeysOf(a, key) == {};
      assert seen + {} == seen;
    } else {
      assert (a + b)[0] == a[0];
      assert (a + b)[1..] == a[1..] + b;
      var seen' := if key(a[0]) in seen then seen else seen + {key(a[0])};
      DedupFromAppend(a[1..], b, key, seen');
      assert KeysOf(a, key) == {key(a[0])} + KeysOf(a[1..], key) by {
        assert forall x :: x in a <==> x == a[0] || x in a[1..];
      }
      assert seen' + KeysOf(a[1..], key) == seen + KeysOf(a, key);
    }
  }

  /**
   * Keeping first occurrences row by row: a further row is appended to the
   * result exactly when its key is new, so the kept rows stay in input order.
   */
  lemma DedupSnoc<T, K>(s: seq<T>, x: T, key: T -> K)
    ensures DedupBy(s + [x], key) == DedupBy(s, key) + (if key(x) in KeysOf(s, key) then [] else [x])
  {
    DedupFromAppend(s, [x], key, {});
    assert [x][1..] == [];
    assert {} + KeysOf(s, key) == KeysOf(s, key);
  }

  /** Rows with unique keys, none seen yet, are all kept. */
  lemma {:induction false} DedupFromUnique<T, K>(s: seq<T>, key: T -> K, seen: set<K>)
    requires UniqueKeys(s, key)
    requires forall x :: x in s ==> key(x) !in seen
    ensures DedupFrom(s, key, seen) == s
    decreases |s|
  {
    if s != [] {
      var seen' := seen + {key(s[0])};
      forall x | x in s[1..]
        ensures key(x) !in seen'
      {
        var i :| 0 <= i < |s[1..]| && s[1..][i] == x;
        assert s[i + 1] == x;
      }
      assert UniqueKeys(s[1..], key) by {
        forall i, j | 0 <= i < j < |s[1..]|
          ensures key(s[1..][i]) != key(s[1..][j])
        {
          assert s[1..][i] == s[i + 1] && s[1..][j] == s[j + 1];
        }
      }
      DedupFromUnique(s[1..], key, seen');
    }
  }

  /** Rows whose keys have all been seen are all dropped. */
  lemma {:induction false} DedupFromAllSeen<T, K>(s: seq<T>, key: T -> K, seen: set<K>)
    requires forall x :: x in s ==> key(x) in seen
    ensures DedupFrom(s, key, seen) == []
    decreases |s|
  {
    if s != [] {
      assert forall x :: x in s[1..] ==> x in s;
      DedupFromAllSeen(s[1..], key, seen);
    }
  }

  /** Dropping duplicates twice is dropping them once. */
  lemma DedupIdempotent<T, K>(s: seq<T>, key: T -> K)
    ensures DedupBy(DedupBy(s, key), key) == DedupBy(s, key)
  {
    DedupFromKeys(s, key, {});
    DedupFromUnique(DedupBy(s, key), key, {});
  }

  /**
   * After a prefix with unique keys, rows whose keys it already has are all
   * dropped and rows of unique new keys are all kept.
   */
  lemma DropRepeated<T, K>(lead: seq<T>, again: seq<T>, novel: seq<T>, key: T -> K)
    requires UniqueKeys(lead, key) && UniqueKeys(novel, key)
    requires forall x :: x in again ==> exists y :: y in lead && key(y) == key(x)
    requires forall x, y :: x in novel && y in lead + again ==> key(x) != key(y)
    ensures DedupBy(lead + again + novel, key) == lead + novel
  {
    DedupLeadAgain(lead, again, key);
    DedupNovel(lead + again, novel, key);
    DedupFromAppend(lead + again, novel, key, {});
  }

  /** The first two parts of DropRepeated: the repeated rows vanish. */
  lemma DedupLeadAgain<T, K>(lead: seq<T>, again: seq<T>, key: T -> K)
    requires UniqueKeys(lead, key)
    requires forall x :: x in again ==> exists y :: y in lead && key(y) == key(x)
    ensures DedupFrom(lead + again, key, {}) == lead
  {
    var seenLead := {} + KeysOf(lead, key);
    DedupFromAppend(lead, again, key, {});
    DedupFromUnique(lead, key, {});
    forall x | x in again
      ensures key(x) in seenLead
    {
      var y :| y in lead && key(y) == key(x);
    }
    DedupFromAllSeen(again, key, seenLead);
    assert lead + [] == lead;
  }

  /** The last part of DropRepeated: rows of new unique keys all stay. */
  lemma DedupNovel<T, K>(prefix: seq<T>, novel: seq<T>, key: T -> K)
    requires UniqueKeys(novel, key)
    requires forall x, y :: x in novel && y in prefix ==> key(x) != key(y)
    ensures DedupFrom(novel, key, {} + KeysOf(prefix, key)) == novel
  {
    var seenAll := {} + KeysOf(prefix, key);
    forall x | x in novel
      ensures key(x) !in seenAll
    {
      forall y | y in prefix
        ensures key(y) != key(x)
      {
      }
    }
    DedupFromUnique(novel, key, seenAll);
  }

  /** Concatenating two parts with unique keys and no key in common keeps keys unique. */
  lemma UniqueKeysAppend<T, K>(a: seq<T>, b: seq<T>, key: T -> K)
    requires UniqueKeys(a, key) && UniqueKeys(b, key)
    requires forall x, y :: x in a && y in b ==> key(x) != key(y)
    ensures UniqueKeys(a + b, key)
  {
    var s := a + b;
    forall i, j | 0 <= i < j < |s|
      ensures key(s[i]) != key(s[j])
    {
      if j < |a| {
        assert s[i] == a[i] && s[j] == a[j];
      } else if i >= |a| {
        assert s[i] == b[i - |a|] && s[j] == b[j - |a|];
      } else {
        assert s[i] == a[i] && s[j] == b[j - |a|];
      }
    }
  }
}
