/**
 * The cell range a data frame is written to in a spreadsheet: `A1:<col><row>`,
 * where `<col>` names the last column in letters ("A" .. "Z", "AA", ...) and
 * `<row>` is the number of data rows plus the header row.
 *
 * The letters are found by walking the enumeration of all lower-case strings,
 * length first and then alphabetically ("a" .. "z", "aa" .. "zz", "aaa" ...),
 * until the column count is reached. The n-th string of that enumeration is
 * the bijective base-26 numeral of n, which `Nth` defines directly.
 */
module ColumnLabel {

  predicate IsLower(c: char) {
    'a' <= c <= 'z'
  }

  predicate IsUpper(c: char) {
    'A' <= c <= 'Z'
  }

  predicate AllLower(s: string) {
    forall i :: 0 <= i < |s| ==> IsLower(s[i])
  }

  predicate AllUpper(s: string) {
    forall i :: 0 <= i < |s| ==> IsUpper(s[i])
  }

  function Letter(k: int): (c: char)
    requires 0 <= k < 26
    ensures IsLower(c)
  {
    ('a' as int + k) as char
  }

  function LetterIndex(c: char): (k: int)
    requires IsLower(c)
    ensures 0 <= k < 26 && Letter(k) == c
  {
    c as int - 'a' as int
  }

  /** The string the enumeration yields after s. */
  function Successor(s: string): string
    decreases |s|
  {
    if s == [] then "a"
    else
      var last := s[|s| - 1];
      if IsLower(last) && last != 'z' then s[..|s| - 1] + [(last as int + 1) as char]
      else Successor(s[..|s| - 1]) + "a"
  }

  /** The n-th string of the enumeration (n >= 1): bijective base 26 over a..z. */
  function Nth(n: int): string
    requires n >= 1
    decreases n
  {
    if n <= 26 then [Letter(n - 1)]
    else Nth((n - 1) / 26) + [Letter((n - 1) % 26)]
  }

  /** Reads a string of letters as a bijective base-26 numeral. */
  function Value(s: string): int
    requires AllLower(s)
  {
    if s == [] then 0
    else 26 * Value(s[..|s| - 1]) + LetterIndex(s[|s| - 1]) + 1
  }

  lemma {:induction false} NthShape(n: int)
    requires n >= 1
    ensures Nth(n) != [] && AllLower(Nth(n))
    decreases n
  {
    if n > 26 {
      NthShape((n - 1) / 26);
    }
  }

  /** Decoding the label of n gives back n. */
  lemma {:induction false} ValueNth(n: int)
    requires n >= 1
    ensures AllLower(Nth(n)) && Value(Nth(n)) == n
    decreases n
  {
    NthShape(n);
    var s := Nth(n);
    if n > 26 {
      ValueNth((n - 1) / 26);
      assert s[..|s| - 1] == Nth((n - 1) / 26);
    }
  }

  /** Every non-empty string of letters is the label of its value. */
  lemma {:induction false} NthValue(s: string)
    requires AllLower(s) && s != []
    ensures Value(s) >= 1 && Nth(Value(s)) == s
    decreases |s|
  {
    var p := s[..|s| - 1];
    var k := LetterIndex(s[|s| - 1]);
    if p == [] {
      assert Value(s) == k + 1;
    } else {
      NthValue(p);
      var n := Value(s);
      assert n == 26 * Value(p) + k + 1;
      assert (n - 1) / 26 == Value(p) && (n - 1) % 26 == k;
      assert s == p + [s[|s| - 1]];
    }
  }

  /** Distinct column counts get distinct labels. */
  lemma NthInjective(m: int, n: int)
    requires m >= 1 && n >= 1 && Nth(m) == Nth(n)
    ensures m == n
  {
    ValueNth(m);
    ValueNth(n);
  }

  /** Stepping the enumeration from the n-th string gives the (n+1)-th. */
  lemma {:induction false} SuccessorNth(n: int)
    requires n >= 1
    ensures Successor(Nth(n)) == Nth(n + 1)
    decreases n
  {
    var s := Nth(n);
    NthShape(n);
    if n < 26 {
    } else if n == 26 {
      assert Nth(27) == Nth(1) + [Letter(0)];
    } else {
      var q, k := (n - 1) / 26, (n - 1) % 26;
      assert s == Nth(q) + [Letter(k)];
      assert s[..|s| - 1] == Nth(q);
      if k < 25 {
        assert n / 26 == q && n % 26 == k + 1;
      } else {
        SuccessorNth(q);
        assert n / 26 == q + 1 && n % 26 == 0;
      }
    }
  }

  /** Lexicographic order on strings of equal length. */
  predicate LexLess(a: string, b: string)
    requires |a| == |b|
    decreases |a|
  {
    |a| > 0
    && (LexLess(a[..|a| - 1], b[..|b| - 1])
        || (a[..|a| - 1] == b[..|b| - 1] && a[|a| - 1] < b[|b| - 1]))
  }

  /** Length first, then lexicographic: the order of the enumeration. */
  predicate ShortlexLess(a: string, b: string) {
    |a| < |b| || (|a| == |b| && LexLess(a, b))
  }

  lemma {:induction false} SuccessorIsLater(s: string)
    requires AllLower(s)
    ensures ShortlexLess(s, Successor(s))
    ensures |Successor(s)| == |s| || |Successor(s)| == |s| + 1
    decreases |s|
  {
    if s != [] {
      var p := s[..|s| - 1];
      var t := Successor(s);
      if s[|s| - 1] != 'z' {
        assert t[..|t| - 1] == p;
      } else {
        SuccessorIsLater(p);
        assert t[..|t| - 1] == Successor(p);
      }
    }
  }

  /** The labels come in the enumeration's order. */
  lemma NthIncreasing(n: int)
    requires n >= 1
    ensures ShortlexLess(Nth(n), Nth(n + 1))
  {
    NthShape(n);
    SuccessorIsLater(Nth(n));
    SuccessorNth(n);
  }

  /** The capital of a lower-case letter. */
  function Capital(c: char): (u: char)
    requires IsLower(c)
    ensures IsUpper(u) && u as int == c as int - 32
  {
    (c as int - 32) as char
  }

  function Upper(s: string): (r: string)
    requires AllLower(s)
    ensures |r| == |s| && AllUpper(r)
    ensures forall i :: 0 <= i < |s| ==> r[i] == Capital(s[i])
  {
    if s == [] then [] else Upper(s[..|s| - 1]) + [Capital(s[|s| - 1])]
  }

  /** The column letters of the n-th column, as written into the range. */
  function Label(n: int): (r: string)
    requires n >= 1
    ensures r != [] && AllUpper(r)
  {
    NthShape(n);
    Upper(Nth(n))
  }

  lemma NthExamples()
    ensures Nth(1) == "a" && Nth(26) == "z" && Nth(27) == "aa"
    ensures Nth(702) == "zz" && Nth(703) == "aaa"
  {
    assert Nth(27) == Nth(1) + "a";
    assert Nth(702) == Nth(26) + "z";
    assert Nth(703) == Nth(27) + "a";
  }

  lemma LabelExamples()
    ensures Label(1) == "A" && Label(26) == "Z" && Label(27) == "AA"
    ensures Label(702) == "ZZ" && Label(703) == "AAA"
  {
    NthExamples();
    UpperExamples();
  }

  lemma UpperExamples()
    ensures Upper("a") == "A" && Upper("z") == "Z" && Upper("aa") == "AA"
    ensures Upper("zz") == "ZZ" && Upper("aaa") == "AAA"
  {
    assert Capital('a') == 'A' && Capital('z') == 'Z';
    assert Upper("aa") == [Upper("aa")[0], Upper("aa")[1]];
    assert Upper("zz") == [Upper("zz")[0], Upper("zz")[1]];
    assert Upper("aaa") == [Upper("aaa")[0], Upper("aaa")[1], Upper("aaa")[2]];
  }

  /** The decimal numeral of n, without leading zeros. */
  function Decimal(n: nat): string
  {
    if n < 10 then [('0' as int + n) as char]
    else Decimal(n / 10) + [('0' as int + n % 10) as char]
  }

  predicate AllDigits(s: string) {
    forall i :: 0 <= i < |s| ==> '0' <= s[i] <= '9'
  }

  function DecimalValue(s: string): int
    requires AllDigits(s)
  {
    if s == [] then 0 else 10 * DecimalValue(s[..|s| - 1]) + (s[|s| - 1] as int - '0' as int)
  }

  /** The numeral is non-empty, all digits, without a leading zero, and reads back as n. */
  lemma {:induction false} DecimalRoundTrip(n: nat)
    ensures var s := Decimal(n);
      s != [] && AllDigits(s) && DecimalValue(s) == n && (|s| > 1 ==> s[0] != '0')
    decreases n
  {
    if n >= 10 {
      DecimalRoundTrip(n / 10);
      var s := Decimal(n);
      assert s[..|s| - 1] == Decimal(n / 10);
      assert n / 10 >= 1;
    }
  }

  /**
   * The range covering `rows` data rows and a header row over `columns`
   * columns. With no columns the enumeration is walked forever: the counter
   * starts at 1 and only grows, so at least one column is required.
   */
  method SheetRange(columns: int, rows: nat) returns (r: string)
    requires columns >= 1
    ensures r == "A1:" + Label(columns) + Decimal(rows + 1)
  {
    var s := "a";
    var count := 1;
    while count != columns
      invariant 1 <= count <= columns
      invariant s == Nth(count)
      decreases columns - count
    {
      SuccessorNth(count);
      s := Successor(s);
      count := count + 1;
    }
    NthShape(count);
    r := "A1:" + Upper(s) + Decimal(rows + 1);
  }
}
