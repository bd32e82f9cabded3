/** The title similarity of the directory comparison: one minus the
    Levenshtein distance of the lower-cased titles divided by the longer
    length, both taken over the UTF-16 code units a .NET string holds. The
    distance is defined on sequences of any element type and kept as an
    exact integer, the quotient as an exact rational; see SimilarIff for
    the threshold test. */
module Levenshtein {
  import opened Wrappers
  import opened Text

  function Min(a: int, b: int): int {
    if a <= b then a else b
  }

  function Max(a: int, b: int): int {
    if a >= b then a else b
  }

  /** The edit distance: the fewest single-element insertions, deletions
      and substitutions that turn `s` into `t`, by the recurrence on the
      last characters. */
  function Distance<T(==)>(s: seq<T>, t: seq<T>): nat
    decreases |s| + |t|
  {
    if s == [] then |t|
    else if t == [] then |s|
    else
      var cost := if t[|t| - 1] == s[|s| - 1] then 0 else 1;
      Min(Min(Distance(s[..|s| - 1], t) + 1, Distance(s, t[..|t| - 1]) + 1),
          Distance(s[..|s| - 1], t[..|t| - 1]) + cost)
  }

  /** No more edits than the longer string has characters. */
  lemma {:induction false} DistanceAtMostLonger<T>(s: seq<T>, t: seq<T>)
    ensures Distance(s, t) <= Max(|s|, |t|)
    decreases |s| + |t|
  {
    if s != [] && t != [] {
      DistanceAtMostLonger(s[..|s| - 1], t[..|t| - 1]);
    }
  }

  /** Turning `s` into `t` costs what turning `t` into `s` costs. */
  lemma {:induction false} DistanceSymmetric<T>(s: seq<T>, t: seq<T>)
    ensures Distance(s, t) == Distance(t, s)
    decreases |s| + |t|
  {
    if s != [] && t != [] {
      DistanceSymmetric(s[..|s| - 1], t);
      DistanceSymmetric(s, t[..|t| - 1]);
      DistanceSymmetric(s[..|s| - 1], t[..|t| - 1]);
    }
  }

  /** The distance is zero exactly for equal strings. */
  lemma {:induction false} DistanceZero<T>(s: seq<T>, t: seq<T>)
    ensures Distance(s, t) == 0 <==> s == t
    decreases |s| + |t|
  {
    if s != [] && t != [] {
      var s', t' := s[..|s| - 1], t[..|t| - 1];
      DistanceZero(s', t');
      assert s == s' + [s[|s| - 1]] && t == t' + [t[|t| - 1]];
    }
  }

  /** The Levenshtein distance is at most the longer length, symmetric, and
      zero exactly for equal strings. */
  lemma DistanceFacts<T>(s: seq<T>, t: seq<T>)
    ensures Distance(s, t) <= Max(|s|, |t|)
    ensures Distance(s, t) == Distance(t, s)
    ensures Distance(s, t) == 0 <==> s == t
  {
    DistanceAtMostLonger(s, t);
    DistanceSymmetric(s, t);
    DistanceZero(s, t);
  }

  /** The table entry d[i, j]: the distance of the prefixes `s[..i]` and
      `t[..j]`, computed from its three neighbours above and to the left. */
  function PrefixDistance<T(==)>(s: seq<T>, t: seq<T>, i: nat, j: nat): nat
    requires i <= |s| && j <= |t|
    decreases i + j
  {
    if i == 0 then j
    else if j == 0 then i
    else
      var cost := if t[j - 1] == s[i - 1] then 0 else 1;
      Min(Min(PrefixDistance(s, t, i - 1, j) + 1, PrefixDistance(s, t, i, j - 1) + 1),
          PrefixDistance(s, t, i - 1, j - 1) + cost)
  }

  /** The table recurrence computes the distance of the prefixes. */
  lemma {:induction false} PrefixDistanceIsDistance<T>(s: seq<T>, t: seq<T>, i: nat, j: nat)
    requires i <= |s| && j <= |t|
    ensures PrefixDistance(s, t, i, j) == Distance(s[..i], t[..j])
    decreases i + j
  {
    if i != 0 && j != 0 {
      assert s[..i][..i - 1] == s[..i - 1];
      assert t[..j][..j - 1] == t[..j - 1];
      PrefixDistanceIsDistance(s, t, i - 1, j);
      PrefixDistanceIsDistance(s, t, i, j - 1);
      PrefixDistanceIsDistance(s, t, i - 1, j - 1);
    }
  }

  /** The code units CalculateSimilarity compares: those of the lower-cased
      string, as `string.Length` and the indexer see them. */
  function LowerUnits(s: string): (r: seq<int>)
    ensures s != [] ==> r != []
  {
    Utf16Length(Lower(s));
    Utf16(Lower(s))
  }

  /** CalculateSimilarity: 0 when either string is null or empty, and
      otherwise one minus the distance of the lower-cased strings over the
      longer length, both counted in UTF-16 code units. */
  function Similarity(s: Option<string>, t: Option<string>): real {
    if s.None? || t.None? || s.value == [] || t.value == [] then 0.0
    else
      var a, b := LowerUnits(s.value), LowerUnits(t.value);
      Ratio(Distance(a, b), Max(|a|, |b|))
  }

  /** One minus `d` over `m`. */
  function Ratio(d: nat, m: nat): real
    requires m > 0
  {
    1.0 - (d as real) / (m as real)
  }

  /** The ratio is in [0, 1] for `d <= m`, is 1 exactly for `d == 0`, and
      exceeds 0.7 exactly when `10 d < 3 m`. */
  lemma RatioFacts(d: nat, m: nat)
    requires m > 0
    ensures d <= m ==> 0.0 <= Ratio(d, m) <= 1.0
    ensures Ratio(d, m) == 1.0 <==> d == 0
    ensures Ratio(d, m) > 0.7 <==> 10 * d < 3 * m
  {
    QuotientBelow(d as real, m as real, 1.0);
    QuotientBelow(d as real, m as real, 0.0);
    QuotientBelow(d as real, m as real, 0.3);
  }

  /** A quotient by a positive number is below `c` exactly when the
      dividend is below `c` times the divisor. */
  lemma QuotientBelow(d: real, m: real, c: real)
    requires m > 0.0
    ensures d / m < c <==> d < c * m
    ensures d / m == c <==> d == c * m
  {
    var q := d / m;
    assert q * m == d;
    assert q * m - c * m == (q - c) * m;
    if q < c {
      PositiveProduct(c - q, m);
    } else if q > c {
      PositiveProduct(q - c, m);
    }
  }

  lemma PositiveProduct(a: real, b: real)
    requires a > 0.0 && b > 0.0
    ensures a * b > 0.0
  {
  }

  /** The similarity lies between 0 and 1, whatever the inputs. */
  lemma SimilarityRange(s: Option<string>, t: Option<string>)
    ensures 0.0 <= Similarity(s, t) <= 1.0
  {
    if !(s.None? || t.None? || s.value == [] || t.value == []) {
      var a, b := LowerUnits(s.value), LowerUnits(t.value);
      DistanceAtMostLonger(a, b);
      RatioFacts(Distance(a, b), Max(|a|, |b|));
    }
  }

  /** Swapping the arguments does not change the similarity. */
  lemma SimilaritySymmetric(s: Option<string>, t: Option<string>)
    ensures Similarity(s, t) == Similarity(t, s)
  {
    if !(s.None? || t.None? || s.value == [] || t.value == []) {
      DistanceSymmetric(LowerUnits(s.value), LowerUnits(t.value));
    }
  }

  /** Two non-empty strings are fully similar exactly when they are equal
      ignoring case. */
  lemma SimilarityOne(s: string, t: string)
    requires s != [] && t != []
    ensures Similarity(Some(s), Some(t)) == 1.0 <==> Lower(s) == Lower(t)
  {
    var a, b := LowerUnits(s), LowerUnits(t);
    DistanceZero(a, b);
    RatioFacts(Distance(a, b), Max(|a|, |b|));
    if a == b {
      Utf16Injective(Lower(s), Lower(t));
    }
  }

  /** The threshold test `similarity > 0.7` on non-empty strings, in
      integers: ten times the distance of the code units is below three
      times the longer unit count. At exactly three tenths the similarity is
      0.7 and the test fails. */
  lemma SimilarIff(s: string, t: string)
    requires s != [] && t != []
    ensures var a, b := LowerUnits(s), LowerUnits(t);
            Similarity(Some(s), Some(t)) > 0.7 <==> 10 * Distance(a, b) < 3 * Max(|a|, |b|)
  {
    var a, b := LowerUnits(s), LowerUnits(t);
    var d, m := Distance(a, b), Max(|a|, |b|);
    assert Similarity(Some(s), Some(t)) == Ratio(d, m);
    RatioFacts(d, m);
  }

  /** A character outside the Basic Multilingual Plane is two code units,
      so "ab\U{1D538}" and "ab\U{1D539}" differ in one unit of four: their
      similarity is 0.75 and passes the threshold, where counting characters
      would give two thirds. */
  lemma WideCharsCountTwice(c: char, e: char)
    requires c as int >= 0x10000 && e as int >= 0x10000 && c != e
    requires (c as int - 0x10000) / 0x400 == (e as int - 0x10000) / 0x400
    ensures Similarity(Some(['a', 'b', c]), Some(['a', 'b', e])) == 0.75
  {
    var s, t := ['a', 'b', c], ['a', 'b', e];
    SameHighSurrogate(c, e);
    var p := [97, 98, Units(c)[0]];
    assert LowerUnits(s) == p + [Units(c)[1]] by {
      LowerUnchanged(s);
      AbUnits(c);
    }
    assert LowerUnits(t) == p + [Units(e)[1]] by {
      LowerUnchanged(t);
      AbUnits(e);
    }
    OneSubstitution(p, Units(c)[1], Units(e)[1]);
    assert Ratio(1, 4) == 0.75;
  }

  lemma AbUnits(c: char)
    ensures Utf16(['a', 'b', c]) == [97, 98] + Units(c)
  {
    var s := ['a', 'b', c];
    assert s[1..][1..] == [c] && [c][1..] == [];
    assert Utf16([c]) == Units(c);
    assert Utf16(s[1..]) == [98] + Units(c);
  }

  /** Two characters in the same block of 0x400 share their high surrogate
      and differ in the low one. */
  lemma SameHighSurrogate(c: char, e: char)
    requires c as int >= 0x10000 && e as int >= 0x10000 && c != e
    requires (c as int - 0x10000) / 0x400 == (e as int - 0x10000) / 0x400
    ensures |Units(c)| == 2 == |Units(e)| && Units(c)[0] == Units(e)[0] && Units(c)[1] != Units(e)[1]
  {
    var x, y := c as int - 0x10000, e as int - 0x10000;
    assert x == 0x400 * (x / 0x400) + x % 0x400;
    assert y == 0x400 * (y / 0x400) + y % 0x400;
  }

  /** Sequences that differ only in their last element are one
      substitution apart. */
  lemma OneSubstitution<T>(p: seq<T>, x: T, y: T)
    requires x != y
    ensures Distance(p + [x], p + [y]) == 1
  {
    assert (p + [x])[..|p|] == p && (p + [y])[..|p|] == p;
    DistanceZero(p, p);
    DistanceZero(p + [x], p + [y]);
  }

  /** CalculateSimilarity: the null and empty guard, then the distance of
      the lower-cased strings' code units from the table. */
  method CalculateSimilarity(s: Option<string>, t: Option<string>) returns (r: real)
    ensures r == Similarity(s, t)
  {
    if s.None? || t.None? || s.value == [] || t.value == [] {
      return 0.0;
    }
    var a, b := LowerUnits(s.value), LowerUnits(t.value);
    var n, m := |a|, |b|;
    var dist := EditDistance(a, b);
    r := Ratio(dist, Max(n, m));
  }

  /** The rows above `upto` of the table hold the distances of the
      corresponding prefixes. */
  ghost predicate RowsDone<T>(d: array2<int>, a: seq<T>, b: seq<T>, upto: nat)
    requires d.Length0 == |a| + 1 && d.Length1 == |b| + 1 && upto <= |a| + 1
    reads d
  {
    forall x, y {:trigger d[x, y]} :: 0 <= x < upto && 0 <= y <= |b| ==> d[x, y] == PrefixDistance(a, b, x, y)
  }

  /** The table fill of CalculateSimilarity: the first column and row hold
      their indices, and each later row is filled left to right. */
  method EditDistance<T(==)>(a: seq<T>, b: seq<T>) returns (dist: nat)
    ensures dist == Distance(a, b)
  {
    var n, m := |a|, |b|;
    var d := new int[n + 1, m + 1];
    for i := 0 to n + 1
      invariant forall k :: 0 <= k < i ==> d[k, 0] == k
    {
      d[i, 0] := i;
    }
    for j := 0 to m + 1
      invariant forall k :: 0 <= k <= n ==> d[k, 0] == k
      invariant forall k :: 0 <= k < j ==> d[0, k] == k
    {
      d[0, j] := j;
    }
    for i := 1 to n + 1
      invariant RowsDone(d, a, b, i)
      invariant forall x :: i <= x <= n ==> d[x, 0] == x
    {
      FillRow(d, a, b, i);
    }
    dist := d[n, m];
    PrefixDistanceIsDistance(a, b, n, m);
    assert a[..n] == a && b[..m] == b;
  }

  /** One row of the table, from the row above it and its first entry. */
  method FillRow<T(==)>(d: array2<int>, a: seq<T>, b: seq<T>, i: nat)
    requires d.Length0 == |a| + 1 && d.Length1 == |b| + 1 && 1 <= i <= |a|
    requires RowsDone(d, a, b, i) && d[i, 0] == i
    modifies d
    ensures RowsDone(d, a, b, i + 1)
    ensures forall x, y :: 0 <= x < d.Length0 && 0 <= y < d.Length1 && x != i ==> d[x, y] == old(d[x, y])
  {
    // The entries of row `i` written so far.
    ghost var row: seq<int> := [i];
    for j := 1 to |b| + 1
      invariant forall x, y :: 0 <= x < d.Length0 && 0 <= y < d.Length1 && x != i ==> d[x, y] == old(d[x, y])
      invariant |row| == j && forall y :: 0 <= y < j ==> d[i, y] == row[y]
      invariant forall y {:trigger row[y]} :: 0 <= y < j ==> row[y] == PrefixDistance(a, b, i, y)
    {
      var cost := if b[j - 1] == a[i - 1] then 0 else 1;
      var up, left, diagonal := d[i - 1, j], d[i, j - 1], d[i - 1, j - 1];
      assert up == PrefixDistance(a, b, i - 1, j) && diagonal == PrefixDistance(a, b, i - 1, j - 1);
      var entry := Min(Min(up + 1, left + 1), diagonal + cost);
      assert entry == PrefixDistance(a, b, i, j);
      d[i, j] := entry;
      row := row + [entry];
    }
  }
}
