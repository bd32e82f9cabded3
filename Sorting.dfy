/** The stable ordering behind LINQ's OrderBy / OrderByDescending, for a
    given comparison `le` ("may come before"). The catalog sorts titles with
    the culture's string comparer and dates newest first; both are passed in
    as `le`. */
module Sorting {

  /** Every two keys are comparable one way or the other. */
  ghost predicate Total<T(!new)>(le: (T, T) -> bool) {
    forall a, b :: le(a, b) || le(b, a)
  }

  /** `le` is transitive, as a key comparison is. */
  ghost predicate Transitive<T(!new)>(le: (T, T) -> bool) {
    forall a, b, c :: le(a, b) && le(b, c) ==> le(a, c)
  }

  /** The elements `tied` selects all compare equal under `le`. */
  ghost predicate Tied<T(!new)>(tied: T -> bool, le: (T, T) -> bool) {
    forall a, b :: tied(a) && tied(b) ==> le(a, b)
  }

  /** The elements `keep` selects, in their order. */
  function Select<T>(s: seq<T>, keep: T -> bool): seq<T> {
    if s == [] then [] else (if keep(s[0]) then [s[0]] else []) + Select(s[1..], keep)
  }

  lemma {:induction false} SelectAppend<T>(a: seq<T>, b: seq<T>, keep: T -> bool)
    ensures Select(a + b, keep) == Select(a, keep) + Select(b, keep)
  {
    if a == [] {
      assert a + b == b;
    } else {
      var head := if keep(a[0]) then [a[0]] else [];
      assert (a + b)[0] == a[0];
      assert (a + b)[1..] == a[1..] + b;
      calc {
        Select(a + b, keep);
        head + Select(a[1..] + b, keep);
        { SelectAppend(a[1..], b, keep); }
        head + (Select(a[1..], keep) + Select(b, keep));
        { Associative(head, Select(a[1..], keep), Select(b, keep)); }
        (head + Select(a[1..], keep)) + Select(b, keep);
      }
    }
  }

  /** Neighbours are in order. */
  ghost predicate Sorted<T>(s: seq<T>, le: (T, T) -> bool) {
    forall i :: 0 < i < |s| ==> le(s[i - 1], s[i])
  }

  /** Places `x` before the first element that must come after it, so that
      it stays behind every element it ties with. */
  function Insert<T>(x: T, s: seq<T>, le: (T, T) -> bool): (r: seq<T>)
    ensures multiset(r) == multiset(s) + multiset{x}
    ensures |r| == |s| + 1
  {
    if s == [] then [x]
    else if !le(s[0], x) then [x] + s
    else
      assert s == [s[0]] + s[1..];
      [s[0]] + Insert(x, s[1..], le)
  }

  /** A stable sort: elements are inserted in input order. */
  function SortBy<T>(s: seq<T>, le: (T, T) -> bool): (r: seq<T>)
    ensures multiset(r) == multiset(s)
    ensures |r| == |s|
  {
    if s == [] then []
    else
      assert s == s[..|s| - 1] + [s[|s| - 1]];
      Insert(s[|s| - 1], SortBy(s[..|s| - 1], le), le)
  }

  lemma {:induction false} InsertSorted<T(!new)>(x: T, s: seq<T>, le: (T, T) -> bool)
    requires Total(le) && Sorted(s, le)
    ensures Sorted(Insert(x, s, le), le)
    ensures s != [] ==> Insert(x, s, le)[0] in {x, s[0]}
  {
    if s != [] && le(s[0], x) {
      InsertSorted(x, s[1..], le);
    }
  }

  /** In a sorted sequence the first element may come before every
      other. */
  lemma {:induction false} SortedFirst<T(!new)>(s: seq<T>, le: (T, T) -> bool, k: nat)
    requires Transitive(le) && Sorted(s, le) && 0 < k < |s|
    ensures le(s[0], s[k])
  {
    if k > 1 {
      SortedFirst(s, le, k - 1);
    }
  }

  /** Inserting into a sorted sequence puts `x` behind every element it
      ties with. */
  lemma {:induction false} InsertStable<T(!new)>(x: T, s: seq<T>, le: (T, T) -> bool, tied: T -> bool)
    requires Transitive(le) && Sorted(s, le) && Tied(tied, le)
    ensures Select(Insert(x, s, le), tied) == Select(s, tied) + (if tied(x) then [x] else [])
  {
    if s == [] {
    } else if !le(s[0], x) {
      InsertInFront(x, s, le, tied);
    } else {
      assert Sorted(s[1..], le);
      InsertStable(x, s[1..], le, tied);
      InsertBehindHead(x, s, le, tied);
    }
  }

  /** When `x` goes in front, no element it ties with is passed over. */
  lemma InsertInFront<T(!new)>(x: T, s: seq<T>, le: (T, T) -> bool, tied: T -> bool)
    requires Transitive(le) && Sorted(s, le) && Tied(tied, le) && s != [] && !le(s[0], x)
    ensures Select(Insert(x, s, le), tied) == Select(s, tied) + (if tied(x) then [x] else [])
  {
    assert Insert(x, s, le) == [x] + s;
    assert ([x] + s)[1..] == s;
    if tied(x) {
      forall k | 0 <= k < |s| ensures !tied(s[k]) {
        if k > 0 {
          SortedFirst(s, le, k);
        }
      }
      NoneSelected(s, tied);
    }
  }

  /** When `x` goes behind the head, the head keeps its place in front of
      what the rest gives. */
  lemma InsertBehindHead<T>(x: T, s: seq<T>, le: (T, T) -> bool, tied: T -> bool)
    requires s != [] && le(s[0], x)
    requires Select(Insert(x, s[1..], le), tied) == Select(s[1..], tied) + (if tied(x) then [x] else [])
    ensures Select(Insert(x, s, le), tied) == Select(s, tied) + (if tied(x) then [x] else [])
  {
    var rest := Insert(x, s[1..], le);
    var head := if tied(s[0]) then [s[0]] else [];
    var tail := if tied(x) then [x] else [];
    assert Insert(x, s, le) == [s[0]] + rest;
    assert ([s[0]] + rest)[1..] == rest;
    calc {
      Select(Insert(x, s, le), tied);
      head + Select(rest, tied);
      head + (Select(s[1..], tied) + tail);
      { Associative(head, Select(s[1..], tied), tail); }
      (head + Select(s[1..], tied)) + tail;
      Select(s, tied) + tail;
    }
  }

  lemma Associative<T>(a: seq<T>, b: seq<T>, c: seq<T>)
    ensures a + (b + c) == (a + b) + c
  {
  }

  lemma {:induction false} NoneSelected<T>(s: seq<T>, keep: T -> bool)
    requires forall k :: 0 <= k < |s| ==> !keep(s[k])
    ensures Select(s, keep) == []
  {
    if s != [] {
      NoneSelected(s[1..], keep);
    }
  }

  /** The sort is stable: elements that tie keep their input order. For
      every set of elements that all compare equal, the output lists them
      exactly as the input does. */
  lemma {:induction false} SortByStable<T(!new)>(s: seq<T>, le: (T, T) -> bool, tied: T -> bool)
    requires Total(le) && Transitive(le) && Tied(tied, le)
    ensures Select(SortBy(s, le), tied) == Select(s, tied)
  {
    if s != [] {
      var init := s[..|s| - 1];
      var last := s[|s| - 1];
      assert s == init + [last];
      SortByStable(init, le, tied);
      SortByOrdered(init, le);
      InsertStable(last, SortBy(init, le), le, tied);
      SelectAppend(init, [last], tied);
      assert Select([last], tied) == (if tied(last) then [last] else []) by {
        assert [last][1..] == [];
      }
    }
  }

  /** The output is ordered by `le` and holds the same elements. */
  lemma {:induction false} SortByOrdered<T(!new)>(s: seq<T>, le: (T, T) -> bool)
    requires Total(le)
    ensures Sorted(SortBy(s, le), le)
    ensures multiset(SortBy(s, le)) == multiset(s)
  {
    if s != [] {
      SortByOrdered(s[..|s| - 1], le);
      InsertSorted(s[|s| - 1], SortBy(s[..|s| - 1], le), le);
    }
  }
}

/** Order-preserving selection: the shape of every LINQ `Where` and of the
    loops that append only some of their inputs. */
module Subsequences {

  /** `r` is `s` with some elements left out, the rest in their order. */
  ghost predicate IsSubsequence<T>(r: seq<T>, s: seq<T>)
    decreases |s|
  {
    if r == [] then true
    else if s == [] then false
    else
      || (r[|r| - 1] == s[|s| - 1] && IsSubsequence(r[..|r| - 1], s[..|s| - 1]))
      || IsSubsequence(r, s[..|s| - 1])
  }

  /** The positions below `n` where `ok` holds, in increasing order: each
      such position once, and no other. */
  ghost function Positions(n: nat, ok: nat -> bool): (r: seq<nat>)
    ensures forall k :: 0 <= k < |r| ==> r[k] < n && ok(r[k])
    ensures forall k, l :: 0 <= k < l < |r| ==> r[k] < r[l]
    ensures forall j :: 0 <= j < n && ok(j) ==> j in r
  {
    if n == 0 then [] else Positions(n - 1, ok) + (if ok(n - 1) then [n - 1] else [])
  }

  /** Keeping or dropping one more input element keeps the relation. */
  lemma Extend<T>(r: seq<T>, s: seq<T>, x: T)
    requires IsSubsequence(r, s)
    ensures IsSubsequence(r + [x], s + [x])
    ensures IsSubsequence(r, s + [x])
  {
    assert (r + [x])[..|r|] == r;
    assert (s + [x])[..|s|] == s;
  }

  lemma {:induction false} Transitive<T>(a: seq<T>, b: seq<T>, c: seq<T>)
    requires IsSubsequence(a, b) && IsSubsequence(b, c)
    ensures IsSubsequence(a, c)
    decreases |c|
  {
    if a != [] {
      var c' := c[..|c| - 1];
      if IsSubsequence(b, c') {
        Transitive(a, b, c');
      } else {
        var b' := b[..|b| - 1];
        if a[|a| - 1] == b[|b| - 1] && IsSubsequence(a[..|a| - 1], b') {
          Transitive(a[..|a| - 1], b', c');
        } else {
          Transitive(a, b', c');
        }
      }
    }
  }
}
