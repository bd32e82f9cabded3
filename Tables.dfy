/** Key lists in ascending order: the order of a table's B-tree, and so the
    order in which a query without ORDER BY returns the rows. */
module Tables {

  ghost predicate Increasing(s: seq<int>) {
    forall i, j :: 0 <= i < j < |s| ==> s[i] < s[j]
  }

  lemma ConsIncreasing(a: int, s: seq<int>)
    requires Increasing(s) && forall k :: k in s ==> a < k
    ensures Increasing([a] + s)
  {
    forall i, j | 0 <= i < j < |[a] + s| ensures ([a] + s)[i] < ([a] + s)[j] {
      assert ([a] + s)[j] == s[j - 1];
      assert s[j - 1] in s;
    }
  }

  /** Drops `x` from a key list. */
  function RemoveKey(s: seq<int>, x: int): (r: seq<int>)
    requires Increasing(s)
    ensures Increasing(r)
    ensures forall k :: k in r <==> k in s && k != x
    ensures |r| == if x in s then |s| - 1 else |s|
  {
    if s == [] then []
    else
      assert s == [s[0]] + s[1..];
      if s[0] == x then
        assert x !in s[1..];
        s[1..]
      else
        var rest := RemoveKey(s[1..], x);
        assert forall k :: k in s[1..] ==> s[0] < k by {
          forall k | k in s[1..] ensures s[0] < k {
            var j :| 0 <= j < |s[1..]| && s[1..][j] == k;
            assert s[j + 1] == k;
          }
        }
        ConsIncreasing(s[0], rest);
        [s[0]] + rest
  }
}
