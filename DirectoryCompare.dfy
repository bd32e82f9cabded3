/** The directory comparison: two lists of parsed books are matched in four
    tiers (exact, title only, author only, similar title), and the books no
    tier matched are listed per side. A book is known by its position in
    its list, as the view models it wraps are distinct objects. */
module DirectoryCompare {
  import opened Wrappers
  import opened Text
  import opened Records
  import opened Sorting
  import opened Levenshtein

  datatype Tier = ExactMatch | TitleMatch | AuthorMatch | SimilarTitle

  /** A ComparisonResultItem, by the positions of its books: a matched pair,
      or a book of one side with the other side null. */
  datatype Item =
    | Pair(left: nat, right: nat)
    | LeftOnly(left: nat)
    | RightOnly(right: nat)

  /** string.Equals(a?.Trim(), b?.Trim(), OrdinalIgnoreCase): null equals
      only null. */
  predicate SameText(a: Option<string>, b: Option<string>) {
    if a.None? || b.None? then a.None? && b.None?
    else EqualsIgnoreCase(Trim(a.value), Trim(b.value))
  }

  /** The test each tier applies to a left and a right book. */
  predicate Matches(tier: Tier, l: Book, r: Book) {
    match tier
    case ExactMatch => SameText(Some(l.title), Some(r.title)) && SameText(l.author, r.author)
    case TitleMatch => SameText(Some(l.title), Some(r.title))
    case AuthorMatch =>
      !IsNullOrWhiteSpace(l.author) && !IsNullOrWhiteSpace(r.author) && SameText(l.author, r.author)
    case SimilarTitle =>
      !IsBlank(l.title) && !IsBlank(r.title) && Similarity(Some(l.title), Some(r.title)) > 0.7
  }

  /** The left books named by some item. */
  function Lefts(items: seq<Item>): set<nat> {
    set x | x in items && !x.RightOnly? :: x.left
  }

  /** The right books named by some item. */
  function Rights(items: seq<Item>): set<nat> {
    set x | x in items && !x.LeftOnly? :: x.right
  }

  /** Appending an item adds its books to the sides. */
  lemma SidesAppendOne(items: seq<Item>, x: Item)
    ensures Lefts(items + [x]) == Lefts(items) + (if x.RightOnly? then {} else {x.left})
    ensures Rights(items + [x]) == Rights(items) + (if x.LeftOnly? then {} else {x.right})
  {
    assert forall y :: y in items + [x] <==> y in items || y == x;
  }

  /** The sides of a concatenation are the unions of the sides. */
  lemma SidesConcat(a: seq<Item>, b: seq<Item>)
    ensures Lefts(a + b) == Lefts(a) + Lefts(b)
    ensures Rights(a + b) == Rights(a) + Rights(b)
  {
    assert forall y :: y in a + b <==> y in a || y in b;
  }

  /** `x` and `y` are pairs and `x` comes first in left-major, right-minor
      order. */
  predicate Precedes(x: Item, y: Item) {
    && x.Pair? && y.Pair?
    && (x.left < y.left || (x.left == y.left && x.right < y.right))
  }

  ghost predicate Ascending(items: seq<Item>) {
    forall a, b {:trigger Precedes(items[a], items[b])} :: 0 <= a < b < |items| ==> Precedes(items[a], items[b])
  }

  /** No right book is named twice. */
  ghost predicate RightsDistinct(items: seq<Item>) {
    forall a, b :: 0 <= a < b < |items| && !items[a].LeftOnly? && !items[b].LeftOnly? ==> items[a].right != items[b].right
  }

  // ---------------------------------------------------------------------------
  // The tiers as functions
  // ---------------------------------------------------------------------------

  /** The test of a tier on left book `i` and right book `j`. */
  function Test(tier: Tier, L: seq<Book>, R: seq<Book>): (nat, nat) -> bool {
    (i: nat, j: nat) => i < |L| && j < |R| && Matches(tier, L[i], R[j])
  }

  /** The pairs the inner loop adds for left book `i`: the right books
      below `upto`, in order, that are not in `skip` and pass the test. */
  function Row(pass: (nat, nat) -> bool, i: nat, skip: set<nat>, upto: nat): seq<Item> {
    if upto == 0 then []
    else
      var j := upto - 1;
      Row(pass, i, skip, j) + (if j !in skip && pass(i, j) then [Pair(i, j)] else [])
  }

  /** The first tier over the left books below `upto`, against `width`
      right books: every pair that passes the test, with no book excluded. */
  function AllPairs(pass: (nat, nat) -> bool, width: nat, upto: nat): seq<Item> {
    if upto == 0 then []
    else AllPairs(pass, width, upto - 1) + Row(pass, upto - 1, {}, width)
  }

  /** The right books a row pairs. */
  function RowRights(pass: (nat, nat) -> bool, i: nat, skip: set<nat>, upto: nat): set<nat> {
    if upto == 0 then {}
    else
      var j := upto - 1;
      RowRights(pass, i, skip, j) + (if j !in skip && pass(i, j) then {j} else {})
  }

  /** The right books not available once a later tier has passed the left
      books below `upto`: those in `skipR` and those the tier paired. */
  function Used(pass: (nat, nat) -> bool, width: nat, skipL: set<nat>, skipR: set<nat>, upto: nat): set<nat> {
    if upto == 0 then skipR
    else
      var used := Used(pass, width, skipL, skipR, upto - 1);
      used + (if upto - 1 in skipL then {} else RowRights(pass, upto - 1, used, width))
  }

  /** A later tier over the left books below `upto`. The left books in
      `skipL` (matched before the tier) are passed over; each remaining
      left book is tried against the right books that are neither in
      `skipR` (matched before the tier) nor paired earlier in this tier. */
  function Later(pass: (nat, nat) -> bool, width: nat, skipL: set<nat>, skipR: set<nat>, upto: nat): seq<Item> {
    if upto == 0 then []
    else
      Later(pass, width, skipL, skipR, upto - 1)
      + (if upto - 1 in skipL then [] else Row(pass, upto - 1, Used(pass, width, skipL, skipR, upto - 1), width))
  }

  /** The positions below `count` that are not in `matched`, ascending:
      `Except(matched)` over a list of distinct objects. */
  function Unmatched(count: nat, matched: set<nat>): (r: seq<nat>)
    ensures forall k: nat :: k in r <==> k < count && k !in matched
    ensures forall a, b :: 0 <= a < b < |r| ==> r[a] < r[b]
  {
    if count == 0 then []
    else
      var rest := Unmatched(count - 1, matched);
      assert forall a :: 0 <= a < |rest| ==> rest[a] in rest;
      rest + (if count - 1 in matched then [] else [count - 1])
  }

  /** `OrderBy(b => b.Title)` on positions into `books`, for the title
      comparer `titleLe`. */
  function TitleOrder(books: seq<Book>, titleLe: (string, string) -> bool): (nat, nat) -> bool {
    (a: nat, b: nat) => a < |books| && b < |books| ==> titleLe(books[a].title, books[b].title)
  }

  function LeftItems(ks: seq<nat>): seq<Item> {
    seq(|ks|, k requires 0 <= k < |ks| => LeftOnly(ks[k]))
  }

  function RightItems(ks: seq<nat>): seq<Item> {
    seq(|ks|, k requires 0 <= k < |ks| => RightOnly(ks[k]))
  }

  /** The items of the six groups of one comparison, in the order the
      groups are published. */
  datatype Outcome = Outcome(
    exact: seq<Item>, title: seq<Item>, author: seq<Item>, similar: seq<Item>,
    leftOnly: seq<Item>, rightOnly: seq<Item>)

  /** What CompareDirectoriesAsync puts in each group. */
  function Compare(L: seq<Book>, R: seq<Book>, titleLe: (string, string) -> bool): Outcome {
    var exact := AllPairs(Test(ExactMatch, L, R), |R|, |L|);
    var l1, r1 := Lefts(exact), Rights(exact);
    var title := Later(Test(TitleMatch, L, R), |R|, l1, r1, |L|);
    var l2, r2 := l1 + Lefts(title), r1 + Rights(title);
    var author := Later(Test(AuthorMatch, L, R), |R|, l2, r2, |L|);
    var l3, r3 := l2 + Lefts(author), r2 + Rights(author);
    var similar := Later(Test(SimilarTitle, L, R), |R|, l3, r3, |L|);
    var l4, r4 := l3 + Lefts(similar), r3 + Rights(similar);
    Outcome(exact, title, author, similar,
            LeftItems(SortBy(Unmatched(|L|, l4), TitleOrder(L, titleLe))),
            RightItems(SortBy(Unmatched(|R|, r4), TitleOrder(R, titleLe))))
  }

  // ---------------------------------------------------------------------------
  // Properties of the tiers
  // ---------------------------------------------------------------------------

  /** The `k`-th pair of a row is of left book `i` and a right book below
      `upto` that is not skipped and passes the test. */
  lemma {:induction false} RowAt(pass: (nat, nat) -> bool, i: nat, skip: set<nat>, upto: nat, k: nat)
    requires k < |Row(pass, i, skip, upto)|
    ensures var x := Row(pass, i, skip, upto)[k];
            && x.Pair? && x.left == i && x.right < upto && x.right !in skip && pass(i, x.right)
            && x.right in RowRights(pass, i, skip, upto)
  {
    var before := Row(pass, i, skip, upto - 1);
    if k < |before| {
      RowAt(pass, i, skip, upto - 1, k);
    }
  }

  /** A row lists its right books in ascending order. */
  lemma {:induction false} RowAscendingAt(pass: (nat, nat) -> bool, i: nat, skip: set<nat>, upto: nat, a: nat, b: nat)
    requires a < b < |Row(pass, i, skip, upto)|
    ensures var r := Row(pass, i, skip, upto);
            r[a].Pair? && r[b].Pair? && r[a].right < r[b].right
  {
    var r := Row(pass, i, skip, upto);
    var before := Row(pass, i, skip, upto - 1);
    if b < |before| {
      RowAscendingAt(pass, i, skip, upto - 1, a, b);
      assert r[a] == before[a] && r[b] == before[b];
    } else {
      RowAt(pass, i, skip, upto - 1, a);
      assert r[a] == before[a] && r[b] == Pair(i, upto - 1);
    }
  }

  /** A row pairs left book `i` with right book `j` when `j` is below
      `upto`, not skipped, and passes the test. */
  lemma {:induction false} InRow(pass: (nat, nat) -> bool, i: nat, skip: set<nat>, upto: nat, j: nat)
    requires j < upto && j !in skip && pass(i, j)
    ensures Pair(i, j) in Row(pass, i, skip, upto)
  {
    if j < upto - 1 {
      InRow(pass, i, skip, upto - 1, j);
    }
  }

  /** The `k`-th item of the first tier is a pair that passes the test. */
  lemma {:induction false} AllPairsAt(pass: (nat, nat) -> bool, width: nat, upto: nat, k: nat)
    requires k < |AllPairs(pass, width, upto)|
    ensures var x := AllPairs(pass, width, upto)[k];
            x.Pair? && x.left < upto && x.right < width && pass(x.left, x.right)
  {
    var before := AllPairs(pass, width, upto - 1);
    if k < |before| {
      AllPairsAt(pass, width, upto - 1, k);
    } else {
      RowAt(pass, upto - 1, {}, width, k - |before|);
    }
  }

  /** The first tier pairs every left and right book that pass the test. */
  lemma {:induction false} InAllPairs(pass: (nat, nat) -> bool, width: nat, upto: nat, i: nat, j: nat)
    requires i < upto && j < width && pass(i, j)
    ensures Pair(i, j) in AllPairs(pass, width, upto)
  {
    var before, row := AllPairs(pass, width, upto - 1), Row(pass, upto - 1, {}, width);
    assert AllPairs(pass, width, upto) == before + row;
    if i < upto - 1 {
      InAllPairs(pass, width, upto - 1, i, j);
      assert Pair(i, j) in before;
    } else {
      InRow(pass, i, {}, width, j);
      assert Pair(i, j) in row;
    }
  }

  /** The first tier lists its pairs in left-major, right-minor order. */
  lemma {:induction false} AllPairsAscendingAt(pass: (nat, nat) -> bool, width: nat, upto: nat, a: nat, b: nat)
    requires a < b < |AllPairs(pass, width, upto)|
    ensures Precedes(AllPairs(pass, width, upto)[a], AllPairs(pass, width, upto)[b])
  {
    var r := AllPairs(pass, width, upto);
    var before := AllPairs(pass, width, upto - 1);
    var row := Row(pass, upto - 1, {}, width);
    if b < |before| {
      AllPairsAscendingAt(pass, width, upto - 1, a, b);
      assert r[a] == before[a] && r[b] == before[b];
    } else {
      assert r == before + row && r[b] == row[b - |before|];
      RowAt(pass, upto - 1, {}, width, b - |before|);
      if a < |before| {
        AllPairsAt(pass, width, upto - 1, a);
        assert r[a] == before[a];
      } else {
        RowAt(pass, upto - 1, {}, width, a - |before|);
        RowAscendingAt(pass, upto - 1, {}, width, a - |before|, b - |before|);
        assert r[a] == row[a - |before|];
      }
    }
  }

  /** The used right books only grow from one left book to the next. */
  lemma {:induction false} UsedGrows(pass: (nat, nat) -> bool, width: nat, skipL: set<nat>, skipR: set<nat>, lo: nat, hi: nat)
    requires lo <= hi
    ensures Used(pass, width, skipL, skipR, lo) <= Used(pass, width, skipL, skipR, hi)
    decreases hi
  {
    if lo < hi {
      UsedGrows(pass, width, skipL, skipR, lo, hi - 1);
    }
  }

  /** The `k`-th item of a later tier is a pair of books unmatched before
      the tier that passes its test, and its right book is used. */
  lemma {:induction false} LaterAt(pass: (nat, nat) -> bool, width: nat, skipL: set<nat>, skipR: set<nat>, upto: nat, k: nat)
    requires k < |Later(pass, width, skipL, skipR, upto)|
    ensures var x := Later(pass, width, skipL, skipR, upto)[k];
            && x.Pair? && x.left < upto && x.right < width
            && x.left !in skipL && x.right !in skipR && pass(x.left, x.right)
            && x.right in Used(pass, width, skipL, skipR, upto)
  {
    var before := Later(pass, width, skipL, skipR, upto - 1);
    var used := Used(pass, width, skipL, skipR, upto - 1);
    UsedGrows(pass, width, skipL, skipR, 0, upto - 1);
    if k < |before| {
      LaterAt(pass, width, skipL, skipR, upto - 1, k);
    } else {
      RowAt(pass, upto - 1, used, width, k - |before|);
    }
  }

  /** A row pairs each right book it names at some position. */
  lemma {:induction false} RowWitness(pass: (nat, nat) -> bool, i: nat, skip: set<nat>, upto: nat, j: nat) returns (k: nat)
    requires j in RowRights(pass, i, skip, upto)
    ensures k < |Row(pass, i, skip, upto)| && Row(pass, i, skip, upto)[k] == Pair(i, j)
  {
    var before := Row(pass, i, skip, upto - 1);
    if j in RowRights(pass, i, skip, upto - 1) {
      k := RowWitness(pass, i, skip, upto - 1, j);
    } else {
      k := |before|;
    }
  }

  /** A right book used by a later tier and not skipped is paired at some
      position of the tier. */
  lemma {:induction false} UsedWitness(pass: (nat, nat) -> bool, width: nat, skipL: set<nat>, skipR: set<nat>, upto: nat, j: nat) returns (k: nat)
    requires j in Used(pass, width, skipL, skipR, upto) && j !in skipR
    ensures k < |Later(pass, width, skipL, skipR, upto)|
    ensures Later(pass, width, skipL, skipR, upto)[k].Pair? && Later(pass, width, skipL, skipR, upto)[k].right == j
  {
    var before := Later(pass, width, skipL, skipR, upto - 1);
    var used := Used(pass, width, skipL, skipR, upto - 1);
    if j in used {
      k := UsedWitness(pass, width, skipL, skipR, upto - 1, j);
      assert Later(pass, width, skipL, skipR, upto)[k] == before[k];
    } else {
      var m := RowWitness(pass, upto - 1, used, width, j);
      k := |before| + m;
      assert Later(pass, width, skipL, skipR, upto) == before + Row(pass, upto - 1, used, width);
    }
  }

  /** The right books of a row's items are the ones it pairs. */
  lemma RowRightsAre(pass: (nat, nat) -> bool, i: nat, skip: set<nat>, upto: nat)
    ensures Rights(Row(pass, i, skip, upto)) == RowRights(pass, i, skip, upto)
  {
    var r := Row(pass, i, skip, upto);
    forall j | j in RowRights(pass, i, skip, upto) ensures j in Rights(r) {
      var k := RowWitness(pass, i, skip, upto, j);
      assert r[k] in r;
    }
    forall x | x in r && !x.LeftOnly? ensures x.right in RowRights(pass, i, skip, upto) {
      var k :| 0 <= k < |r| && r[k] == x;
      RowAt(pass, i, skip, upto, k);
    }
  }

  /** An item of a later tier and an item the tier adds after it, for a
      later left book, name different right books. */
  lemma LaterRowAvoids(pass: (nat, nat) -> bool, width: nat, skipL: set<nat>, skipR: set<nat>, upto: nat, a: nat, k: nat)
    requires upto > 0
    requires a < |Later(pass, width, skipL, skipR, upto - 1)|
    requires k < |Row(pass, upto - 1, Used(pass, width, skipL, skipR, upto - 1), width)|
    ensures var before := Later(pass, width, skipL, skipR, upto - 1);
            var row := Row(pass, upto - 1, Used(pass, width, skipL, skipR, upto - 1), width);
            before[a].Pair? && row[k].Pair? && before[a].right != row[k].right
  {
    LaterAt(pass, width, skipL, skipR, upto - 1, a);
    RowAt(pass, upto - 1, Used(pass, width, skipL, skipR, upto - 1), width, k);
  }

  /** Two items of a later tier name different right books. */
  lemma {:induction false} LaterDistinctAt(pass: (nat, nat) -> bool, width: nat, skipL: set<nat>, skipR: set<nat>, upto: nat, a: nat, b: nat)
    requires a < b < |Later(pass, width, skipL, skipR, upto)|
    ensures var r := Later(pass, width, skipL, skipR, upto);
            r[a].Pair? && r[b].Pair? && r[a].right != r[b].right
  {
    var r := Later(pass, width, skipL, skipR, upto);
    var before := Later(pass, width, skipL, skipR, upto - 1);
    if b < |before| {
      LaterDistinctAt(pass, width, skipL, skipR, upto - 1, a, b);
      assert r[a] == before[a] && r[b] == before[b];
    } else {
      var used := Used(pass, width, skipL, skipR, upto - 1);
      var row := Row(pass, upto - 1, used, width);
      assert upto - 1 !in skipL && r == before + row;
      if a < |before| {
        LaterRowAvoids(pass, width, skipL, skipR, upto, a, b - |before|);
        assert r[a] == before[a] && r[b] == row[b - |before|];
      } else {
        RowAscendingAt(pass, upto - 1, used, width, a - |before|, b - |before|);
        assert r[a] == row[a - |before|] && r[b] == row[b - |before|];
      }
    }
  }

  /** A row pairs left book `i` with exactly the right books below `upto`
      that are not skipped and pass the test. */
  lemma RowSound(pass: (nat, nat) -> bool, i: nat, skip: set<nat>, upto: nat)
    ensures forall x :: x in Row(pass, i, skip, upto) ==>
              x.Pair? && x.left == i && x.right < upto && x.right !in skip && pass(i, x.right)
    ensures forall j: nat :: j < upto && j !in skip && pass(i, j) ==> Pair(i, j) in Row(pass, i, skip, upto)
  {
    var r := Row(pass, i, skip, upto);
    forall x | x in r ensures x.Pair? && x.left == i && x.right < upto && x.right !in skip && pass(i, x.right) {
      var k :| 0 <= k < |r| && r[k] == x;
      RowAt(pass, i, skip, upto, k);
    }
    forall j: nat | j < upto && j !in skip && pass(i, j) ensures Pair(i, j) in r {
      InRow(pass, i, skip, upto, j);
    }
  }

  /** The first tier holds exactly the pairs that pass the test, in
      left-major, right-minor order. */
  lemma AllPairsFacts(pass: (nat, nat) -> bool, width: nat, upto: nat)
    ensures forall x :: x in AllPairs(pass, width, upto) ==>
              x.Pair? && x.left < upto && x.right < width && pass(x.left, x.right)
    ensures forall i: nat, j: nat :: i < upto && j < width && pass(i, j) ==> Pair(i, j) in AllPairs(pass, width, upto)
    ensures Ascending(AllPairs(pass, width, upto))
  {
    var r := AllPairs(pass, width, upto);
    forall x | x in r ensures x.Pair? && x.left < upto && x.right < width && pass(x.left, x.right) {
      var k :| 0 <= k < |r| && r[k] == x;
      AllPairsAt(pass, width, upto, k);
    }
    forall i: nat, j: nat | i < upto && j < width && pass(i, j) ensures Pair(i, j) in r {
      InAllPairs(pass, width, upto, i, j);
    }
    forall a, b | 0 <= a < b < |r| ensures Precedes(r[a], r[b]) {
      AllPairsAscendingAt(pass, width, upto, a, b);
    }
  }

  /** A later tier only pairs books unmatched before it that pass its
      test. */
  lemma LaterSound(pass: (nat, nat) -> bool, width: nat, skipL: set<nat>, skipR: set<nat>, upto: nat)
    ensures forall x :: x in Later(pass, width, skipL, skipR, upto) ==>
              && x.Pair? && x.left < upto && x.right < width
              && x.left !in skipL && x.right !in skipR && pass(x.left, x.right)
  {
    var r := Later(pass, width, skipL, skipR, upto);
    forall x | x in r
      ensures && x.Pair? && x.left < upto && x.right < width
              && x.left !in skipL && x.right !in skipR && pass(x.left, x.right)
    {
      var k :| 0 <= k < |r| && r[k] == x;
      LaterAt(pass, width, skipL, skipR, upto, k);
    }
  }

  /** A later tier pairs each right book at most once. */
  lemma LaterDistinct(pass: (nat, nat) -> bool, width: nat, skipL: set<nat>, skipR: set<nat>, upto: nat)
    ensures RightsDistinct(Later(pass, width, skipL, skipR, upto))
  {
    var r := Later(pass, width, skipL, skipR, upto);
    forall a, b | 0 <= a < b < |r| && !r[a].LeftOnly? && !r[b].LeftOnly? ensures r[a].right != r[b].right {
      LaterDistinctAt(pass, width, skipL, skipR, upto, a, b);
    }
  }

  /** The right books used after a later tier are the skipped ones and
      the ones it paired. */
  lemma LaterUsed(pass: (nat, nat) -> bool, width: nat, skipL: set<nat>, skipR: set<nat>, upto: nat)
    ensures Used(pass, width, skipL, skipR, upto) == skipR + Rights(Later(pass, width, skipL, skipR, upto))
  {
    var r := Later(pass, width, skipL, skipR, upto);
    var used := Used(pass, width, skipL, skipR, upto);
    UsedGrows(pass, width, skipL, skipR, 0, upto);
    forall j | j in used && j !in skipR ensures j in Rights(r) {
      var k := UsedWitness(pass, width, skipL, skipR, upto, j);
      assert r[k] in r && !r[k].LeftOnly?;
    }
    forall x | x in r && !x.LeftOnly? ensures x.right in used {
      var k :| 0 <= k < |r| && r[k] == x;
      LaterAt(pass, width, skipL, skipR, upto, k);
    }
  }

  /** A left book may be paired with several right books in one later
      tier: with both right books passing, the tier over one left book
      pairs it with each. */
  lemma SeveralInOneTier(pass: (nat, nat) -> bool)
    requires pass(0, 0) && pass(0, 1)
    ensures Later(pass, 2, {}, {}, 1) == [Pair(0, 0), Pair(0, 1)]
  {
    assert Later(pass, 2, {}, {}, 0) == [] && Used(pass, 2, {}, {}, 0) == {};
    assert Row(pass, 0, {}, 1) == [Pair(0, 0)];
    assert Row(pass, 0, {}, 2) == [Pair(0, 0), Pair(0, 1)];
  }

  /** The items built for the one-sided groups name the given books on
      their side and none on the other. */
  lemma OneSidedItems(ks: seq<nat>)
    ensures Lefts(LeftItems(ks)) == set k | k in ks
    ensures Rights(LeftItems(ks)) == {}
    ensures Rights(RightItems(ks)) == set k | k in ks
    ensures Lefts(RightItems(ks)) == {}
  {
    forall k | k in ks ensures k in Lefts(LeftItems(ks)) && k in Rights(RightItems(ks)) {
      var a :| 0 <= a < |ks| && ks[a] == k;
      assert LeftItems(ks)[a] in LeftItems(ks);
      assert RightItems(ks)[a] in RightItems(ks);
    }
  }

  /** Sorting keeps the elements. */
  lemma SortByMembers(s: seq<nat>, le: (nat, nat) -> bool)
    ensures forall k :: k in SortBy(s, le) <==> k in s
  {
    assert forall k :: k in SortBy(s, le) <==> k in multiset(SortBy(s, le));
  }

  /** The sides of a list of pairs within bounds that avoid the skipped
      books. */
  lemma SidesWithin(r: seq<Item>, skipL: set<nat>, skipR: set<nat>, nL: nat, nR: nat)
    requires forall x :: x in r ==> x.Pair? && x.left < nL && x.right < nR && x.left !in skipL && x.right !in skipR
    ensures forall i :: i in Lefts(r) ==> i < nL && i !in skipL
    ensures forall j :: j in Rights(r) ==> j < nR && j !in skipR
  {
  }

  /** Every left book lands in exactly one of the six groups: the groups'
      left books together are all of them, and each group's are none of
      the earlier groups'. The right-only group names no left book. */
  lemma LeftPartition(L: seq<Book>, R: seq<Book>, titleLe: (string, string) -> bool)
    ensures var o := Compare(L, R, titleLe);
            && (forall i: nat :: i in Lefts(o.exact) + Lefts(o.title) + Lefts(o.author) + Lefts(o.similar) + Lefts(o.leftOnly) <==> i < |L|)
            && Lefts(o.title) !! Lefts(o.exact)
            && Lefts(o.author) !! Lefts(o.exact) + Lefts(o.title)
            && Lefts(o.similar) !! Lefts(o.exact) + Lefts(o.title) + Lefts(o.author)
            && Lefts(o.leftOnly) !! Lefts(o.exact) + Lefts(o.title) + Lefts(o.author) + Lefts(o.similar)
            && Lefts(o.rightOnly) == {}
  {
    var o := Compare(L, R, titleLe);
    var l1 := Lefts(o.exact);
    var l2 := l1 + Lefts(o.title);
    var l3 := l2 + Lefts(o.author);
    var l4 := l3 + Lefts(o.similar);
    LeftSides(L, R, titleLe);
    forall i: nat ensures i in l4 + Lefts(o.leftOnly) <==> i < |L| {
      if i in l4 {
        assert i in l1 || i in Lefts(o.title) || i in Lefts(o.author) || i in Lefts(o.similar);
      }
    }
    assert Lefts(o.leftOnly) !! l4 by {
      forall i | i in Lefts(o.leftOnly) ensures i !in l4 {
        assert i >= 0;
      }
    }
  }

  /** Group by group, the left books of each are in range and none of an
      earlier group's, and the left-only group takes exactly the rest. */
  lemma LeftSides(L: seq<Book>, R: seq<Book>, titleLe: (string, string) -> bool)
    ensures var o := Compare(L, R, titleLe);
            var l1 := Lefts(o.exact);
            var l2 := l1 + Lefts(o.title);
            var l3 := l2 + Lefts(o.author);
            var l4 := l3 + Lefts(o.similar);
            && (forall i :: i in l1 ==> i < |L|)
            && (forall i :: i in Lefts(o.title) ==> i < |L| && i !in l1)
            && (forall i :: i in Lefts(o.author) ==> i < |L| && i !in l2)
            && (forall i :: i in Lefts(o.similar) ==> i < |L| && i !in l3)
            && (forall i: nat :: i in Lefts(o.leftOnly) <==> i < |L| && i !in l4)
            && Lefts(o.rightOnly) == {}
  {
    var o := Compare(L, R, titleLe);
    var l1, r1 := Lefts(o.exact), Rights(o.exact);
    var l2, r2 := l1 + Lefts(o.title), r1 + Rights(o.title);
    var l3, r3 := l2 + Lefts(o.author), r2 + Rights(o.author);
    var l4, r4 := l3 + Lefts(o.similar), r3 + Rights(o.similar);
    AllPairsFacts(Test(ExactMatch, L, R), |R|, |L|);
    SidesWithin(o.exact, {}, {}, |L|, |R|);
    LaterSound(Test(TitleMatch, L, R), |R|, l1, r1, |L|);
    SidesWithin(o.title, l1, r1, |L|, |R|);
    LaterSound(Test(AuthorMatch, L, R), |R|, l2, r2, |L|);
    SidesWithin(o.author, l2, r2, |L|, |R|);
    LaterSound(Test(SimilarTitle, L, R), |R|, l3, r3, |L|);
    SidesWithin(o.similar, l3, r3, |L|, |R|);
    SortByMembers(Unmatched(|L|, l4), TitleOrder(L, titleLe));
    OneSidedItems(SortBy(Unmatched(|L|, l4), TitleOrder(L, titleLe)));
    OneSidedItems(SortBy(Unmatched(|R|, r4), TitleOrder(R, titleLe)));
  }

  /** Every right book lands in exactly one of the six groups, and the
      left-only group names no right book. */
  lemma RightPartition(L: seq<Book>, R: seq<Book>, titleLe: (string, string) -> bool)
    ensures var o := Compare(L, R, titleLe);
            && (forall j: nat :: j in Rights(o.exact) + Rights(o.title) + Rights(o.author) + Rights(o.similar) + Rights(o.rightOnly) <==> j < |R|)
            && Rights(o.title) !! Rights(o.exact)
            && Rights(o.author) !! Rights(o.exact) + Rights(o.title)
            && Rights(o.similar) !! Rights(o.exact) + Rights(o.title) + Rights(o.author)
            && Rights(o.rightOnly) !! Rights(o.exact) + Rights(o.title) + Rights(o.author) + Rights(o.similar)
            && Rights(o.leftOnly) == {}
  {
    var o := Compare(L, R, titleLe);
    var l1, r1 := Lefts(o.exact), Rights(o.exact);
    var l2, r2 := l1 + Lefts(o.title), r1 + Rights(o.title);
    var l3, r3 := l2 + Lefts(o.author), r2 + Rights(o.author);
    var l4, r4 := l3 + Lefts(o.similar), r3 + Rights(o.similar);
    AllPairsFacts(Test(ExactMatch, L, R), |R|, |L|);
    SidesWithin(o.exact, {}, {}, |L|, |R|);
    LaterSound(Test(TitleMatch, L, R), |R|, l1, r1, |L|);
    SidesWithin(o.title, l1, r1, |L|, |R|);
    LaterSound(Test(AuthorMatch, L, R), |R|, l2, r2, |L|);
    SidesWithin(o.author, l2, r2, |L|, |R|);
    LaterSound(Test(SimilarTitle, L, R), |R|, l3, r3, |L|);
    SidesWithin(o.similar, l3, r3, |L|, |R|);
    SortByMembers(Unmatched(|R|, r4), TitleOrder(R, titleLe));
    OneSidedItems(SortBy(Unmatched(|L|, l4), TitleOrder(L, titleLe)));
    OneSidedItems(SortBy(Unmatched(|R|, r4), TitleOrder(R, titleLe)));
  }
}
