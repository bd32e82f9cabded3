/** The directory comparison page: its result groups and the comparison
    itself, step by step, proved to build the groups `Compare` describes. */
module DirectoryCompareView {
  import opened Wrappers
  import opened Text
  import opened Records
  import opened Sorting
  import opened Levenshtein
  import opened DirectoryCompare

  /** One group of the comparison result: a fixed name, description and
      background colour, and the items added to it in order. */
  class ComparisonResultGroup {
    const name: string
    const description: string
    const backgroundColor: string
    var items: seq<Item>

    constructor (name: string, description: string, backgroundColor: string)
      ensures this.name == name && this.description == description
      ensures this.backgroundColor == backgroundColor
      ensures items == []
    {
      this.name := name;
      this.description := description;
      this.backgroundColor := backgroundColor;
      items := [];
    }

    /** The number of items. */
    function Count(): nat
      reads this
    {
      |items|
    }

    method AddPair(left: nat, right: nat)
      modifies this
      ensures items == old(items) + [Pair(left, right)]
    {
      items := items + [Pair(left, right)];
    }

    method AddLeft(left: nat)
      modifies this
      ensures items == old(items) + [LeftOnly(left)]
    {
      items := items + [LeftOnly(left)];
    }

    method AddRight(right: nat)
      modifies this
      ensures items == old(items) + [RightOnly(right)]
    {
      items := items + [RightOnly(right)];
    }
  }

  /** The test of one tier on a left and a right book, with the similarity
      computed by the edit-distance table only when both titles have
      content. */
  method Qualifies(tier: Tier, l: Book, r: Book) returns (ok: bool)
    ensures ok == Matches(tier, l, r)
  {
    match tier
    case ExactMatch =>
      ok := SameText(Some(l.title), Some(r.title)) && SameText(l.author, r.author);
    case TitleMatch =>
      ok := SameText(Some(l.title), Some(r.title));
    case AuthorMatch =>
      ok := !IsNullOrWhiteSpace(l.author) && !IsNullOrWhiteSpace(r.author) && SameText(l.author, r.author);
    case SimilarTitle =>
      ok := false;
      if !IsBlank(l.title) && !IsBlank(r.title) {
        var similarity := CalculateSimilarity(Some(l.title), Some(r.title));
        ok := similarity > 0.7;
      }
  }

  /** `pass` answers the test of `tier` on the positions of `L` and `R`. */
  ghost predicate Decides(tier: Tier, L: seq<Book>, R: seq<Book>, pass: (nat, nat) -> bool) {
    forall a: nat, b: nat {:trigger Matches(tier, L[a], R[b])} ::
      a < |L| && b < |R| ==> (pass(a, b) <==> Matches(tier, L[a], R[b]))
  }

  /** The tier's own test decides it. */
  lemma TestDecides(tier: Tier, L: seq<Book>, R: seq<Book>)
    ensures Decides(tier, L, R, Test(tier, L, R))
  {
  }

  /** The test of a tier on left book `i` and right book `j`. */
  method QualifiesAt(tier: Tier, L: seq<Book>, R: seq<Book>, ghost pass: (nat, nat) -> bool, i: nat, j: nat) returns (ok: bool)
    requires Decides(tier, L, R, pass) && i < |L| && j < |R|
    ensures ok == pass(i, j)
  {
    ok := Qualifies(tier, L[i], R[j]);
  }

  /** One step of an inner loop: trying right book `j` for left book `i`
      appends the pair exactly when `j` is not skipped and passes. */
  lemma RowStep(pass: (nat, nat) -> bool, i: nat, skip: set<nat>, j: nat, ok: bool)
    requires ok == (j !in skip && pass(i, j))
    ensures Row(pass, i, skip, j + 1) == Row(pass, i, skip, j) + (if ok then [Pair(i, j)] else [])
    ensures RowRights(pass, i, skip, j + 1) == RowRights(pass, i, skip, j) + (if ok then {j} else {})
  {
  }

  /** The inner loop of every tier: left book `i` against each right book
      not in `skip`, adding each pair that passes the tier's test and
      recording both books as matched. */
  method MatchRow(tier: Tier, L: seq<Book>, R: seq<Book>, ghost pass: (nat, nat) -> bool, group: ComparisonResultGroup,
                  i: nat, skip: set<nat>, matchedL: set<nat>, matchedR: set<nat>)
    returns (newL: set<nat>, newR: set<nat>)
    requires i < |L| && Decides(tier, L, R, pass)
    modifies group
    ensures group.items == old(group.items) + Row(pass, i, skip, |R|)
    ensures newL == matchedL + Lefts(Row(pass, i, skip, |R|))
    ensures newR == matchedR + RowRights(pass, i, skip, |R|)
  {
    ghost var start := group.items;
    newL, newR := matchedL, matchedR;
    for j := 0 to |R|
      invariant group.items == start + Row(pass, i, skip, j)
      invariant newL == matchedL + Lefts(Row(pass, i, skip, j))
      invariant newR == matchedR + RowRights(pass, i, skip, j)
    {
      var ok := false;
      if j !in skip {
        ok := QualifiesAt(tier, L, R, pass, i, j);
        if ok {
          group.AddPair(i, j);
          newL, newR := newL + {i}, newR + {j};
          SidesAppendOne(Row(pass, i, skip, j), Pair(i, j));
        }
      }
      RowStep(pass, i, skip, j, ok);
    }
  }

  /** The first tier: every left book against every right book, adding
      each pair that matches exactly and recording both books as matched. */
  method ExactTier(L: seq<Book>, R: seq<Book>, ghost pass: (nat, nat) -> bool, group: ComparisonResultGroup)
    returns (matchedL: set<nat>, matchedR: set<nat>)
    requires Decides(ExactMatch, L, R, pass) && group.items == []
    modifies group
    ensures group.items == AllPairs(pass, |R|, |L|)
    ensures matchedL == Lefts(AllPairs(pass, |R|, |L|))
    ensures matchedR == Rights(AllPairs(pass, |R|, |L|))
  {
    matchedL, matchedR := {}, {};
    for i := 0 to |L|
      invariant group.items == AllPairs(pass, |R|, i)
      invariant matchedL == Lefts(AllPairs(pass, |R|, i)) && matchedR == Rights(AllPairs(pass, |R|, i))
    {
      ghost var done := AllPairs(pass, |R|, i);
      matchedL, matchedR := MatchRow(ExactMatch, L, R, pass, group, i, {}, matchedL, matchedR);
      SidesConcat(done, Row(pass, i, {}, |R|));
      RowRightsAre(pass, i, {}, |R|);
    }
  }

  /** One of the later tiers: each left book not matched before the tier
      against each right book not matched so far, adding each pair that
      passes the tier's test and recording both books as matched. The left
      books are fixed when the tier starts; the right books when each left
      book's inner loop starts. */
  method MatchTier(tier: Tier, L: seq<Book>, R: seq<Book>, ghost pass: (nat, nat) -> bool, group: ComparisonResultGroup,
                   matchedL: set<nat>, matchedR: set<nat>)
    returns (newL: set<nat>, newR: set<nat>)
    requires Decides(tier, L, R, pass) && group.items == []
    modifies group
    ensures group.items == Later(pass, |R|, matchedL, matchedR, |L|)
    ensures newL == matchedL + Lefts(Later(pass, |R|, matchedL, matchedR, |L|))
    ensures newR == matchedR + Rights(Later(pass, |R|, matchedL, matchedR, |L|))
  {
    newL, newR := matchedL, matchedR;
    for i := 0 to |L|
      invariant group.items == Later(pass, |R|, matchedL, matchedR, i)
      invariant newL == matchedL + Lefts(Later(pass, |R|, matchedL, matchedR, i))
      invariant newR == Used(pass, |R|, matchedL, matchedR, i)
    {
      ghost var done := Later(pass, |R|, matchedL, matchedR, i);
      if i !in matchedL {
        newL, newR := MatchRow(tier, L, R, pass, group, i, newR, newL, newR);
        SidesConcat(done, Row(pass, i, Used(pass, |R|, matchedL, matchedR, i), |R|));
      }
    }
    LaterUsed(pass, |R|, matchedL, matchedR, |L|);
  }

  /** Adds one left-only item per position, in the given order. */
  method AddLefts(group: ComparisonResultGroup, ks: seq<nat>)
    modifies group
    ensures group.items == old(group.items) + LeftItems(ks)
  {
    ghost var start := group.items;
    for k := 0 to |ks|
      invariant group.items == start + LeftItems(ks[..k])
    {
      group.AddLeft(ks[k]);
      assert LeftItems(ks[..k + 1]) == LeftItems(ks[..k]) + [LeftOnly(ks[k])];
    }
    assert ks[..|ks|] == ks;
  }

  /** Adds one right-only item per position, in the given order. */
  method AddRights(group: ComparisonResultGroup, ks: seq<nat>)
    modifies group
    ensures group.items == old(group.items) + RightItems(ks)
  {
    ghost var start := group.items;
    for k := 0 to |ks|
      invariant group.items == start + RightItems(ks[..k])
    {
      group.AddRight(ks[k]);
      assert RightItems(ks[..k + 1]) == RightItems(ks[..k]) + [RightOnly(ks[k])];
    }
    assert ks[..|ks|] == ks;
  }

  /** The six result groups a comparison fills, in order, each with its
      name, description and background colour. */
  const GroupLabels: seq<(string, string, string)> := [
    ("完全匹配", "书籍名称和作者完全相同", "#e3f2fd"),
    ("书名匹配", "仅书籍名称相同", "#e8f5e9"),
    ("作者匹配", "仅作者相同", "#fff8e1"),
    ("书名相似", "书籍名称相似但不完全相同", "#f3e5f5"),
    ("仅左侧", "仅在左侧目录中存在", "#ffebee"),
    ("仅右侧", "仅在右侧目录中存在", "#e0f7fa")
  ]

  /** A group labelled as the `k`-th entry of GroupLabels, holding `items`. */
  ghost predicate Labelled(g: ComparisonResultGroup, k: nat, items: seq<Item>)
    requires k < |GroupLabels|
    reads g
  {
    (g.name, g.description, g.backgroundColor) == GroupLabels[k] && g.items == items
  }

  /** A new group labelled as the `k`-th entry of GroupLabels. */
  method NewGroup(k: nat) returns (g: ComparisonResultGroup)
    requires k < |GroupLabels|
    ensures fresh(g) && Labelled(g, k, [])
  {
    var (name, description, color) := GroupLabels[k];
    g := new ComparisonResultGroup(name, description, color);
  }

  /** The labels of six groups, in order. */
  ghost function Labels(gs: seq<ComparisonResultGroup>): seq<(string, string, string)>
    requires |gs| == 6
    reads gs
  {
    [Label(gs[0]), Label(gs[1]), Label(gs[2]), Label(gs[3]), Label(gs[4]), Label(gs[5])]
  }

  ghost function Label(g: ComparisonResultGroup): (string, string, string) {
    (g.name, g.description, g.backgroundColor)
  }

  /** The items of six groups, in order, read as an outcome. */
  ghost function Report(gs: seq<ComparisonResultGroup>): Outcome
    requires |gs| == 6
    reads gs
  {
    Outcome(gs[0].items, gs[1].items, gs[2].items, gs[3].items, gs[4].items, gs[5].items)
  }

  /** The first tier in a new group of its own. */
  method ExactGroup(L: seq<Book>, R: seq<Book>) returns (g: ComparisonResultGroup, matchedL: set<nat>, matchedR: set<nat>)
    ensures fresh(g)
    ensures Labelled(g, 0, AllPairs(Test(ExactMatch, L, R), |R|, |L|))
    ensures matchedL == Lefts(g.items) && matchedR == Rights(g.items)
  {
    g := NewGroup(0);
    TestDecides(ExactMatch, L, R);
    matchedL, matchedR := ExactTier(L, R, Test(ExactMatch, L, R), g);
  }

  /** A later tier in a new group of its own, labelled as the `k`-th
      entry of GroupLabels. */
  method LaterGroup(tier: Tier, k: nat, L: seq<Book>, R: seq<Book>, matchedL: set<nat>, matchedR: set<nat>)
    returns (g: ComparisonResultGroup, newL: set<nat>, newR: set<nat>)
    requires k < |GroupLabels|
    ensures fresh(g)
    ensures Labelled(g, k, Later(Test(tier, L, R), |R|, matchedL, matchedR, |L|))
    ensures newL == matchedL + Lefts(g.items) && newR == matchedR + Rights(g.items)
  {
    g := NewGroup(k);
    TestDecides(tier, L, R);
    newL, newR := MatchTier(tier, L, R, Test(tier, L, R), g, matchedL, matchedR);
  }

  /** The left books no tier matched, ordered by title, in a new group. */
  method LeftOnlyGroup(L: seq<Book>, matched: set<nat>, titleLe: (string, string) -> bool) returns (g: ComparisonResultGroup)
    ensures fresh(g)
    ensures Labelled(g, 4, LeftItems(SortBy(Unmatched(|L|, matched), TitleOrder(L, titleLe))))
  {
    g := NewGroup(4);
    AddLefts(g, SortBy(Unmatched(|L|, matched), TitleOrder(L, titleLe)));
  }

  /** The right books no tier matched, ordered by title, in a new group. */
  method RightOnlyGroup(R: seq<Book>, matched: set<nat>, titleLe: (string, string) -> bool) returns (g: ComparisonResultGroup)
    ensures fresh(g)
    ensures Labelled(g, 5, RightItems(SortBy(Unmatched(|R|, matched), TitleOrder(R, titleLe))))
  {
    g := NewGroup(5);
    AddRights(g, SortBy(Unmatched(|R|, matched), TitleOrder(R, titleLe)));
  }

  /** The body of the comparison: six new groups, filled tier by tier and
      then with the books no tier matched, ordered by title. */
  method FillGroups(L: seq<Book>, R: seq<Book>, titleLe: (string, string) -> bool) returns (gs: seq<ComparisonResultGroup>)
    ensures |gs| == 6
    ensures fresh(gs[0]) && fresh(gs[1]) && fresh(gs[2]) && fresh(gs[3]) && fresh(gs[4]) && fresh(gs[5])
    ensures Labels(gs) == GroupLabels && Report(gs) == Compare(L, R, titleLe)
  {
    var exactMatches, l1, r1 := ExactGroup(L, R);
    var titleMatches, l2, r2 := LaterGroup(TitleMatch, 1, L, R, l1, r1);
    var authorMatches, l3, r3 := LaterGroup(AuthorMatch, 2, L, R, l2, r2);
    var similarTitles, l4, r4 := LaterGroup(SimilarTitle, 3, L, R, l3, r3);
    var leftOnly := LeftOnlyGroup(L, l4, titleLe);
    var rightOnly := RightOnlyGroup(R, r4, titleLe);
    gs := [exactMatches, titleMatches, authorMatches, similarTitles, leftOnly, rightOnly];
  }

  /** The directory comparison page: the books of both directories, the
      result groups and the published counts. */
  class DirectoryCompareViewModel {
    var leftDirectoryBooks: seq<Book>
    var rightDirectoryBooks: seq<Book>
    var comparisonResults: seq<ComparisonResultGroup>
    var isComparing: bool
    var exactMatchCount: int
    var titleMatchCount: int
    var authorMatchCount: int
    var similarTitleCount: int
    var leftTotalCount: int
    var rightTotalCount: int

    /** Nothing imported, nothing compared. */
    constructor ()
      ensures Cleared() && !isComparing
    {
      leftDirectoryBooks, rightDirectoryBooks, comparisonResults := [], [], [];
      isComparing := false;
      exactMatchCount, titleMatchCount, authorMatchCount, similarTitleCount := 0, 0, 0, 0;
      leftTotalCount, rightTotalCount := 0, 0;
    }

    /** The state of a page with nothing imported and nothing compared. */
    predicate Cleared()
      reads this
    {
      && leftDirectoryBooks == [] && rightDirectoryBooks == [] && comparisonResults == []
      && exactMatchCount == 0 && titleMatchCount == 0 && authorMatchCount == 0 && similarTitleCount == 0
      && leftTotalCount == 0 && rightTotalCount == 0
    }

    /** The page shows the outcome `o`: six groups labelled as GroupLabels
        holding its six lists, and each pair count the size of its group. */
    ghost predicate Published(o: Outcome)
      reads this, comparisonResults
    {
      && |comparisonResults| == 6
      && Labels(comparisonResults) == GroupLabels
      && Report(comparisonResults) == o
      && exactMatchCount == |o.exact| && titleMatchCount == |o.title|
      && authorMatchCount == |o.author| && similarTitleCount == |o.similar|
    }

    /** The end of the comparison: the groups are added in order, the four
        pair counts are read off them, and the comparison flag goes down. */
    method Publish(gs: seq<ComparisonResultGroup>, ghost o: Outcome)
      requires |gs| == 6 && Labels(gs) == GroupLabels && Report(gs) == o
      modifies this
      ensures comparisonResults == gs && Published(o) && !isComparing
      ensures leftDirectoryBooks == old(leftDirectoryBooks) && rightDirectoryBooks == old(rightDirectoryBooks)
      ensures leftTotalCount == old(leftTotalCount) && rightTotalCount == old(rightTotalCount)
    {
      var exact, title, author, similar := gs[0].Count(), gs[1].Count(), gs[2].Count(), gs[3].Count();
      comparisonResults := gs;
      exactMatchCount, titleMatchCount, authorMatchCount, similarTitleCount := exact, title, author, similar;
      isComparing := false;
    }

    /** CompareDirectoriesAsync. With either side empty it does nothing
        (the message box aside) and reports that; otherwise it publishes six
        new groups holding what `Compare` describes, with the four pair
        counts, and ends with the comparison flag down. The books and the
        totals are not touched. */
    method CompareDirectories(titleLe: (string, string) -> bool) returns (compared: bool)
      modifies this
      ensures compared <==> old(leftDirectoryBooks) != [] && old(rightDirectoryBooks) != []
      ensures !compared ==> unchanged(this)
      ensures leftDirectoryBooks == old(leftDirectoryBooks) && rightDirectoryBooks == old(rightDirectoryBooks)
      ensures leftTotalCount == old(leftTotalCount) && rightTotalCount == old(rightTotalCount)
      ensures compared ==>
                && !isComparing
                && Published(Compare(leftDirectoryBooks, rightDirectoryBooks, titleLe))
                && fresh(comparisonResults[0]) && fresh(comparisonResults[1]) && fresh(comparisonResults[2])
                && fresh(comparisonResults[3]) && fresh(comparisonResults[4]) && fresh(comparisonResults[5])
    {
      if |leftDirectoryBooks| == 0 || |rightDirectoryBooks| == 0 {
        return false;
      }
      isComparing := true;
      comparisonResults := [];
      var gs := FillGroups(leftDirectoryBooks, rightDirectoryBooks, titleLe);
      Publish(gs, Compare(leftDirectoryBooks, rightDirectoryBooks, titleLe));
      compared := true;
    }

    /** ClearComparison: back to the state of a new page. */
    method ClearComparison()
      modifies this
      ensures Cleared() && isComparing == old(isComparing)
    {
      leftDirectoryBooks, rightDirectoryBooks, comparisonResults := [], [], [];
      exactMatchCount, titleMatchCount, authorMatchCount, similarTitleCount := 0, 0, 0, 0;
      leftTotalCount, rightTotalCount := 0, 0;
    }
  }
}
