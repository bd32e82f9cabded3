/** ViewModels/MainWindowViewModel.cs: the book list of the main window.
    Loading picks the records of the current view, groups them by
    lower-cased title in first-seen order and shows one entry per group,
    the first record of the group with the other records' extensions and
    tags added to it. Also the add-to-category rule and the state change
    when a book is opened. */
module MainWindow {
  import opened Wrappers
  import opened Text
  import opened Records
  import opened Sorting
  import opened Subsequences
  import opened BookService
  import opened CategoryService

  // ---------------------------------------------------------------------------
  // View selection
  // ---------------------------------------------------------------------------

  /** The view the window starts in. */
  const AllBooksView: string := "AllBooks"

  /** The view name the open-book rule tests for. */
  const NewBooksTitle: string := "新加入的书籍"

  /** LINQ `Where`: the records that pass, in their order. */
  function Where(bs: seq<Book>, keep: Book -> bool): (r: seq<Book>)
    ensures forall b :: b in r <==> b in bs && keep(b)
    ensures IsSubsequence(r, bs)
  {
    if bs == [] then []
    else
      var init := bs[..|bs| - 1];
      var last := bs[|bs| - 1];
      var rest := Where(init, keep);
      assert init + [last] == bs;
      Extend(rest, init, last);
      if keep(last) then rest + [last] else rest
  }

  predicate IsNewBook(b: Book) { b.isNew }
  predicate IsFavoriteBook(b: Book) { b.isFavorite }
  predicate IsIncompleteBook(b: Book) { b.isInfoIncomplete }
  predicate WasOpened(b: Book) { b.lastOpenedDate.Some? }

  /** OrderByDescending(b => b.LastOpenedDate) on records that all have
      the date: the newer may come first. */
  function NewerFirst(a: Book, b: Book): bool {
    a.lastOpenedDate.GetOr(0) >= b.lastOpenedDate.GetOr(0)
  }

  /** The records of a view, from the whole table `all` and the category
      table: the four named views filter, a view naming a category Id shows
      that category's records (all records when there is no such category),
      and every other name shows all records. */
  function ViewSelection(view: string, all: seq<Book>, categories: map<int, Category>): (r: seq<Book>)
    ensures view == AllBooksView ==> r == all
    ensures view == "NewBooks" ==> forall b :: b in r <==> b in all && b.isNew
    ensures view == "Favorites" ==> forall b :: b in r <==> b in all && b.isFavorite
    ensures view == "IncompleteInfo" ==> forall b :: b in r <==> b in all && b.isInfoIncomplete
    ensures view == "RecentBooks" ==>
              && Sorted(r, NewerFirst)
              && multiset(r) == multiset(Where(all, WasOpened))
  {
    match view
    case "NewBooks" => Where(all, IsNewBook)
    case "Favorites" => Where(all, IsFavoriteBook)
    case "RecentBooks" =>
      var read := Where(all, WasOpened);
      SortByOrdered(read, NewerFirst);
      SortBy(read, NewerFirst)
    case "IncompleteInfo" => Where(all, IsIncompleteBook)
    case "AllBooks" => all
    case _ =>
      match TryParseInt(view)
      case Some(id) => if id in categories then RowsOf(categories[id].bookIds, all) else all
      case None => all
  }

  /** A category's view, named by its Id written out, shows exactly the
      current rows of that category's books. */
  lemma CategoryViewShowsItsBooks(id: int, all: seq<Book>, categories: map<int, Category>)
    requires Int32Min <= id <= Int32Max
    ensures ViewSelection(IntToString(id), all, categories) ==
              if id in categories then RowsOf(categories[id].bookIds, all) else all
  {
    IntToStringParses(id);
    var s := IntToString(id);
    assert s[0] == '-' || IsDigit(s[0]);
    assert s != "NewBooks" && s != "Favorites" && s != "RecentBooks" && s != "IncompleteInfo" && s != "AllBooks" by {
      assert "NewBooks"[0] == 'N' && "Favorites"[0] == 'F' && "RecentBooks"[0] == 'R';
      assert "IncompleteInfo"[0] == 'I' && "AllBooks"[0] == 'A';
    }
  }

  /** A category's view follows the Books table: once a row of one of its
      books is replaced by one with the same Id (an edit, a toggled
      favourite, an opened book), the view shows the new record and no
      longer the old one. */
  lemma CategoryViewSeesUpdates(id: int, rows: seq<Book>, categories: map<int, Category>, i: nat, b: Book)
    requires Int32Min <= id <= Int32Max && id in categories
    requires IdsIncreasing(rows) && i < |rows| && b.id == rows[i].id && b.id in categories[id].bookIds
    ensures b in ViewSelection(IntToString(id), rows[i := b], categories)
    ensures rows[i] != b ==> rows[i] !in ViewSelection(IntToString(id), rows[i := b], categories)
  {
    CategoryViewShowsItsBooks(id, rows[i := b], categories);
    RowsOfCurrent(categories[id].bookIds, rows, i, b);
  }

  /** The view name the open-book rule waits for is not one of the named
      views and is not a number, so that view shows all records. */
  lemma NewBooksTitleShowsAll(all: seq<Book>, categories: map<int, Category>)
    ensures ViewSelection(NewBooksTitle, all, categories) == all
  {
    var s := NewBooksTitle;
    assert SkipLeadingWhite(s) == s;
    assert SkipTrailingWhite(s) == s;
    assert !IsDigit(s[0]) && s[0] != '-' && s[0] != '+';
    assert TryParseInt(s).None?;
  }

  // ---------------------------------------------------------------------------
  // Grouping by title
  // ---------------------------------------------------------------------------

  /** The grouping key: the lower-cased title. */
  function Key(b: Book): string {
    Lower(b.title)
  }

  ghost predicate Distinct<T>(s: seq<T>) {
    forall i, j :: 0 <= i < j < |s| ==> s[i] != s[j]
  }

  /** The keys of the records, each once, in the order they first occur:
      the iteration order of the grouping dictionary. */
  function FirstSeenKeys(bs: seq<Book>): (r: seq<string>)
    ensures Distinct(r)
    ensures forall k :: k in r <==> exists b :: b in bs && Key(b) == k
  {
    if bs == [] then []
    else
      var init := bs[..|bs| - 1];
      var last := bs[|bs| - 1];
      assert init + [last] == bs;
      var r := FirstSeenKeys(init);
      if Key(last) in r then r else r + [Key(last)]
  }

  /** The group of a key: the records with that key, in their order. */
  function WithKey(bs: seq<Book>, k: string): (r: seq<Book>)
    ensures forall b :: b in r <==> b in bs && Key(b) == k
    ensures IsSubsequence(r, bs)
    ensures |r| <= |bs|
  {
    if bs == [] then []
    else
      var init := bs[..|bs| - 1];
      var last := bs[|bs| - 1];
      var rest := WithKey(init, k);
      assert init + [last] == bs;
      Extend(rest, init, last);
      if Key(last) == k then rest + [last] else rest
  }

  /** A key no record has has an empty group. */
  lemma {:induction false} WithKeyNone(bs: seq<Book>, k: string)
    requires forall m :: 0 <= m < |bs| ==> Key(bs[m]) != k
    ensures WithKey(bs, k) == []
  {
    if bs != [] {
      WithKeyNone(bs[..|bs| - 1], k);
    }
  }

  /** A group starts with the first record of its key in input order: the
      record the merge keeps. */
  lemma {:induction false} WithKeyFirst(bs: seq<Book>, k: string, i: nat)
    requires i < |bs| && Key(bs[i]) == k
    requires forall m :: 0 <= m < i ==> Key(bs[m]) != k
    ensures WithKey(bs, k) != [] && WithKey(bs, k)[0] == bs[i]
  {
    var n := |bs| - 1;
    var init := bs[..n];
    if i == n {
      WithKeyNone(init, k);
    } else {
      WithKeyFirst(init, k, i);
    }
  }

  // ---------------------------------------------------------------------------
  // Merging a group
  // ---------------------------------------------------------------------------

  /** Appends each extension of `more` that the list does not hold yet. */
  function AddExtensions(exts: seq<string>, more: seq<string>): (r: seq<string>)
    ensures |exts| <= |r| && r[..|exts|] == exts
    ensures forall x :: x in r <==> x in exts || x in more
  {
    if more == [] then exts
    else
      var init := more[..|more| - 1];
      var x := more[|more| - 1];
      assert init + [x] == more;
      var r := AddExtensions(exts, init);
      if x in r then r else r + [x]
  }

  predicate HasTagNamed(tags: seq<Tag>, name: string) {
    exists t :: t in tags && t.name == name
  }

  /** Appends each tag of `more` whose name no tag of the list has yet. */
  function AddTags(tags: seq<Tag>, more: seq<Tag>): (r: seq<Tag>)
    ensures |tags| <= |r| && r[..|tags|] == tags
    ensures forall t :: t in r ==> t in tags || t in more
    ensures forall t :: t in more ==> HasTagNamed(r, t.name)
  {
    if more == [] then tags
    else
      var init := more[..|more| - 1];
      var t := more[|more| - 1];
      assert init + [t] == more;
      var r := AddTags(tags, init);
      assert forall u :: u in init ==> HasTagNamed(r + [t], u.name) by {
        forall u | u in init ensures HasTagNamed(r + [t], u.name) {
          var w :| w in r && w.name == u.name;
          assert w in r + [t];
        }
      }
      assert t in r + [t];
      if HasTagNamed(r, t.name) then r else r + [t]
  }

  /** Every extension of the records, record by record. */
  function AllExtensions(bs: seq<Book>): seq<string> {
    if bs == [] then [] else AllExtensions(bs[..|bs| - 1]) + bs[|bs| - 1].fileExtensions
  }

  /** Every tag of the records, record by record. */
  function AllTags(bs: seq<Book>): seq<Tag> {
    if bs == [] then [] else AllTags(bs[..|bs| - 1]) + bs[|bs| - 1].tags
  }

  /** The primary record with the extensions and tags of the others added:
      its own lists come first and keep their order, every extension of the
      others is there, every tag name of the others is there, and nothing
      else changes. */
  function MergeInto(primary: Book, others: seq<Book>): (r: Book)
    ensures r.(fileExtensions := primary.fileExtensions, tags := primary.tags) == primary
    ensures |primary.fileExtensions| <= |r.fileExtensions| && r.fileExtensions[..|primary.fileExtensions|] == primary.fileExtensions
    ensures |primary.tags| <= |r.tags| && r.tags[..|primary.tags|] == primary.tags
    ensures forall x :: x in r.fileExtensions <==> x in primary.fileExtensions || x in AllExtensions(others)
    ensures forall t :: t in AllTags(others) ==> HasTagNamed(r.tags, t.name)
  {
    primary.(fileExtensions := AddExtensions(primary.fileExtensions, AllExtensions(others)),
             tags := AddTags(primary.tags, AllTags(others)))
  }

  /** Adding extensions already present adds nothing. */
  lemma {:induction false} AddExtensionsPresent(exts: seq<string>, more: seq<string>)
    requires forall x :: x in more ==> x in exts
    ensures AddExtensions(exts, more) == exts
  {
    if more != [] {
      var init := more[..|more| - 1];
      assert forall x :: x in init ==> x in more;
      AddExtensionsPresent(exts, init);
    }
  }

  /** Adding tags whose names are already present adds nothing. */
  lemma {:induction false} AddTagsPresent(tags: seq<Tag>, more: seq<Tag>)
    requires forall t :: t in more ==> HasTagNamed(tags, t.name)
    ensures AddTags(tags, more) == tags
  {
    if more != [] {
      var init := more[..|more| - 1];
      assert forall t :: t in init ==> t in more;
      AddTagsPresent(tags, init);
    }
  }

  /** A list without duplicates keeps none after extensions are added. */
  lemma {:induction false} AddExtensionsDistinct(exts: seq<string>, more: seq<string>)
    requires Distinct(exts)
    ensures Distinct(AddExtensions(exts, more))
  {
    if more != [] {
      AddExtensionsDistinct(exts, more[..|more| - 1]);
    }
  }

  /** Merging the same records into an already merged record changes
      nothing: the merge is idempotent. */
  lemma MergeIdempotent(primary: Book, others: seq<Book>)
    ensures MergeInto(MergeInto(primary, others), others) == MergeInto(primary, others)
  {
    var m := MergeInto(primary, others);
    AddExtensionsPresent(m.fileExtensions, AllExtensions(others));
    AddTagsPresent(m.tags, AllTags(others));
  }

  /** The entry of a group: its first record, with the others merged in; a
      group of one shows its record unchanged. */
  function Merged(group: seq<Book>): (r: Book)
    requires group != []
    ensures |group| == 1 ==> r == group[0]
    ensures Key(r) == Key(group[0])
  {
    MergeInto(group[0], group[1..])
  }

  /** The list shown for the selected records: one entry per key, in
      first-seen order. */
  function Display(bs: seq<Book>): (r: seq<Book>)
    ensures |r| == |FirstSeenKeys(bs)| <= |bs|
    ensures forall i :: 0 <= i < |r| ==> Key(r[i]) == FirstSeenKeys(bs)[i]
    ensures forall i, j :: 0 <= i < j < |r| ==> Key(r[i]) != Key(r[j])
  {
    var keys := FirstSeenKeys(bs);
    KeysAtMost(bs);
    seq(|keys|, i requires 0 <= i < |keys| => GroupEntry(bs, keys[i]))
  }

  /** The entry for key `k`, a key of the records. */
  function GroupEntry(bs: seq<Book>, k: string): (r: Book)
    requires k in FirstSeenKeys(bs)
    ensures Key(r) == k
  {
    var b :| b in bs && Key(b) == k;
    var g := WithKey(bs, k);
    assert b in g;
    Merged(g)
  }

  lemma {:induction false} KeysAtMost(bs: seq<Book>)
    ensures |FirstSeenKeys(bs)| <= |bs|
  {
    if bs != [] {
      KeysAtMost(bs[..|bs| - 1]);
    }
  }
  /** Records whose keys differ pairwise. */
  ghost predicate KeysDistinct(s: seq<Book>) {
    forall i, j :: 0 <= i < j < |s| ==> Key(s[i]) != Key(s[j])
  }

  /** With distinct keys, each record opens a key of its own. */
  lemma {:induction false} DistinctKeysSeen(s: seq<Book>)
    requires KeysDistinct(s)
    ensures |FirstSeenKeys(s)| == |s|
    ensures forall i :: 0 <= i < |s| ==> FirstSeenKeys(s)[i] == Key(s[i])
  {
    if s != [] {
      var init := s[..|s| - 1];
      var last := s[|s| - 1];
      DistinctKeysSeen(init);
    }
  }

  /** With distinct keys, every group holds one record. */
  lemma {:induction false} DistinctKeysSingletons(s: seq<Book>, i: nat)
    requires KeysDistinct(s) && i < |s|
    ensures WithKey(s, Key(s[i])) == [s[i]]
  {
    var init := s[..|s| - 1];
    var last := s[|s| - 1];
    if i < |s| - 1 {
      DistinctKeysSingletons(init, i);
      assert init[i] == s[i];
    } else {
      forall j | 0 <= j < |init| ensures Key(init[j]) != Key(last) {
        assert init[j] == s[j];
      }
      NoKeyNoGroup(init, Key(last));
    }
  }

  lemma {:induction false} NoKeyNoGroup(s: seq<Book>, k: string)
    requires forall j :: 0 <= j < |s| ==> Key(s[j]) != k
    ensures WithKey(s, k) == []
  {
    if s != [] {
      NoKeyNoGroup(s[..|s| - 1], k);
    }
  }

  /** Loading the shown list again shows it unchanged: its keys differ, so
      every group is a single record and stays as it is. */
  lemma DisplayIdempotent(bs: seq<Book>)
    ensures Display(Display(bs)) == Display(bs)
  {
    var out := Display(bs);
    DistinctKeysSeen(out);
    forall i | 0 <= i < |out| ensures Display(out)[i] == out[i] {
      DistinctKeysSingletons(out, i);
    }
  }
  // ---------------------------------------------------------------------------
  // The loops of LoadBooksAsync
  // ---------------------------------------------------------------------------

  /** Taking one more element of `s` after `a` appends that element. */
  lemma PrefixStep<T>(a: seq<T>, s: seq<T>, k: nat)
    requires k < |s|
    ensures a + s[..k + 1] == (a + s[..k]) + [s[k]]
  {
    assert s[..k + 1] == s[..k] + [s[k]];
  }

  /** The first `j` elements followed by element `j` are the first `j + 1`. */
  lemma PrefixExtend<T>(s: seq<T>, j: nat, prefix: seq<T>, x: T)
    requires j < |s| && prefix == s[..j] && x == s[j]
    ensures prefix + [x] == s[..j + 1]
  {
    assert s[..j + 1] == s[..j] + [s[j]];
  }

  /** One more record adds its key at the end unless it was seen. */
  lemma FirstSeenKeysStep(bs: seq<Book>, b: Book)
    ensures FirstSeenKeys(bs + [b]) ==
              if Key(b) in FirstSeenKeys(bs) then FirstSeenKeys(bs) else FirstSeenKeys(bs) + [Key(b)]
  {
    assert (bs + [b])[..|bs|] == bs;
  }

  /** One more record joins the end of its own group and no other. */
  lemma WithKeyStep(bs: seq<Book>, b: Book)
    ensures forall k :: WithKey(bs + [b], k) == WithKey(bs, k) + (if Key(b) == k then [b] else [])
  {
    assert (bs + [b])[..|bs|] == bs;
  }

  lemma AddExtensionsStep(exts: seq<string>, more: seq<string>, x: string)
    ensures AddExtensions(exts, more + [x]) ==
              if x in AddExtensions(exts, more) then AddExtensions(exts, more) else AddExtensions(exts, more) + [x]
  {
    assert (more + [x])[..|more|] == more;
  }

  lemma AddTagsStep(tags: seq<Tag>, more: seq<Tag>, t: Tag)
    ensures AddTags(tags, more + [t]) ==
              if HasTagNamed(AddTags(tags, more), t.name) then AddTags(tags, more) else AddTags(tags, more) + [t]
  {
    assert (more + [t])[..|more|] == more;
  }

  lemma AllListsStep(bs: seq<Book>, b: Book)
    ensures AllExtensions(bs + [b]) == AllExtensions(bs) + b.fileExtensions
    ensures AllTags(bs + [b]) == AllTags(bs) + b.tags
  {
    assert (bs + [b])[..|bs|] == bs;
  }

  /** A dictionary from key to group holds exactly the groups of `bs`. */
  ghost predicate GroupsOf(groups: map<string, seq<Book>>, bs: seq<Book>) {
    && (forall k :: k in groups <==> k in FirstSeenKeys(bs))
    && (forall k :: k in groups ==> groups[k] == WithKey(bs, k) && groups[k] != [])
  }

  /** Files `b` at the end of its key's group, opening the group if need be. */
  function FileUnderKey(groups: map<string, seq<Book>>, b: Book): map<string, seq<Book>> {
    groups[Key(b) := (if Key(b) in groups then groups[Key(b)] else []) + [b]]
  }

  /** Filing one more record under its key keeps the dictionary exact. */
  lemma GroupsStep(groups: map<string, seq<Book>>, bs: seq<Book>, b: Book)
    requires GroupsOf(groups, bs)
    ensures GroupsOf(FileUnderKey(groups, b), bs + [b])
  {
    GroupsStepKeys(groups, bs, b);
    GroupsStepValues(groups, bs, b);
  }

  lemma GroupsStepKeys(groups: map<string, seq<Book>>, bs: seq<Book>, b: Book)
    requires forall k :: k in groups <==> k in FirstSeenKeys(bs)
    ensures forall k :: k in FileUnderKey(groups, b) <==> k in FirstSeenKeys(bs + [b])
  {
    FirstSeenKeysStep(bs, b);
  }

  lemma {:induction false} GroupsStepValues(groups: map<string, seq<Book>>, bs: seq<Book>, b: Book)
    requires GroupsOf(groups, bs)
    ensures forall k :: k in FileUnderKey(groups, b) ==>
              FileUnderKey(groups, b)[k] == WithKey(bs + [b], k) && FileUnderKey(groups, b)[k] != []
  {
    var key := Key(b);
    var next := FileUnderKey(groups, b);
    WithKeyStep(bs, b);
    if key !in groups {
      forall j | 0 <= j < |bs| ensures Key(bs[j]) != key {
        assert bs[j] in bs;
      }
      NoKeyNoGroup(bs, key);
    }
    forall k | k in next ensures next[k] == WithKey(bs + [b], k) && next[k] != [] {
      if k != key {
        assert next[k] == groups[k];
        assert WithKey(bs + [b], k) == WithKey(bs, k) + [];
      }
    }
  }

  /** One turn of the grouping loop, on values. */
  lemma GroupingStep(selected: seq<Book>, i: nat, keys: seq<string>, groups: map<string, seq<Book>>)
    requires i < |selected| && keys == FirstSeenKeys(selected[..i]) && GroupsOf(groups, selected[..i])
    ensures var key := Key(selected[i]);
            && FirstSeenKeys(selected[..i + 1]) == (if key in groups then keys else keys + [key])
            && GroupsOf(FileUnderKey(groups, selected[i]), selected[..i + 1])
  {
    PrefixStep([], selected, i);
    assert [] + selected[..i + 1] == selected[..i + 1] && [] + selected[..i] == selected[..i];
    FirstSeenKeysStep(selected[..i], selected[i]);
    GroupsStep(groups, selected[..i], selected[i]);
  }

  /** The grouping loop: a dictionary from key to the records with that
      key, and its keys in insertion order. */
  method GroupByTitle(selected: seq<Book>) returns (keys: seq<string>, groups: map<string, seq<Book>>)
    ensures keys == FirstSeenKeys(selected)
    ensures GroupsOf(groups, selected)
  {
    keys := [];
    groups := map[];
    for i := 0 to |selected|
      invariant keys == FirstSeenKeys(selected[..i])
      invariant GroupsOf(groups, selected[..i])
    {
      var b := selected[i];
      var key := Key(b);
      GroupingStep(selected, i, keys, groups);
      if key !in groups {
        keys := keys + [key];
      }
      groups := groups[key := (if key in groups then groups[key] else []) + [b]];
    }
    assert selected[..|selected|] == selected;
  }

  /** The merge loop of a group of several records: for each later record,
      its extensions the primary lacks, then its tags whose name the
      primary lacks, are appended to the primary's lists. */
  method MergeGroup(primary: Book, others: seq<Book>) returns (merged: Book)
    ensures merged == MergeInto(primary, others)
  {
    var exts := primary.fileExtensions;
    var tags := primary.tags;
    for j := 0 to |others|
      invariant exts == AddExtensions(primary.fileExtensions, AllExtensions(others[..j]))
      invariant tags == AddTags(primary.tags, AllTags(others[..j]))
    {
      var b := others[j];
      PrefixStep([], others, j);
      assert [] + others[..j + 1] == others[..j + 1] && [] + others[..j] == others[..j];
      AllListsStep(others[..j], b);
      ghost var doneExts := AllExtensions(others[..j]);
      assert doneExts + b.fileExtensions[..0] == doneExts;
      for k := 0 to |b.fileExtensions|
        invariant exts == AddExtensions(primary.fileExtensions, doneExts + b.fileExtensions[..k])
      {
        var x := b.fileExtensions[k];
        PrefixStep(doneExts, b.fileExtensions, k);
        AddExtensionsStep(primary.fileExtensions, doneExts + b.fileExtensions[..k], x);
        if x !in exts {
          exts := exts + [x];
        }
      }
      assert b.fileExtensions[..|b.fileExtensions|] == b.fileExtensions;
      ghost var doneTags := AllTags(others[..j]);
      assert doneTags + b.tags[..0] == doneTags;
      for k := 0 to |b.tags|
        invariant tags == AddTags(primary.tags, doneTags + b.tags[..k])
      {
        var t := b.tags[k];
        PrefixStep(doneTags, b.tags, k);
        AddTagsStep(primary.tags, doneTags + b.tags[..k], t);
        if !HasTagNamed(tags, t.name) {
          tags := tags + [t];
        }
      }
      assert b.tags[..|b.tags|] == b.tags;
    }
    assert others[..|others|] == others;
    merged := primary.(fileExtensions := exts, tags := tags);
  }

  /** Entry `j` of the list is the merge of the group of the `j`-th key. */
  lemma DisplayAt(bs: seq<Book>, j: nat)
    requires j < |FirstSeenKeys(bs)|
    ensures j < |Display(bs)| && WithKey(bs, FirstSeenKeys(bs)[j]) != []
    ensures Display(bs)[j] == Merged(WithKey(bs, FirstSeenKeys(bs)[j]))
  {
    var k := FirstSeenKeys(bs)[j];
    var b :| b in bs && Key(b) == k;
    assert b in WithKey(bs, k);
  }

  /** The entry of one group: a group of one is shown as it is, and a
      larger group is merged into its first record. */
  method EntryOf(g: seq<Book>) returns (entry: Book)
    requires g != []
    ensures entry == Merged(g)
  {
    if |g| == 1 {
      entry := g[0];
    } else {
      entry := MergeGroup(g[0], g[1..]);
    }
  }

  /** The list-building part of LoadBooksAsync: the records are grouped by
      key, a group of one is shown as it is, and a larger group is merged
      into its first record. */
  method BuildEntries(selected: seq<Book>) returns (shown: seq<Book>)
    ensures shown == Display(selected)
  {
    var keys, groups := GroupByTitle(selected);
    shown := [];
    for j := 0 to |keys|
      invariant shown == Display(selected)[..j]
    {
      EntriesStep(selected, j, keys, groups, shown);
      var entry := EntryOf(groups[keys[j]]);
      shown := shown + [entry];
    }
    assert Display(selected)[..|keys|] == Display(selected);
  }

  /** One turn of the list-building loop, on values. */
  lemma EntriesStep(selected: seq<Book>, j: nat, keys: seq<string>, groups: map<string, seq<Book>>, shown: seq<Book>)
    requires keys == FirstSeenKeys(selected) && GroupsOf(groups, selected)
    requires j < |keys| && shown == Display(selected)[..j]
    ensures keys[j] in groups && groups[keys[j]] != []
    ensures shown + [Merged(groups[keys[j]])] == Display(selected)[..j + 1]
  {
    var entries := Display(selected);
    DisplayAt(selected, j);
    assert keys[j] in groups;
    PrefixExtend(entries, j, shown, Merged(groups[keys[j]]));
  }

  /** Some record of the list has that Id. */
  predicate HasBookId(bs: seq<Book>, id: int) {
    exists b :: b in bs && b.id == id
  }

  // ---------------------------------------------------------------------------
  // The view model
  // ---------------------------------------------------------------------------

  class MainWindowViewModel {
    var bookService: BookStore
    var categoryService: CategoryStore
    /** Books: the records the entries of the list stand for, in order. */
    var books: seq<Book>
    var currentView: string

    ghost predicate Valid()
      reads this, bookService, categoryService
    {
      bookService.Valid() && categoryService.Valid()
    }

    /** Starts in the all-books view and loads it. */
    constructor (bookStore: BookStore, categoryStore: CategoryStore)
      requires bookStore.Valid() && categoryStore.Valid()
      ensures bookService == bookStore && categoryService == categoryStore && Valid()
      ensures currentView == AllBooksView && books == Display(bookStore.rows)
    {
      bookService := bookStore;
      categoryService := categoryStore;
      currentView := AllBooksView;
      books := [];
      new;
      LoadBooks();
    }

    /** LoadBooksAsync: the list becomes one entry per lower-cased title
        among the records of the current view. */
    method LoadBooks()
      requires Valid()
      modifies this
      ensures bookService == old(bookService) && categoryService == old(categoryService)
      ensures currentView == old(currentView)
      ensures books == Display(ViewSelection(currentView, bookService.rows, categoryService.categories))
    {
      var all := bookService.rows;
      var selected: seq<Book>;
      match currentView {
      case "NewBooks" => selected := Where(all, IsNewBook);
      case "Favorites" => selected := Where(all, IsFavoriteBook);
      case "RecentBooks" => selected := SortBy(Where(all, WasOpened), NewerFirst);
      case "IncompleteInfo" => selected := Where(all, IsIncompleteBook);
      case "AllBooks" => selected := all;
      case _ =>
        var id := TryParseInt(currentView);
        var category := if id.Some? then categoryService.CategoryById(id.value) else None;
        selected := if category.Some? then RowsOf(category.value.bookIds, all) else all;
      }
      assert selected == ViewSelection(currentView, all, categoryService.categories);
      books := BuildEntries(selected);
    }

    /** ChangeView: a null or empty name changes nothing; otherwise the
        view becomes that name and is loaded. */
    method ChangeView(viewName: Option<string>)
      requires Valid()
      modifies this
      ensures bookService == old(bookService) && categoryService == old(categoryService)
      ensures viewName.None? || viewName.value == [] ==> currentView == old(currentView) && books == old(books)
      ensures viewName.Some? && viewName.value != [] ==>
                && currentView == viewName.value
                && books == Display(ViewSelection(viewName.value, bookService.rows, categoryService.categories))
    {
      if viewName.None? || viewName.value == [] {
        return;
      }
      currentView := viewName.value;
      LoadBooks();
    }

    /** ChangeCategory: the view becomes the category's Id written out, and
        loading it shows exactly the current rows of that category's books,
        or all records when there is no such category. */
    method ChangeCategory(categoryId: int)
      requires Valid() && Int32Min <= categoryId <= Int32Max
      modifies this
      ensures bookService == old(bookService) && categoryService == old(categoryService)
      ensures currentView == IntToString(categoryId)
      ensures books == Display(if categoryId in categoryService.categories
                               then RowsOf(categoryService.categories[categoryId].bookIds, bookService.rows)
                               else bookService.rows)
    {
      currentView := IntToString(categoryId);
      LoadBooks();
      CategoryViewShowsItsBooks(categoryId, bookService.rows, categoryService.categories);
    }

    /** AddBookToCategoryAsync: with a book and a category that both exist,
        the book is linked to the category unless a loaded record of the
        category has its Id already. The category's links are then
        rewritten from its loaded records followed by the book, which drops
        the links of deleted books; nothing else changes. Once it returns
        with both found the book is linked, so doing it again changes
        nothing. */
    method AddBookToCategory(bookId: Option<int>, categoryId: int) returns (added: bool)
      requires Valid()
      modifies categoryService
      ensures categoryService.Valid()
      ensures categoryService.keys == old(categoryService.keys) && categoryService.nextId == old(categoryService.nextId)
      ensures added <==> && bookId.Some? && bookService.BookById(bookId.value).Some?
                         && categoryId in old(categoryService.categories)
                         && bookId.value !in old(categoryService.categories)[categoryId].bookIds
      ensures !added ==> categoryService.categories == old(categoryService.categories)
      ensures added ==>
                var c := old(categoryService.categories)[categoryId];
                var loaded := RowsOf(c.bookIds, bookService.rows);
                categoryService.categories ==
                  old(categoryService.categories)[categoryId := c.(bookIds := BookIds(loaded) + [bookId.value])]
      ensures bookId.Some? && bookService.BookById(bookId.value).Some? && categoryId in categoryService.categories ==>
                bookId.value in categoryService.categories[categoryId].bookIds
    {
      if bookId.None? {
        return false;
      }
      var book := bookService.BookById(bookId.value);
      var category := categoryService.CategoryById(categoryId);
      if book.None? || category.None? {
        return false;
      }
      var b := book.value;
      var c := category.value;
      var loaded := RowsOf(c.bookIds, bookService.rows);
      assert HasBookId(loaded, b.id) <==> b.id in c.bookIds by {
        if b.id in c.bookIds {
          assert bookService.rows[IndexOfId(bookService.rows, b.id).value] in loaded;
        }
      }
      if !HasBookId(loaded, b.id) {
        var r := categoryService.UpdateCategoryBooks(c.id, loaded + [b]);
        assert r.value.bookIds == BookIds(loaded) + [b.id];
        assert r.value.bookIds[|loaded|] == b.id;
        added := true;
      } else {
        added := false;
      }
    }

    /** OpenBookAsync: the stored record is marked opened now and no longer
        new; in the view named "新加入的书籍" the first entry with its Id
        leaves the list. Nothing happens for a null or unknown book. */
    method OpenBook(bookId: Option<int>, now: int)
      requires Valid()
      modifies this, bookService
      ensures bookService == old(bookService) && categoryService == old(categoryService)
      ensures bookService.Valid() && bookService.nextId == old(bookService.nextId)
      ensures currentView == old(currentView)
      ensures bookId.None? || IndexOfId(old(bookService.rows), bookId.value).None? ==>
                bookService.rows == old(bookService.rows) && books == old(books)
      ensures bookId.Some? && IndexOfId(old(bookService.rows), bookId.value).Some? ==>
                var i := IndexOfId(old(bookService.rows), bookId.value).value;
                && bookService.rows == old(bookService.rows)[i := old(bookService.rows)[i].(lastOpenedDate := Some(now), isNew := false)]
                && books == if currentView != NewBooksTitle then old(books)
                            else match IndexOfId(old(books), bookId.value)
                                 case None => old(books)
                                 case Some(k) => old(books)[..k] + old(books)[k + 1..]
    {
      if bookId.None? {
        return;
      }
      var found := bookService.BookById(bookId.value);
      if found.None? {
        return;
      }
      var b := found.value.(lastOpenedDate := Some(now), isNew := false);
      var _ := bookService.UpdateBook(Some(b));
      if currentView == NewBooksTitle && !b.isNew {
        var at := IndexOfId(books, b.id);
        if at.Some? {
          books := books[..at.value] + books[at.value + 1..];
        }
      }
    }
  }
}
