/** ViewModels/BookViewModel.cs: the list entry of one book. It copies the
    record's editable properties when built, shows the format tags without
    their prefix, writes edits back into the record, and toggles the
    favourite flag through the book repository. */
module BookView {
  import opened Wrappers
  import opened Text
  import opened Records
  import opened BookService
  import BookImport

  /** The title shown for a record without one. */
  const NoTitle: string := "(无标题)"

  /** The names of the format tags, in tag order, each without its prefix;
      every other tag is passed over. */
  function FormatNames(tags: seq<Tag>): (r: seq<string>)
    ensures |r| <= |tags|
    ensures forall n :: n in r ==> exists t :: t in tags && t.name == FormatTagPrefix + n
  {
    if tags == [] then []
    else
      var rest := FormatNames(tags[..|tags| - 1]);
      var name := tags[|tags| - 1].name;
      assert forall t :: t in tags[..|tags| - 1] ==> t in tags;
      if StartsWith(name, FormatTagPrefix) then
        assert name == FormatTagPrefix + name[|FormatTagPrefix|..];
        rest + [name[|FormatTagPrefix|..]]
      else rest
  }

  /** One tag contributes its name without the prefix when it is a format
      tag, and nothing otherwise. */
  lemma FormatNamesOne(t: Tag)
    ensures FormatNames([t]) ==
              if StartsWith(t.name, FormatTagPrefix) then [t.name[|FormatTagPrefix|..]] else []
  {
    assert [t][..0] == [];
  }

  /** Scanning a list in two pieces gives the names of each piece, in
      order. */
  lemma {:induction false} FormatNamesAppend(a: seq<Tag>, b: seq<Tag>)
    ensures FormatNames(a + b) == FormatNames(a) + FormatNames(b)
    decreases |b|
  {
    if b != [] {
      assert (a + b)[..|a + b| - 1] == a + b[..|b| - 1];
      FormatNamesAppend(a, b[..|b| - 1]);
    } else {
      assert a + b == a;
    }
  }

  /** A format tag the importer builds for an extension gives back that
      extension without its leading dots. */
  lemma FormatTagRoundTrip(extension: string)
    ensures FormatNames([FormatTag(extension)]) == [TrimStartChar(extension, '.')]
  {
    var name := FormatTag(extension).name;
    assert StartsWith(name, FormatTagPrefix);
    assert name[|FormatTagPrefix|..] == TrimStartChar(extension, '.');
  }

  /** An imported record shows exactly one format: its extension without
      the dot; the incompleteness marker is not a format tag. */
  lemma ImportedFormats(path: string, now: int)
    ensures FormatNames(BookImport.ImportedRecord(path, now).tags) == [TrimStartChar(GetExtension(path), '.')]
  {
    var e := GetExtension(path);
    BookImport.ImportedRecordShape(path, now);
    FormatTagRoundTrip(e);
    assert !StartsWith(IncompleteTagName, FormatTagPrefix) by {
      assert IncompleteTagName[0] != FormatTagPrefix[0];
    }
    assert FormatNames([Tag(0, IncompleteTagName)]) == [];
    FormatNamesAppend([FormatTag(e)], [Tag(0, IncompleteTagName)]);
  }

  /** string.Join(", ", names) of the tag names. */
  function TagNames(tags: seq<Tag>): (r: seq<string>)
    ensures |r| == |tags| && forall i :: 0 <= i < |tags| ==> r[i] == tags[i].name
  {
    if tags == [] then [] else TagNames(tags[..|tags| - 1]) + [tags[|tags| - 1].name]
  }

  class BookViewModel {
    /** The record the entry stands for. */
    var book: Book
    var title: Option<string>
    var author: Option<string>
    var publisher: Option<string>
    var description: Option<string>
    var filePath: Option<string>
    var addedDate: Option<int>
    var lastOpenedDate: Option<int>
    var isFavorite: bool
    var fileExtensions: seq<string>
    var formatTags: seq<string>

    /** The editable properties hold what the record holds. */
    ghost predicate InSync()
      reads this
    {
      && title == Some(book.title) && author == book.author && description == book.description
      && filePath == Some(book.filePath) && addedDate == Some(book.importDate)
      && lastOpenedDate == book.lastOpenedDate
    }

    /** Copies the record's properties and its extension list, and keeps
        the names of its format tags without their prefix. */
    constructor (b: Book)
      ensures book == b && InSync() && publisher == b.publisher && isFavorite == b.isFavorite
      ensures fileExtensions == b.fileExtensions
      ensures formatTags == FormatNames(b.tags)
    {
      book := b;
      title := Some(b.title);
      author := b.author;
      publisher := b.publisher;
      description := b.description;
      filePath := Some(b.filePath);
      addedDate := Some(b.importDate);
      lastOpenedDate := b.lastOpenedDate;
      isFavorite := b.isFavorite;
      fileExtensions := b.fileExtensions;
      var names: seq<string> := [];
      for i := 0 to |b.tags|
        invariant names == FormatNames(b.tags[..i])
      {
        assert b.tags[..i + 1][..i] == b.tags[..i];
        var name := b.tags[i].name;
        if StartsWith(name, FormatTagPrefix) {
          names := names + [name[|FormatTagPrefix|..]];
        }
      }
      assert b.tags[..|b.tags|] == b.tags;
      formatTags := names;
    }

    /** The title, or the placeholder when it is null or empty; never
        empty itself. */
    function DisplayTitle(): (r: string)
      reads this
      ensures r != []
      ensures title.Some? && title.value != [] ==> r == title.value
      ensures title.None? || title.value == [] ==> r == NoTitle
    {
      if title.None? || title.value == [] then NoTitle else title.value
    }

    /** The record's tag names joined with ", ": each name in tag order,
        with ", " between neighbours. */
    function TagsDisplay(): (r: string)
      reads this
      ensures IsJoin(r, TagNames(book.tags), ", ")
      ensures book.tags != [] ==>
                |r| == TotalLength(TagNames(book.tags)) + 2 * (|book.tags| - 1)
      ensures book.tags == [] ==> r == []
    {
      var names := TagNames(book.tags);
      JoinParts(names, ", ");
      if names == [] then []
      else
        JoinLength(names, ", ");
        Join(names, ", ")
    }

    /** The format names joined with ", ", or the empty string when there
        are none. */
    function FormatTagsDisplay(): (r: string)
      reads this
      ensures IsJoin(r, formatTags, ", ")
      ensures formatTags == [] ==> r == []
      ensures formatTags != [] ==> |r| == TotalLength(formatTags) + 2 * (|formatTags| - 1)
      ensures |formatTags| == 1 ==> r == formatTags[0]
    {
      JoinParts(formatTags, ", ");
      if |formatTags| > 0 then
        JoinLength(formatTags, ", ");
        Join(formatTags, ", ")
      else []
    }

    /** Writes the edited title, author, description, path and last-open
        date back into the record, and the added date or else `now` as its
        import date; publisher and favourite flag are not written. */
    method UpdateModel(now: int)
      requires title.Some? && filePath.Some?
      modifies this
      ensures title == old(title) && author == old(author) && publisher == old(publisher)
      ensures description == old(description) && filePath == old(filePath) && addedDate == old(addedDate)
      ensures lastOpenedDate == old(lastOpenedDate) && isFavorite == old(isFavorite)
      ensures fileExtensions == old(fileExtensions) && formatTags == old(formatTags)
      ensures book == old(book).(title := title.value, author := author, description := description,
                                 filePath := filePath.value, importDate := addedDate.GetOr(now),
                                 lastOpenedDate := lastOpenedDate)
      ensures old(InSync()) ==> book == old(book)
      ensures addedDate.Some? ==> InSync()
    {
      var b := book.(title := title.value, author := author, description := description,
                     filePath := filePath.value, importDate := addedDate.GetOr(now),
                     lastOpenedDate := lastOpenedDate);
      book := b;
    }

    /** ToggleFavoriteAsync. The flag flips in the entry and in the record,
        and the record is saved when a repository is available. When the
        save throws (`saveFails`) the store is untouched and the entry's
        flag flips back, and the record takes the entry's flag again. A save
        that finds no row is not an error and is not undone. Either way the
        record and the entry end up agreeing. */
    method ToggleFavorite(store: BookStore?, saveFails: bool)
      requires store != null ==> store.Valid()
      modifies this, store
      ensures book.isFavorite == isFavorite
      ensures store != null && saveFails ==>
                && isFavorite == old(isFavorite)
                && book == old(book).(isFavorite := old(isFavorite))
                && store.rows == old(store.rows)
      ensures store == null || !saveFails ==>
                && isFavorite == !old(isFavorite)
                && book == old(book).(isFavorite := !old(isFavorite))
      ensures store != null && !saveFails ==>
                && store.Valid()
                && store.rows == match IndexOfId(old(store.rows), book.id)
                                 case None => old(store.rows)
                                 case Some(i) => old(store.rows)[i := WithValuesOf(old(store.rows)[i], book)]
      ensures store != null ==> store.nextId == old(store.nextId)
      ensures title == old(title) && author == old(author) && publisher == old(publisher)
      ensures description == old(description) && filePath == old(filePath) && addedDate == old(addedDate)
      ensures lastOpenedDate == old(lastOpenedDate)
      ensures fileExtensions == old(fileExtensions) && formatTags == old(formatTags)
    {
      var flag := !isFavorite;
      isFavorite := flag;
      var b := book.(isFavorite := flag);
      book := b;
      if store != null {
        if saveFails {
          isFavorite := !flag;
          book := b.(isFavorite := !flag);
        } else {
          var _ := store.UpdateBook(Some(b));
        }
      }
    }
  }
}
