/** The import pipeline: which files count as books, how a record is built
    from a file path, and the batch loops that store or parse them. The
    clock, the file system's size lookup, the persistence failures and the
    "n2" number formatting are parameters. */
module BookImport {
  import opened Wrappers
  import opened Text
  import opened Records
  import opened BookService
  import opened Subsequences

  /** The importable extensions, compared ignoring case. */
  const SupportedFormats: seq<string> := [".pdf", ".mobi", ".epub", ".txt", ".azw3"]

  // ---------------------------------------------------------------------------
  // Format filter
  // ---------------------------------------------------------------------------

  /** IsSupportedBookFormat: a non-empty path whose extension is one of the
      importable formats, ignoring case. */
  predicate IsSupported(path: string) {
    path != [] && Lower(GetExtension(path)) in SupportedFormats
  }

  /** A path ending in a dot, a non-empty run without dots or separators,
      has exactly that ending as its extension. */
  lemma {:induction false} ExtensionOfSuffix(p: string, e: string)
    requires |e| >= 2 && e[0] == '.'
    requires forall k :: 1 <= k < |e| ==> e[k] != '.' && !IsSeparator(e[k])
    ensures GetExtension(p + e) == e
  {
    NameStartAppend(p, e);
    var name := FileName(p + e);
    assert name == FileName(p) + e;
    LastIndexOfAppend(FileName(p), e, '.');
    assert name[|FileName(p)|..] == e;
  }

  lemma {:induction false} NameStartAppend(p: string, e: string)
    requires forall k :: 0 <= k < |e| ==> !IsSeparator(e[k])
    ensures NameStart(p + e) == NameStart(p)
    decreases |e|
  {
    if e == [] {
      assert p + e == p;
    } else {
      var e' := e[..|e| - 1];
      assert (p + e)[..|p + e| - 1] == p + e';
      NameStartAppend(p, e');
    }
  }

  lemma {:induction false} LastIndexOfAppend(n: string, e: string, c: char)
    requires |e| >= 1 && e[0] == c && forall k :: 1 <= k < |e| ==> e[k] != c
    ensures LastIndexOf(n + e, c) == Some(|n|)
    decreases |e|
  {
    if |e| > 1 {
      var e' := e[..|e| - 1];
      assert (n + e)[..|n + e| - 1] == n + e';
      LastIndexOfAppend(n, e', c);
    }
  }

  /** A path whose last component ends in a dot followed by a non-empty run
      without dots or separators is supported exactly when that ending,
      lower-cased, is an importable extension, whatever precedes it. */
  lemma SupportedBySuffix(p: string, e: string)
    requires |e| >= 2 && e[0] == '.'
    requires forall k :: 1 <= k < |e| ==> e[k] != '.' && !IsSeparator(e[k])
    ensures IsSupported(p + e) <==> Lower(e) in SupportedFormats
  {
    ExtensionOfSuffix(p, e);
  }

  /** Letter case does not matter. */
  lemma UpperCaseSupported(p: string)
    ensures IsSupported(p + ".PDF")
  {
    SupportedBySuffix(p, ".PDF");
    assert Lower(".PDF") == ".pdf";
  }

  /** Only the last extension counts. */
  lemma LastExtensionCounts(p: string)
    ensures !IsSupported(p + ".pdf.bak")
  {
    var q := p + ".pdf";
    SupportedBySuffix(q, ".bak");
    assert ".pdf.bak" == ".pdf" + ".bak";
    SeqAssociative(p, ".pdf", ".bak");
    BakNotAFormat();
  }

  lemma SeqAssociative(a: string, b: string, c: string)
    ensures a + (b + c) == (a + b) + c
  {
  }

  lemma BakNotAFormat()
    ensures Lower(".bak") !in SupportedFormats
  {
    assert Lower(".bak")[1] == 'b';
    assert forall f :: f in SupportedFormats ==> f[1] != 'b';
  }

  /** A trailing dot leaves a path without extension, so unsupported. */
  lemma TrailingDotUnsupported(p: string)
    ensures !IsSupported(p + ".pdf.")
  {
    var n := FileName(p) + ".pdf";
    NameStartAppend(p, ".pdf.");
    assert FileName(p + ".pdf.") == n + ".";
    LastIndexOfAppend(n, ".", '.');
  }

  /** The paths of a batch that pass the format filter, in input order. */
  function SupportedOnly(paths: seq<string>): (r: seq<string>)
    ensures IsSubsequence(r, paths)
  {
    if paths == [] then []
    else
      var n := |paths| - 1;
      assert paths == paths[..n] + [paths[n]];
      var rest := SupportedOnly(paths[..n]);
      Extend(rest, paths[..n], paths[n]);
      if IsSupported(paths[n]) then rest + [paths[n]] else rest
  }

  /** The filter keeps exactly the supported paths. */
  lemma {:induction false} SupportedOnlyMembers(paths: seq<string>)
    ensures forall p :: p in SupportedOnly(paths) <==> p in paths && IsSupported(p)
  {
    if paths != [] {
      var n := |paths| - 1;
      assert paths == paths[..n] + [paths[n]];
      SupportedOnlyMembers(paths[..n]);
    }
  }

  // ---------------------------------------------------------------------------
  // Filename heuristic
  // ---------------------------------------------------------------------------

  /** The role rule: the first piece is the author when it is shorter than
      the second and than 20 characters; otherwise it is the title. Lengths
      are `string.Length`, counted in UTF-16 code units. */
  predicate HasRoles(r: Book, first: string, second: string) {
    if |Utf16(first)| < |Utf16(second)| && |Utf16(first)| < 20 then r.author == Some(first) && r.title == second
    else r.title == first && r.author == Some(second)
  }

  /** `i` is the first hyphen of `fileName` and `r` has the roles its two
      trimmed sides give. */
  predicate SplitAtFirstHyphen(fileName: string, i: int, r: Book) {
    && 0 <= i < |fileName| && fileName[i] == '-' && '-' !in fileName[..i]
    && HasRoles(r, Trim(fileName[..i]), Trim(fileName[i + 1..]))
  }

  /** ParseTitleAndAuthorFromFileName: with a hyphen, the trimmed pieces
      before and after the first one become author and title by the role
      rule; without one the whole, untrimmed name becomes the title and the
      author is kept. No other field changes. */
  function ParseTitleAndAuthor(book: Book, fileName: string): (r: Book)
    ensures r.(title := book.title, author := book.author) == book
    ensures '-' !in fileName ==> r == book.(title := fileName)
    ensures '-' in fileName ==> exists i :: SplitAtFirstHyphen(fileName, i, r)
  {
    match IndexOf(fileName, '-')
    case None => book.(title := fileName)
    case Some(i) =>
      var first, second := Trim(fileName[..i]), Trim(fileName[i + 1..]);
      var r := if |Utf16(first)| < |Utf16(second)| && |Utf16(first)| < 20 then book.(author := Some(first), title := second)
               else book.(title := first, author := Some(second));
      assert SplitAtFirstHyphen(fileName, i, r);
      r
  }

  /** Lengths count UTF-16 code units: a piece of characters outside the
      Basic Multilingual Plane is twice as long as it has characters, so it
      stays the title against a second piece of fewer than twice as many
      characters, even one with more characters than it. */
  lemma WidePieceIsTitle(r: Book, first: string, second: string)
    requires HasRoles(r, first, second)
    requires forall k :: 0 <= k < |first| ==> first[k] as int >= 0x10000
    requires forall k :: 0 <= k < |second| ==> second[k] as int < 0x10000
    requires |second| < 2 * |first|
    ensures r.title == first && r.author == Some(second)
  {
    Utf16Wide(first);
    Utf16Bmp(second);
  }

  // ---------------------------------------------------------------------------
  // File size
  // ---------------------------------------------------------------------------

  /** The size units, indexed by the number of divisions by 1024. */
  const Suffixes: seq<string> := ["B", "KB", "MB", "GB", "TB"]

  /** A size as FormatFileSize renders it: a number and its unit. */
  datatype Size = Size(number: real, unit: string)

  function Pow1024(k: nat): (r: nat)
    ensures r >= 1
  {
    if k == 0 then 1 else 1024 * Pow1024(k - 1)
  }

  /** Math.Round on a non-negative decimal: the nearest integer, and the
      even one of two equally near. */
  function RoundHalfEven(x: real): (r: int)
    requires x >= 0.0
    ensures (r as real) - 0.5 <= x <= (r as real) + 0.5
    ensures x - (r as real) == 0.5 || (r as real) - x == 0.5 ==> r % 2 == 0
  {
    var f := x.Floor;
    var frac := x - f as real;
    if frac < 0.5 then f
    else if frac > 0.5 then f + 1
    else if f % 2 == 0 then f else f + 1
  }

  /** The loop test of FormatFileSize holds exactly above 512: at 512 the
      quotient is one half, which rounds to the even 0. */
  lemma RoundsToUnit(x: real)
    requires x >= 0.0
    ensures RoundHalfEven(x / 1024.0) >= 1 <==> x > 512.0
  {
  }

  /** The number of divisions by 1024 made from `k` on: the first `k' >= k`
      at which the size is at most 512 of that unit. */
  function StepsFrom(bytes: nat, k: nat): (r: nat)
    ensures r >= k
    decreases bytes - 512 * Pow1024(k)
  {
    if bytes > 512 * Pow1024(k) then StepsFrom(bytes, k + 1) else k
  }

  /** How many times FormatFileSize divides a size by 1024. */
  function Steps(bytes: nat): nat {
    StepsFrom(bytes, 0)
  }

  /** The unit chosen is the one in which the size is at most 512 and,
      unless it is bytes, above 512 of the next smaller unit. */
  lemma StepsBounds(bytes: nat)
    ensures bytes <= 512 * Pow1024(Steps(bytes))
    ensures Steps(bytes) > 0 ==> bytes > 512 * Pow1024(Steps(bytes) - 1)
  {
    StepsFromBounds(bytes, 0);
  }

  lemma {:induction false} StepsFromBounds(bytes: nat, k: nat)
    requires k == 0 || bytes > 512 * Pow1024(k - 1)
    ensures bytes <= 512 * Pow1024(StepsFrom(bytes, k))
    ensures StepsFrom(bytes, k) > 0 ==> bytes > 512 * Pow1024(StepsFrom(bytes, k) - 1)
    decreases bytes - 512 * Pow1024(k)
  {
    if bytes > 512 * Pow1024(k) {
      StepsFromBounds(bytes, k + 1);
    }
  }

  /** A size divided `k` times by 1024. */
  function Scaled(bytes: nat, k: nat): real {
    if k == 0 then bytes as real else Scaled(bytes, k - 1) / 1024.0
  }

  lemma {:induction false} ScaledTimesPow(bytes: nat, k: nat)
    ensures Scaled(bytes, k) * Pow1024(k) as real == bytes as real
  {
    if k > 0 {
      ScaledTimesPow(bytes, k - 1);
      var x, p := Scaled(bytes, k - 1), Pow1024(k - 1) as real;
      assert Scaled(bytes, k) * Pow1024(k) as real == (x / 1024.0) * (1024.0 * p);
      assert (x / 1024.0) * (1024.0 * p) == x * p;
    }
  }

  /** The divided number compares with 512 as the size compares with 512
      of its unit. */
  lemma ScaledAbove(bytes: nat, k: nat)
    ensures Scaled(bytes, k) > 512.0 <==> bytes > 512 * Pow1024(k)
  {
    ScaledTimesPow(bytes, k);
    var n, s := Scaled(bytes, k), Pow1024(k) as real;
    assert n * s - 512.0 * s == (n - 512.0) * s;
    if n > 512.0 {
      PositiveProduct(n - 512.0, s);
    } else {
      PositiveProduct(512.0 - n, s);
      assert (512.0 - n) * s == 512.0 * s - n * s;
    }
  }

  lemma PositiveProduct(a: real, b: real)
    requires a >= 0.0 && b > 0.0
    ensures a * b >= 0.0 && (a > 0.0 ==> a * b > 0.0)
  {
  }

  /** The result FormatFileSize formats: the size divided down while it
      exceeds 512, in the unit of that many divisions; past "TB" the suffix
      lookup throws. */
  function SizeOf(bytes: nat): Result<Size> {
    var k := Steps(bytes);
    if k < |Suffixes| then Ok(Size(Scaled(bytes, k), Suffixes[k])) else Err(IndexOutOfRange)
  }

  /** Sizes up to 512 stay in bytes, unrounded; up to 512 KB they are in KB. */
  lemma SmallSizes(bytes: nat)
    ensures bytes <= 512 ==> SizeOf(bytes) == Ok(Size(bytes as real, "B"))
    ensures 512 < bytes <= 512 * 1024 ==> SizeOf(bytes) == Ok(Size(bytes as real / 1024.0, "KB"))
  {
    if 512 < bytes {
      assert Pow1024(1) == 1024;
      assert StepsFrom(bytes, 0) == StepsFrom(bytes, 1);
      if bytes <= 512 * 1024 {
        assert StepsFrom(bytes, 1) == 1;
        assert Scaled(bytes, 1) == bytes as real / 1024.0;
      }
    }
  }

  /** FormatFileSize, without the "n2" rendering of the number. */
  method FormatFileSize(bytes: nat) returns (r: Result<Size>)
    ensures r == SizeOf(bytes)
  {
    var number := bytes as real;
    var counter: nat := 0;
    RoundsToUnit(number);
    ScaledAbove(bytes, counter);
    while RoundHalfEven(number / 1024.0) >= 1
      invariant number >= 0.0 && number == Scaled(bytes, counter)
      invariant StepsFrom(bytes, counter) == Steps(bytes)
      invariant RoundHalfEven(number / 1024.0) >= 1 <==> bytes > 512 * Pow1024(counter)
      decreases Steps(bytes) - counter
    {
      number := number / 1024.0;
      counter := counter + 1;
      RoundsToUnit(number);
      ScaledAbove(bytes, counter);
    }
    if counter >= |Suffixes| {
      return Err(IndexOutOfRange);
    }
    r := Ok(Size(number, Suffixes[counter]));
  }

  /** The description line that reports the size. */
  function SizeLine(size: Size, formatNumber: real -> string): string {
    "文件大小: " + formatNumber(size.number) + " " + size.unit
  }

  /** The size line becomes the description, or is added on a new line
      after a non-empty one. */
  function WithSizeLine(description: Option<string>, line: string): (r: Option<string>)
    ensures r.Some?
    ensures description.None? || description.value == [] ==> r.value == line
    ensures description.Some? && description.value != [] ==> r.value == description.value + "\n" + line
  {
    if description.None? || description.value == [] then Some(line) else Some(description.value + "\n" + line)
  }

  // ---------------------------------------------------------------------------
  // Record construction
  // ---------------------------------------------------------------------------

  /** The incompleteness flag and, when it is set, the tag that marks it. */
  function MarkIncomplete(b: Book): Book {
    var missing := IsMissingInfo(b);
    b.(isInfoIncomplete := missing, tags := b.tags + (if missing then [Tag(0, IncompleteTagName)] else []))
  }

  /** The record CreateBookFromFileAsync builds for a path at time `now`. */
  function ImportedRecord(path: string, now: int): (b: Book)
    ensures b.id == 0
  {
    var extension := GetExtension(path);
    MarkIncomplete(EmptyBook.(
      title := GetFileNameWithoutExtension(path), filePath := path, fileExtensions := [extension],
      importDate := now, isNew := true, tags := [FormatTag(extension)]))
  }

  /** No author or publisher is ever set, so every imported record is
      flagged incomplete and carries the format tag then the marker tag. */
  lemma ImportedRecordShape(path: string, now: int)
    ensures var b := ImportedRecord(path, now);
            && b.id == 0 && b.title == GetFileNameWithoutExtension(path) && b.filePath == path
            && b.fileExtensions == [GetExtension(path)] && b.isNew && b.importDate == now
            && b.isInfoIncomplete && b.author.None? && b.publisher.None?
            && b.tags == [FormatTag(GetExtension(path)), Tag(0, IncompleteTagName)]
  {
  }

  /** CreateBookFromFileAsync. */
  method CreateBookFromFile(path: string, now: int) returns (book: Book)
    ensures book == ImportedRecord(path, now)
  {
    var fileName := GetFileNameWithoutExtension(path);
    var extension := GetExtension(path);
    book := EmptyBook.(title := fileName, filePath := path, fileExtensions := [extension],
                       importDate := now, isNew := true, tags := []);
    book := book.(tags := book.tags + [FormatTag(extension)]);
    var isMissingInfo := IsBlank(book.title) || IsNullOrWhiteSpace(book.author) || IsNullOrWhiteSpace(book.publisher);
    book := book.(isInfoIncomplete := isMissingInfo);
    if isMissingInfo {
      book := book.(tags := book.tags + [Tag(0, IncompleteTagName)]);
    }
  }

  /** The parse path's record before the size is read: named after the
      file by the heuristic, with the lower-cased extension and its tag. */
  function TaggedRecord(path: string, now: int): (b: Book)
    ensures var extension := Lower(GetExtension(path));
            && b.fileExtensions == [extension] && b.tags == [FormatTag(extension)]
            && b.publisher.None? && b.description.None? && b.isNew && b.filePath == path && b.importDate == now
  {
    var fileName := GetFileNameWithoutExtension(path);
    var extension := Lower(GetExtension(path));
    var parsed := ParseTitleAndAuthor(
      EmptyBook.(title := fileName, filePath := path, fileExtensions := [extension], importDate := now, isNew := true, tags := []),
      fileName);
    parsed.(tags := parsed.tags + [FormatTag(extension)])
  }

  /** Without a publisher a record is always marked incomplete. */
  lemma NoPublisherIncomplete(b: Book)
    requires b.publisher.None?
    ensures MarkIncomplete(b) == b.(isInfoIncomplete := true, tags := b.tags + [Tag(0, IncompleteTagName)])
  {
  }

  /** The parse path's finished record once the size is known. */
  function DescribedRecord(path: string, now: int, size: Size, formatNumber: real -> string): (b: Book)
    ensures b.filePath == path
  {
    var tagged := TaggedRecord(path, now);
    MarkIncomplete(tagged.(description := WithSizeLine(tagged.description, SizeLine(size, formatNumber))))
  }

  /** The result of ExtractMetadataFromFileAsync for a path whose file has
      the given length (None when the file cannot be read): it fails exactly
      when the length cannot be read or has no unit. */
  function ExtractedRecord(path: string, now: int, length: Option<nat>, formatNumber: real -> string): (r: Result<Book>)
    ensures r.Ok? <==> length.Some? && SizeOf(length.value).Ok?
    ensures r.Ok? ==> r.value == DescribedRecord(path, now, SizeOf(length.value).value, formatNumber)
  {
    if length.None? then Err(FileNotFound)
    else match SizeOf(length.value)
      case Err(e) => Err(e)
      case Ok(size) => Ok(DescribedRecord(path, now, size, formatNumber))
  }

  /** The parse path lower-cases the extension for both the extension list
      and the format tag, puts the size in the description, and since no
      publisher is ever set, always ends the tags with the incompleteness
      marker. */
  lemma DescribedRecordShape(path: string, now: int, size: Size, formatNumber: real -> string)
    ensures var b := DescribedRecord(path, now, size, formatNumber);
            var extension := Lower(GetExtension(path));
            && b.fileExtensions == [extension]
            && b.tags == [FormatTag(extension), Tag(0, IncompleteTagName)]
            && b.isInfoIncomplete && b.publisher.None? && b.isNew && b.filePath == path
            && b.description == Some(SizeLine(size, formatNumber))
  {
    var tagged := TaggedRecord(path, now);
    var described := tagged.(description := WithSizeLine(tagged.description, SizeLine(size, formatNumber)));
    DescribedMarked(tagged, described);
    assert DescribedRecord(path, now, size, formatNumber) == MarkIncomplete(described);
  }

  /** The record with its size line, before marking, is the tagged record
      with a description; marking it appends the marker tag. */
  lemma DescribedMarked(tagged: Book, described: Book)
    requires tagged.publisher.None? && |tagged.tags| == 1
    requires described == tagged.(description := described.description)
    ensures MarkIncomplete(described).tags == [tagged.tags[0], Tag(0, IncompleteTagName)]
    ensures MarkIncomplete(described) == described.(isInfoIncomplete := true, tags := MarkIncomplete(described).tags)
  {
    NoPublisherIncomplete(described);
  }

  /** ExtractMetadataFromFileAsync. Every format's extractor only applies
      the filename heuristic to the stem, so the format switch collapses to
      one call. */
  method ExtractMetadataFromFile(path: string, now: int, length: Option<nat>, formatNumber: real -> string)
    returns (r: Result<Book>)
    ensures r == ExtractedRecord(path, now, length, formatNumber)
  {
    var fileName := GetFileNameWithoutExtension(path);
    var extension := Lower(GetExtension(path));
    var book := EmptyBook.(title := fileName, filePath := path, fileExtensions := [extension],
                           importDate := now, isNew := true, tags := []);
    book := ParseTitleAndAuthor(book, fileName);
    book := book.(tags := book.tags + [FormatTag(extension)]);
    assert book == TaggedRecord(path, now);
    if length.None? {
      return Err(FileNotFound);
    }
    var size := FormatFileSize(length.value);
    if size.Err? {
      return Err(size.error);
    }
    book := book.(description := WithSizeLine(book.description, SizeLine(size.value, formatNumber)));
    var isMissingInfo := IsBlank(book.title) || IsNullOrWhiteSpace(book.author) || IsNullOrWhiteSpace(book.publisher);
    book := book.(isInfoIncomplete := isMissingInfo);
    if isMissingInfo {
      book := book.(tags := book.tags + [Tag(0, IncompleteTagName)]);
    }
    r := Ok(book);
  }

  // ---------------------------------------------------------------------------
  // Batch loops
  // ---------------------------------------------------------------------------

  /** The lower-cased paths already stored: the snapshot taken before the
      import loop. */
  function KnownPaths(rows: seq<Book>): set<string> {
    set b | b in rows :: Lower(b.filePath)
  }

  /** The supported paths the import loop stores: those not in the snapshot
      whose store call does not fail; `fails(j)` says whether storing the
      j-th supported path throws. */
  function Accepted(valid: seq<string>, known: set<string>, fails: nat -> bool): (r: seq<string>)
    ensures |r| <= |valid|
  {
    if valid == [] then []
    else
      var n := |valid| - 1;
      var rest := Accepted(valid[..n], known, fails);
      if Lower(valid[n]) !in known && !fails(n) then rest + [valid[n]] else rest
  }

  /** Accepted paths are new inputs, kept in input order. */
  lemma {:induction false} AcceptedSound(valid: seq<string>, known: set<string>, fails: nat -> bool)
    ensures var r := Accepted(valid, known, fails);
            && (forall p :: p in r ==> p in valid && Lower(p) !in known)
            && IsSubsequence(r, valid)
  {
    if valid != [] {
      var n := |valid| - 1;
      assert valid == valid[..n] + [valid[n]];
      AcceptedSound(valid[..n], known, fails);
      Extend(Accepted(valid[..n], known, fails), valid[..n], valid[n]);
    }
  }

  /** Whether the import loop stores the j-th supported path: it was not
      known before the batch and its store call does not throw. */
  function StoresAt(valid: seq<string>, known: set<string>, fails: nat -> bool): nat -> bool {
    (j: nat) => j < |valid| && Lower(valid[j]) !in known && !fails(j)
  }

  lemma {:induction false} AcceptedPrefix(valid: seq<string>, known: set<string>, fails: nat -> bool, m: nat)
    requires m <= |valid|
    ensures var r, at := Accepted(valid[..m], known, fails), Positions(m, StoresAt(valid, known, fails));
            |r| == |at| && forall k :: 0 <= k < |r| ==> r[k] == valid[at[k]]
  {
    if m > 0 {
      assert valid[..m][..m - 1] == valid[..m - 1];
      AcceptedPrefix(valid, known, fails, m - 1);
    }
  }

  /** The accepted paths are the inputs at exactly the positions the loop
      stores, in increasing order: every new path whose store succeeds is
      there, once per occurrence, and a failing store drops only its own
      path. */
  lemma AcceptedComplete(valid: seq<string>, known: set<string>, fails: nat -> bool)
    ensures var r, at := Accepted(valid, known, fails), Positions(|valid|, StoresAt(valid, known, fails));
            && |r| == |at| && (forall k :: 0 <= k < |r| ==> r[k] == valid[at[k]])
            && (forall j :: 0 <= j < |valid| && Lower(valid[j]) !in known && !fails(j) ==> valid[j] in r)
  {
    var r, at := Accepted(valid, known, fails), Positions(|valid|, StoresAt(valid, known, fails));
    AcceptedPrefix(valid, known, fails, |valid|);
    assert valid[..|valid|] == valid;
    forall j | 0 <= j < |valid| && Lower(valid[j]) !in known && !fails(j)
      ensures valid[j] in r
    {
      assert StoresAt(valid, known, fails)(j);
      var k :| 0 <= k < |at| && at[k] == j;
      assert r[k] == valid[j];
    }
  }

  /** What is imported comes from supported inputs that were not stored
      before the batch, in input order, and is never more than the
      supported inputs. */
  lemma ImportSound(paths: seq<string>, known: set<string>, fails: nat -> bool)
    ensures var r := Accepted(SupportedOnly(paths), known, fails);
            && (forall p :: p in r ==> p in paths && IsSupported(p) && Lower(p) !in known)
            && IsSubsequence(r, paths)
            && |r| <= |SupportedOnly(paths)|
  {
    SupportedOnlyMembers(paths);
    AcceptedSound(SupportedOnly(paths), known, fails);
    Transitive(Accepted(SupportedOnly(paths), known, fails), SupportedOnly(paths), paths);
  }

  /** The snapshot never grows during the batch, so a new path given twice
      is imported twice. */
  lemma RepeatedPathImportedTwice(p: string, known: set<string>, fails: nat -> bool)
    requires IsSupported(p) && Lower(p) !in known && !fails(0) && !fails(1)
    ensures Accepted(SupportedOnly([p, p]), known, fails) == [p, p]
  {
    var twice := [p, p];
    assert SupportedOnly(twice) == twice by {
      assert twice[..1] == [p] && [p][..0] == [];
      assert SupportedOnly([p]) == [p];
    }
    assert Accepted(twice, known, fails) == twice by {
      assert twice[..1] == [p] && [p][..0] == [];
      assert Accepted([p], known, fails) == [p];
    }
  }

  /** One pass of the import loop for a path that is not yet known: the
      record built for it is stored under the next key and listed last. */
  method StoreNewBook(store: BookStore, filePath: string, now: int, ghost build: (string, int) -> Book) returns (saved: Book)
    requires store.Valid() && BuildsImported(build, now)
    modifies store
    ensures store.Valid()
    ensures saved == build(filePath, old(store.nextId))
    ensures store.nextId == old(store.nextId) + 1
    ensures store.rows == old(store.rows) + [saved]
  {
    var book := CreateBookFromFile(filePath, now);
    var r := store.AddBook(Some(book));
    saved := r.value;
  }

  /** The records `build` makes for `accepted`, in order, the k-th under
      key `startId + k`. */
  function Stamp(accepted: seq<string>, build: (string, int) -> Book, startId: int): (r: seq<Book>)
    ensures |r| == |accepted|
  {
    seq(|accepted|, k requires 0 <= k < |accepted| => build(accepted[k], startId + k))
  }

  /** The record CreateBookFromFileAsync builds for a path, stored under
      the given key. */
  function ImportedAs(path: string, now: int, id: int): (b: Book)
    ensures b.id == id
  {
    ImportedRecord(path, now).(id := id)
  }

  /** The same, as a function value. */
  function Importer(now: int): (string, int) -> Book {
    (p, id) => ImportedAs(p, now, id)
  }

  /** `build` makes the record CreateBookFromFileAsync builds at `now`,
      under the key it is given. */
  ghost predicate BuildsImported(build: (string, int) -> Book, now: int) {
    forall p {:trigger ImportedRecord(p, now)} :: BuildsImportedFor(build, now, p)
  }

  ghost predicate BuildsImportedFor(build: (string, int) -> Book, now: int, p: string) {
    forall id :: build(p, id) == ImportedAs(p, now, id)
  }

  lemma ImporterBuilds(now: int)
    ensures BuildsImported(Importer(now), now)
  {
    forall p ensures BuildsImportedFor(Importer(now), now, p) {
      assert forall id :: Importer(now)(p, id) == ImportedAs(p, now, id);
    }
  }

  /** What one more input adds to the stored records. */
  lemma ImportStep(valid: seq<string>, j: nat, known: set<string>, fails: nat -> bool, build: (string, int) -> Book, startId: int)
    requires j < |valid|
    ensures var before := Accepted(valid[..j], known, fails);
            Stamp(Accepted(valid[..j + 1], known, fails), build, startId)
            == Stamp(before, build, startId)
               + (if Lower(valid[j]) !in known && !fails(j) then [build(valid[j], startId + |before|)] else [])
  {
    assert valid[..j + 1][..j] == valid[..j];
    var before := Accepted(valid[..j], known, fails);
    if Lower(valid[j]) !in known && !fails(j) {
      var after := before + [valid[j]];
      assert forall k :: 0 <= k < |before| ==> after[k] == before[k];
    }
  }

  /** The store loop of ImportBooksAsync over the supported paths, against
      the snapshot `existing`. */
  method StoreEach(store: BookStore, validFiles: seq<string>, existing: set<string>, now: int, fails: nat -> bool,
                   ghost build: (string, int) -> Book)
    returns (imported: seq<Book>)
    requires store.Valid() && BuildsImported(build, now)
    modifies store
    ensures store.Valid()
    ensures imported == Stamp(Accepted(validFiles, existing, fails), build, old(store.nextId))
    ensures store.rows == old(store.rows) + imported
  {
    ghost var rows := store.rows;
    ghost var startId := store.nextId;
    imported := [];
    for j := 0 to |validFiles|
      invariant store.Valid()
      invariant imported == Stamp(Accepted(validFiles[..j], existing, fails), build, startId)
      invariant store.nextId == startId + |imported|
      invariant store.rows == rows + imported
    {
      var filePath := validFiles[j];
      if Lower(filePath) !in existing && !fails(j) {
        ghost var previous := imported;
        var saved := StoreNewBook(store, filePath, now, build);
        imported := imported + [saved];
        assert store.rows == rows + imported by {
          AppendAssociates(rows, previous, saved);
        }
        assert imported == Stamp(Accepted(validFiles[..j + 1], existing, fails), build, startId) by {
          ImportStep(validFiles, j, existing, fails, build, startId);
        }
      } else {
        assert Stamp(Accepted(validFiles[..j + 1], existing, fails), build, startId)
            == Stamp(Accepted(validFiles[..j], existing, fails), build, startId) by {
          ImportStep(validFiles, j, existing, fails, build, startId);
        }
      }
    }
    assert validFiles[..|validFiles|] == validFiles;
  }

  lemma AppendAssociates(a: seq<Book>, b: seq<Book>, x: Book)
    ensures (a + b) + [x] == a + (b + [x])
  {
  }

  /** ImportBooksAsync: filters the batch, snapshots the stored paths, and
      stores a freshly built record for each accepted path, in order. */
  method ImportBooks(store: BookStore, paths: seq<string>, now: int, fails: nat -> bool)
    returns (imported: seq<Book>)
    requires store.Valid()
    modifies store
    ensures store.Valid()
    ensures imported == Stamp(Accepted(SupportedOnly(paths), KnownPaths(old(store.rows)), fails), Importer(now), old(store.nextId))
    ensures store.rows == old(store.rows) + imported
  {
    var validFiles := SupportedOnly(paths);
    var existing := KnownPaths(store.rows);
    ghost var build := Importer(now);
    assert BuildsImported(build, now) by {
      ImporterBuilds(now);
    }
    imported := StoreEach(store, validFiles, existing, now, fails, build);
  }

  /** The Ok values of `extract` over `valid`, in order: the shape of a loop
      that skips each item whose processing throws. */
  function Collected(valid: seq<string>, extract: string -> Result<Book>): (r: seq<Book>)
    ensures |r| <= |valid|
    ensures forall b :: b in r ==> exists p :: p in valid && extract(p) == Ok(b)
  {
    if valid == [] then []
    else
      var n := |valid| - 1;
      var rest := Collected(valid[..n], extract);
      assert forall p :: p in valid[..n] ==> p in valid;
      var e := extract(valid[n]);
      if e.Ok? then rest + [e.value] else rest
  }

  /** Whether the extraction of the j-th path succeeds. */
  function ExtractsAt(valid: seq<string>, extract: string -> Result<Book>): nat -> bool {
    (j: nat) => j < |valid| && extract(valid[j]).Ok?
  }

  lemma {:induction false} CollectedPrefix(valid: seq<string>, extract: string -> Result<Book>, m: nat)
    requires m <= |valid|
    ensures var r, at := Collected(valid[..m], extract), Positions(m, ExtractsAt(valid, extract));
            |r| == |at| && forall k :: 0 <= k < |r| ==> extract(valid[at[k]]) == Ok(r[k])
  {
    if m > 0 {
      assert valid[..m][..m - 1] == valid[..m - 1];
      CollectedPrefix(valid, extract, m - 1);
    }
  }

  /** The collected records are the extractions at exactly the positions
      where extraction succeeds, in increasing order: a path whose
      extraction throws is skipped alone. */
  lemma CollectedComplete(valid: seq<string>, extract: string -> Result<Book>)
    ensures var r, at := Collected(valid, extract), Positions(|valid|, ExtractsAt(valid, extract));
            && |r| == |at| && (forall k :: 0 <= k < |r| ==> extract(valid[at[k]]) == Ok(r[k]))
            && (forall j :: 0 <= j < |valid| && extract(valid[j]).Ok? ==> extract(valid[j]).value in r)
  {
    var r, at := Collected(valid, extract), Positions(|valid|, ExtractsAt(valid, extract));
    CollectedPrefix(valid, extract, |valid|);
    assert valid[..|valid|] == valid;
    forall j | 0 <= j < |valid| && extract(valid[j]).Ok?
      ensures extract(valid[j]).value in r
    {
      assert ExtractsAt(valid, extract)(j);
      var k :| 0 <= k < |at| && at[k] == j;
      assert r[k] == extract(valid[j]).value;
    }
  }

  /** What extracting one path yields, given how files are read. */
  function Extractor(now: int, fileLength: string -> Option<nat>, formatNumber: real -> string): string -> Result<Book> {
    p => ExtractedRecord(p, now, fileLength(p), formatNumber)
  }

  /** The records the parse loop returns: one per supported path whose
      extraction succeeds, in input order. */
  function Parsed(valid: seq<string>, now: int, fileLength: string -> Option<nat>, formatNumber: real -> string): seq<Book> {
    Collected(valid, Extractor(now, fileLength, formatNumber))
  }

  /** Every parsed record is the extraction result of the supported path it
      names. */
  lemma ParsedSound(valid: seq<string>, now: int, fileLength: string -> Option<nat>, formatNumber: real -> string)
    ensures forall b :: b in Parsed(valid, now, fileLength, formatNumber) ==>
              b.filePath in valid && ExtractedRecord(b.filePath, now, fileLength(b.filePath), formatNumber) == Ok(b)
  {
    var extract := Extractor(now, fileLength, formatNumber);
    forall b | b in Collected(valid, extract)
      ensures b.filePath in valid && ExtractedRecord(b.filePath, now, fileLength(b.filePath), formatNumber) == Ok(b)
    {
      var p :| p in valid && extract(p) == Ok(b);
      assert ExtractedRecord(p, now, fileLength(p), formatNumber) == Ok(b);
    }
  }

  /** Every supported path whose extraction succeeds contributes its
      record. */
  lemma ParsedComplete(valid: seq<string>, now: int, fileLength: string -> Option<nat>, formatNumber: real -> string)
    ensures forall j :: 0 <= j < |valid| && ExtractedRecord(valid[j], now, fileLength(valid[j]), formatNumber).Ok? ==>
              ExtractedRecord(valid[j], now, fileLength(valid[j]), formatNumber).value in Parsed(valid, now, fileLength, formatNumber)
  {
    var extract := Extractor(now, fileLength, formatNumber);
    CollectedComplete(valid, extract);
    forall j | 0 <= j < |valid| && ExtractedRecord(valid[j], now, fileLength(valid[j]), formatNumber).Ok?
      ensures ExtractedRecord(valid[j], now, fileLength(valid[j]), formatNumber).value in Collected(valid, extract)
    {
      assert extract(valid[j]) == ExtractedRecord(valid[j], now, fileLength(valid[j]), formatNumber);
    }
  }

  /** The loop of ParseBooksMetadataAsync over the supported paths: each
      record whose extraction throws is skipped. */
  method ParseEach(validFiles: seq<string>, now: int, fileLength: string -> Option<nat>, formatNumber: real -> string)
    returns (books: seq<Book>)
    ensures books == Parsed(validFiles, now, fileLength, formatNumber)
  {
    ghost var extract := Extractor(now, fileLength, formatNumber);
    books := [];
    for j := 0 to |validFiles|
      invariant books == Collected(validFiles[..j], extract)
    {
      assert validFiles[..j + 1][..j] == validFiles[..j];
      var book := ExtractMetadataFromFile(validFiles[j], now, fileLength(validFiles[j]), formatNumber);
      assert book == extract(validFiles[j]);
      if book.Ok? {
        books := books + [book.value];
      }
    }
    assert validFiles[..|validFiles|] == validFiles;
  }

  /** ParseBooksMetadataAsync: nothing for an empty batch; otherwise the
      records extracted from the supported paths, in input order. */
  method ParseBooksMetadata(paths: seq<string>, now: int, fileLength: string -> Option<nat>, formatNumber: real -> string)
    returns (books: seq<Book>)
    ensures paths == [] ==> books == []
    ensures books == Parsed(SupportedOnly(paths), now, fileLength, formatNumber)
  {
    if paths == [] {
      return [];
    }
    var validFiles := SupportedOnly(paths);
    books := ParseEach(validFiles, now, fileLength, formatNumber);
  }

}
