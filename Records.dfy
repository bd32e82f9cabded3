/** The catalog's records: books, tags and categories, as values. */
module Records {
  import opened Wrappers
  import opened Text

  /** A tag is known by its name; `id` is the key the store gives it. */
  datatype Tag = Tag(id: int, name: string)

  /** A catalog entry. Timestamps are abstract instants (larger is later). */
  datatype Book = Book(
    id: int,
    title: string,
    author: Option<string>,
    publisher: Option<string>,
    description: Option<string>,
    publicationYear: Option<int>,
    isbn: Option<string>,
    filePath: string,
    fileExtensions: seq<string>,
    importDate: int,
    lastOpenedDate: Option<int>,
    isNew: bool,
    isInfoIncomplete: bool,
    isFavorite: bool,
    tags: seq<Tag>)

  /** A category of the tree; `parentId` is None for a root. Its books are
      a many-to-many link: the category keeps the Ids of its join rows, and
      the records are looked up in the Books table whenever they are
      loaded, so they are always the current rows. */
  datatype Category = Category(
    id: int,
    name: string,
    parentId: Option<int>,
    children: seq<Category>,
    bookIds: seq<int>)

  /** `new Book()`: the property initialisers of the record class. */
  const EmptyBook: Book := Book(0, "", None, None, None, None, None, "", [], 0, None, true, true, false, [])

  /** `new Category { Name = name, ParentId = parentId }`. */
  function NewCategory(name: string, parentId: Option<int>): Category {
    Category(0, name, parentId, [], [])
  }

  /** The Ids of the records, in order: what a join table keeps of a list
      of books. */
  function BookIds(bs: seq<Book>): seq<int> {
    seq(|bs|, k requires 0 <= k < |bs| => bs[k].id)
  }

  /** Prefix of the tag that records a file format. */
  const FormatTagPrefix: string := "格式:"

  /** Name of the tag that marks a record whose metadata is incomplete. */
  const IncompleteTagName: string := "信息待完善"

  /** The format tag built for an extension: the prefix followed by the
      extension without its leading dots. */
  function FormatTag(extension: string): Tag {
    Tag(0, FormatTagPrefix + TrimStartChar(extension, '.'))
  }

  /** string.IsNullOrWhiteSpace on a nullable string. */
  predicate IsNullOrWhiteSpace(s: Option<string>) {
    s.None? || IsBlank(s.value)
  }

  /** The incompleteness test both record builders apply. */
  predicate IsMissingInfo(b: Book) {
    IsBlank(b.title) || IsNullOrWhiteSpace(b.author) || IsNullOrWhiteSpace(b.publisher)
  }
}
