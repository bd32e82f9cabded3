# BookSteward core, modelled in Dafny

BookSteward is a desktop e-book library. This project models its core.

- **Import pipeline.** It decides which files are books and builds a book record from a file path. It stores a batch of new paths and skips those already in the library, or it parses a batch into records.
- **Directory comparison.** Two directories of parsed books are matched in four tiers: exact, title only, author only, and similar title by Levenshtein similarity. The books no tier matched are listed side by side.
- **Main book list.** It picks the records of the current view and shows one entry per lower-cased title. The extensions and tags of same-titled records are merged into the first of them. The window also adds a book to a category and opens a book.
- **Repositories.** The Books and Categories tables of the database.
- **View models.** The list entry of one book, and the node of the category tree.
- **Value converters.** Bool to visibility, all-true visibility, extension to colour, and the single-selection test.

Books, tags and categories are datatypes (`Records.dfy`). A category's books are a many-to-many link: the category keeps the Ids of its join rows, and loading it looks them up in the Books table, so a category always shows the current records. The repositories are classes over their tables:

- BookService.BookStore holds its rows in key order and the next key;
- CategoryService.CategoryStore holds a map from key to row, its keys in order, and the next key.

The view models are classes whose methods update their fields. Each loop of the source is a method with its invariants, proved against a specification function. The properties the source promises are proved about those functions. The .NET string and path functions the code relies on are defined in `Text.dfy`:

- ToLower, Trim and TrimStart;
- Contains and string.Join;
- Path.GetExtension, Path.GetFileNameWithoutExtension and Path.GetFileName;
- int.TryParse and Int32.ToString;
- the UTF-16 code units of a string (`Utf16`).

A Dafny string is a sequence of Unicode scalar values, and a .NET string is a sequence of UTF-16 code units. The two differ only for characters from U+10000 up, which take two units. Where the source compares a `Length` with another number, the model counts code units: the author/title rule of the file-name heuristic, and the lengths and edit distance of the title similarity. Elsewhere indices are only passed between the model's own functions (`IndexOf` to a slice, `Substring(3)` after a three-character prefix), so counting scalar values gives the same strings.

The Levenshtein distance (`Levenshtein.dfy`) is defined by its recurrence, on sequences of any element type. A stable insertion sort stands for `OrderBy` (`Sorting.dfy`).

The clock, the file-size lookup, the persistence failures, the "n2" number format and the title comparer used by `OrderBy` are parameters of the operations that use them.

## Model

| member | source | states |
|---|---|---|
| BookImport.SupportedBySuffix | Services/BookImportService.cs:20-41 | A path whose last component ends in a dot and a run without dots is supported exactly when that ending, lower-cased, is one of the five formats, whatever comes before it |
| BookImport.UpperCaseSupported | Services/BookImportService.cs:35-41 | "x.PDF" is supported: the format test ignores case |
| BookImport.LastExtensionCounts | Services/BookImportService.cs:35-41 | "x.pdf.bak" is not supported: only the last extension counts |
| BookImport.TrailingDotUnsupported | Services/BookImportService.cs:35-41 | A path ending in a dot has no extension and is not supported |
| BookImport.SupportedOnly | Services/BookImportService.cs:51 | The filtered batch is a subsequence of the input |
| BookImport.SupportedOnlyMembers | Services/BookImportService.cs:51 | The filter keeps exactly the supported paths |
| BookImport.ParseTitleAndAuthor | Services/BookImportService.cs:246-271 | Only title and author change. Without a hyphen the untrimmed name becomes the title and the author is kept. With one, the trimmed sides of the first hyphen become author and title when the first is shorter than the second and than 20, and title and author otherwise. Lengths are `string.Length`: UTF-16 code units, not characters |
| BookImport.WidePieceIsTitle | Services/BookImportService.cs:255-264 | A first piece of characters outside the Basic Multilingual Plane counts two units each. Against a second piece of fewer than twice as many characters it stays the title, even when it has fewer characters |
| BookImport.RoundHalfEven | Services/BookImportService.cs:282 | Math.Round gives the nearest integer, and the even one at a tie |
| BookImport.RoundsToUnit | Services/BookImportService.cs:282-286 | The loop test holds exactly above 512 of the current unit. Exactly 512 rounds to 0, so the unit is not advanced |
| BookImport.StepsBounds | Services/BookImportService.cs:276-289 | The unit chosen is the smallest in which the size is at most 512 |
| BookImport.ScaledAbove | Services/BookImportService.cs:282-286 | The divided number exceeds 512 exactly when the byte count exceeds 512 of that unit |
| BookImport.SmallSizes | Services/BookImportService.cs:276-289 | Sizes up to 512 stay in "B" unscaled; sizes up to 512 KB are in "KB" |
| BookImport.FormatFileSize | Services/BookImportService.cs:276-289 | The while loop's number and unit index equal the size-of function. Past "TB" the suffix lookup fails |
| BookImport.WithSizeLine | Services/BookImportService.cs:179-186 | The size line becomes the description, or is appended on a new line after a non-empty one |
| BookImport.ImportedRecordShape | Services/BookImportService.cs:296-336 | The imported record has the stem as title, the extension with its case unchanged, IsNew and the import time. It carries the format tag then the incomplete marker, and is flagged incomplete because author and publisher are never set |
| BookImport.CreateBookFromFile | Services/BookImportService.cs:296-336 | The field-by-field construction yields the imported record |
| BookImport.TaggedRecord | Services/BookImportService.cs:131-176 | The parse path lower-cases the extension for both the extension list and the format tag; no publisher or description is set yet |
| BookImport.NoPublisherIncomplete | Services/BookImportService.cs:189-199 | A record without publisher is always flagged incomplete and gets the marker tag appended |
| BookImport.ExtractedRecord | Services/BookImportService.cs:131-202 | Extraction fails exactly when the length cannot be read or has no unit. On success it gives the described record for that size |
| BookImport.DescribedRecordShape | Services/BookImportService.cs:134-199 | The parsed record has the lower-cased extension and its tag. The size line is its description, it is flagged incomplete, and the marker tag is last |
| BookImport.ExtractMetadataFromFile | Services/BookImportService.cs:131-202 | The step-by-step extraction equals the extraction function, including its failure |
| BookImport.AcceptedSound | Services/BookImportService.cs:62-82 | Every accepted path is an input not in the snapshot, and the accepted paths keep input order |
| BookImport.AcceptedComplete | Services/BookImportService.cs:62-82 | The stored paths are the inputs at exactly the positions that are new and whose store succeeds, in increasing order. Every such path is stored once per occurrence, and a failing store drops only its own path |
| BookImport.ImportSound | Services/BookImportService.cs:51-82 | Every imported record's path is a supported input absent from the pre-batch snapshot. They keep input order and number at most the supported inputs |
| BookImport.RepeatedPathImportedTwice | Services/BookImportService.cs:56-81 | The snapshot never grows, so a new path given twice in one batch is imported twice |
| BookImport.StoreNewBook | Services/BookImportService.cs:73-75 | One loop pass stores the built record under the next key and appends it to the result |
| BookImport.StoreEach | Services/BookImportService.cs:62-82 | The loop stores exactly the records built for the accepted paths, under consecutive keys and in order. A path whose store fails is skipped alone |
| BookImport.ImportBooks | Services/BookImportService.cs:48-87 | The batch filters the paths, snapshots the stored paths, and then stores and returns exactly the records for the accepted paths. The table gains exactly those rows |
| BookImport.Collected | Services/BookImportService.cs:107-119 | The records collected are successful extractions of the given paths, at most one per path |
| BookImport.CollectedComplete | Services/BookImportService.cs:107-119 | The collected records are the extractions at exactly the positions where extraction succeeds, in increasing order; a path whose extraction throws is skipped alone |
| BookImport.ParsedSound | Services/BookImportService.cs:107-119 | Every parsed record is the successful extraction of the supported path it names |
| BookImport.ParsedComplete | Services/BookImportService.cs:107-119 | Every supported path whose extraction succeeds contributes its record |
| BookImport.ParseEach | Services/BookImportService.cs:107-119 | The parse loop returns the extractions that succeeded, in input order, skipping each failed one |
| BookImport.ParseBooksMetadata | Services/BookImportService.cs:94-124 | An empty batch gives nothing; otherwise the records parsed from the supported paths, in input order |
| BookService.BookStore.constructor | Services/BookService.cs:11-14 | A new table is empty and valid |
| BookService.BookStore.BookById | Services/BookService.cs:30-42 | The row with that Id, or None exactly when no row has it |
| BookService.BookStore.AddBook | Services/BookService.cs:44-60 | A null book is rejected. Id 0 gets the next key; a used or negative Id is a key conflict; an unused positive Id is stored under itself. The stored record is returned, and keys stay unique and ascending |
| BookService.AppendedFound | Services/BookService.cs:44-60 | A row added under a fresh key is found by that key |
| BookService.BookStore.UpdateBook | Services/BookService.cs:63-91 | A null book is rejected. An unknown Id gives false and no change. Otherwise the stored row takes the incoming values, its tags stay, and no other row changes |
| BookService.BookStore.DeleteBook | Services/BookService.cs:94-115 | Removes exactly the row with that Id and reports whether there was one. Afterwards no row has that Id |
| BookService.BookStore.Search | Services/BookService.cs:118-135 | A null or whitespace query gives all rows. Otherwise exactly the rows whose lower-cased title, author or description contains the lower-cased query |
| BookService.Matching | Services/BookService.cs:127-134 | The filter keeps exactly the matching rows, in table order, and no more than it is given |
| BookService.IndexOfId | Services/BookService.cs:35 | The first position holding that Id, or None when no row has it |
| BookService.RowsOf | Data/BookStewardDbContext.cs:39-41 | Loading a category's books gives only rows of the table whose Id the category links, at most one per link, and every linked Id that a row holds gives that row |
| BookService.RowsOfAllFound | Data/BookStewardDbContext.cs:39-41 | When every linked Id is in the table, the loaded books are those rows, one per link, in link order |
| BookService.RowsOfCurrent | Services/CategoryService.cs:24-30 | After a row is replaced by one with the same Id, a category linking that Id loads the new record and not the old one |
| BookService.InsertById | Services/BookService.cs:50-51 | A row with a new key goes in at its place; keys stay ascending and nothing else is lost |
| BookService.WithoutId | Services/BookService.cs:94-115 | The table without exactly the rows of that Id, keys ascending |
| CategoryService.CategoryStore.constructor | Services/CategoryService.cs:11-14 | A new table is empty and valid |
| CategoryService.CategoryStore.CategoryById | Services/CategoryService.cs:24-30 | A row exactly when that Id exists, with its fields and book links, and children whose parent is that Id |
| CategoryService.CategoryStore.Append | Services/CategoryService.cs:40-41 | A new row is stored under the next key, which is appended to the key list |
| CategoryService.CategoryStore.CreateCategory | Services/CategoryService.cs:32-43 | Adds exactly one row, with a fresh Id, the given name and parent, and no book links, and returns it |
| CategoryService.CategoryStore.UpdateCategory | Services/CategoryService.cs:45-53 | None and no change for an unknown Id; otherwise only that row's name changes |
| CategoryService.CategoryStore.DeleteCategory | Services/CategoryService.cs:55-63 | Removes exactly the row with that Id; no change when there is none |
| CategoryService.CategoryStore.RootCategories | Services/CategoryService.cs:65-74 | Every root row once and nothing else, in ascending Id order, each exactly the stored row with its children loaded three levels down |
| CategoryService.Roots | Services/CategoryService.cs:65-74 | Every row without a parent and nothing else, each exactly the stored row with its children loaded three levels down, in ascending Id order when the keys ascend |
| CategoryService.Tree | Services/CategoryService.cs:68-70 | A row with its children loaded keeps its own fields, and its children name it as parent |
| CategoryService.ChildRows | Services/CategoryService.cs:68-70 | The loaded children of a row all name it as parent |
| CategoryService.RootKeys | Services/CategoryService.cs:72 | Exactly the keys of root rows, ascending when the key list ascends |
| CategoryService.FirstNamed | Services/CategoryService.cs:78-80 | The first row in key order with that name, or None when there is none |
| CategoryService.CategoryStore.GetOrCreateDefaultCategory | Services/CategoryService.cs:76-94 | An existing "默认分类" row is returned as stored: the first such row in key order, and nothing is added. Otherwise exactly one new root row of that name is added. Either way one exists afterwards, so a second call adds nothing |
| CategoryService.CategoryStore.UpdateCategoryBooks | Services/CategoryService.cs:96-114 | An unknown Id is an argument error with no change. Otherwise that row's book links become exactly the Ids of the given records, in order, and nothing else changes |
| CategoryService.RemovePreserves | Services/CategoryService.cs:55-63 | Deleting a key keeps the map and the key list consistent |
| CategoryView.CategoryViewModel.constructor | ViewModels/CategoryViewModel.cs:25-38 | The new node mirrors the category tree: same name, not editing, and one child node per child category, in order, recursively. The nodes form a tree of fresh objects |
| CategoryView.MirrorKeys | ViewModels/CategoryViewModel.cs:22-23 | A node and its children read Id and ParentId straight from their categories |
| CategoryView.CategoryViewModel.ToModel | ViewModels/CategoryViewModel.cs:40-44 | The current name is written into the category, which is returned. An unedited name returns the category unchanged |
| BookView.FormatNames | ViewModels/BookViewModel.cs:32-44 | Every name listed is a format tag's name without its prefix, and there are no more names than tags |
| BookView.FormatNamesOne | ViewModels/BookViewModel.cs:32-44 | A tag whose name starts with "格式:" gives its name without the prefix, and any other tag gives nothing |
| BookView.FormatTagRoundTrip | ViewModels/BookViewModel.cs:39-41 | The format tag the importer builds for an extension gives back that extension without its leading dots |
| BookView.ImportedFormats | ViewModels/BookViewModel.cs:32-44 | An imported record shows exactly one format, its extension without the dot. The marker tag is not a format |
| BookView.BookViewModel.constructor | ViewModels/BookViewModel.cs:16-48 | The entry copies the record's properties and its extension list in order. Its format list is the format names of the record's tags, in tag order |
| BookView.BookViewModel.DisplayTitle | ViewModels/BookViewModel.cs:80 | Never empty: the title, or "(无标题)" exactly when the title is null or empty |
| BookView.TagNames | ViewModels/BookViewModel.cs:82 | One name per tag, in order |
| BookView.BookViewModel.TagsDisplay | ViewModels/BookViewModel.cs:82 | The tag names laid end to end in tag order, each at its start, with ", " just before each but the first; empty without tags |
| BookView.BookViewModel.FormatTagsDisplay | ViewModels/BookViewModel.cs:93 | The format names laid end to end in order, each at its start, with ", " just before each but the first; empty without formats, a single format as it is |
| BookView.BookViewModel.UpdateModel | ViewModels/BookViewModel.cs:103-111 | Title, author, description, path and last-open date are written back, and the import date becomes the added date or else now. Publisher and favourite flag are not written. An entry in sync with its record leaves the record unchanged |
| BookView.BookViewModel.ToggleFavorite | ViewModels/BookViewModel.cs:116-143 | The flag flips in the entry and the record, and the record is saved. When the save throws, both flip back and the table is untouched. An unknown row is not undone. Entry and record always agree afterwards |
| DirectoryCompareView.ComparisonResultGroup.constructor | ViewModels/DirectoryCompareViewModel.cs:376-381 | A group keeps its name, description and colour, and starts empty |
| DirectoryCompareView.ComparisonResultGroup.AddPair | ViewModels/DirectoryCompareViewModel.cs:383-386 | Appends exactly one pair item |
| DirectoryCompareView.ComparisonResultGroup.AddLeft | ViewModels/DirectoryCompareViewModel.cs:388-391 | Appends exactly one left-only item |
| DirectoryCompareView.ComparisonResultGroup.AddRight | ViewModels/DirectoryCompareViewModel.cs:393-396 | Appends exactly one right-only item |
| DirectoryCompareView.Qualifies | ViewModels/DirectoryCompareViewModel.cs:206-264 | The in-loop test of each tier equals the tier's matching predicate. Tier 3 needs both authors non-blank; tier 4 needs both titles non-blank and similarity above 0.7 |
| DirectoryCompareView.MatchRow | ViewModels/DirectoryCompareViewModel.cs:222-232 | The inner loop appends one pair for each right book not skipped that passes, in order, and records both sides as matched |
| DirectoryCompareView.ExactTier | ViewModels/DirectoryCompareViewModel.cs:202-214 | Tier 1 adds every passing pair over the full lists, left-major and right-minor, and records their books |
| DirectoryCompareView.MatchTier | ViewModels/DirectoryCompareViewModel.cs:218-273 | The group receives exactly the pairs of `Later`, which tries the left books unmatched when the tier starts, in order, each against the right books, in order, that were unmatched when that left book's turn began, and the matched sets grow by exactly the books of those pairs |
| DirectoryCompareView.AddLefts | ViewModels/DirectoryCompareViewModel.cs:276-279 | One left-only item per book, in the given order |
| DirectoryCompareView.AddRights | ViewModels/DirectoryCompareViewModel.cs:281-284 | One right-only item per book, in the given order |
| DirectoryCompareView.ExactGroup | ViewModels/DirectoryCompareViewModel.cs:188-214 | The exact-match group holds tier 1's pairs, and the matched sets are their books |
| DirectoryCompareView.LaterGroup | ViewModels/DirectoryCompareViewModel.cs:189-273 | A later tier's group holds its pairs, and the matched sets grow by their books |
| DirectoryCompareView.LeftOnlyGroup | ViewModels/DirectoryCompareViewModel.cs:274-279 | The left books never matched, ordered by title |
| DirectoryCompareView.RightOnlyGroup | ViewModels/DirectoryCompareViewModel.cs:280-284 | The right books never matched, ordered by title |
| DirectoryCompareView.FillGroups | ViewModels/DirectoryCompareViewModel.cs:186-284 | Six new groups with the fixed labels, filled tier by tier, hold exactly what the comparison function describes |
| DirectoryCompareView.DirectoryCompareViewModel.constructor | ViewModels/DirectoryCompareViewModel.cs:61-69 | A new page has nothing imported, nothing compared, and all counts 0 |
| DirectoryCompareView.DirectoryCompareViewModel.Publish | ViewModels/DirectoryCompareViewModel.cs:286-307 | The groups are published in order, each pair count equals its group's size, and the comparing flag goes down |
| DirectoryCompareView.DirectoryCompareViewModel.CompareDirectories | ViewModels/DirectoryCompareViewModel.cs:174-308 | With either side empty nothing changes. Otherwise six new groups publish the comparison outcome with the four pair counts, the flag ends down, and books and totals are untouched |
| DirectoryCompareView.DirectoryCompareViewModel.ClearComparison | ViewModels/DirectoryCompareViewModel.cs:310-325 | Back to the state of a new page |
| DirectoryCompare.Unmatched | ViewModels/DirectoryCompareViewModel.cs:276-281 | The result holds exactly the positions below the count that are not matched, each once, in ascending order |
| DirectoryCompare.AllPairsFacts | ViewModels/DirectoryCompareViewModel.cs:202-214 | Tier 1 holds exactly the pairs passing the exact test, in left-major, right-minor order, so one book may sit in several pairs |
| DirectoryCompare.RowSound | ViewModels/DirectoryCompareViewModel.cs:222-232 | A row pairs its left book with exactly the right books in range, not skipped, that pass the test |
| DirectoryCompare.LaterSound | ViewModels/DirectoryCompareViewModel.cs:218-273 | A later tier only pairs books unmatched before the tier that pass its test, so no book of tier 1 returns |
| DirectoryCompare.LaterDistinct | ViewModels/DirectoryCompareViewModel.cs:218-273 | Within a later tier each right book is paired at most once |
| DirectoryCompare.LaterUsed | ViewModels/DirectoryCompareViewModel.cs:218-273 | After a later tier the used right books are the earlier ones plus those it paired, so no right book is paired in two tiers |
| DirectoryCompare.SeveralInOneTier | ViewModels/DirectoryCompareViewModel.cs:220-232 | A left book can be paired with several right books in one later tier |
| DirectoryCompare.OneSidedItems | ViewModels/DirectoryCompareViewModel.cs:276-284 | One-sided items name their books on their side and none on the other |
| DirectoryCompare.LeftPartition | ViewModels/DirectoryCompareViewModel.cs:199-284 | Every left book lands in exactly one of the six groups, and the right-only group names no left book |
| DirectoryCompare.RightPartition | ViewModels/DirectoryCompareViewModel.cs:199-284 | Every right book lands in exactly one of the six groups, and the left-only group names no right book |
| Levenshtein.DistanceFacts | ViewModels/DirectoryCompareViewModel.cs:336-360 | The edit distance is at most the longer length, symmetric, and zero exactly for equal sequences |
| Levenshtein.PrefixDistanceIsDistance | ViewModels/DirectoryCompareViewModel.cs:343-357 | Each table entry is the distance of the two prefixes |
| Levenshtein.RatioFacts | ViewModels/DirectoryCompareViewModel.cs:360 | The ratio is in [0, 1], is 1 exactly for distance 0, and exceeds 0.7 exactly when 10 d < 3 m |
| Levenshtein.SimilarityRange | ViewModels/DirectoryCompareViewModel.cs:328-361 | The similarity is between 0 and 1 for all inputs |
| Levenshtein.SimilaritySymmetric | ViewModels/DirectoryCompareViewModel.cs:328-361 | Swapping the strings does not change the similarity |
| Levenshtein.SimilarityOne | ViewModels/DirectoryCompareViewModel.cs:328-361 | Non-empty strings have similarity 1 exactly when they are equal after lower-casing |
| Levenshtein.SimilarIff | ViewModels/DirectoryCompareViewModel.cs:328-361 | The test "similarity > 0.7" is the integer test 10 d < 3 max(n, m), with d and the lengths over UTF-16 code units; exactly three tenths fails |
| Levenshtein.WideCharsCountTwice | ViewModels/DirectoryCompareViewModel.cs:336-360 | "ab" followed by either of two characters sharing a high surrogate has similarity 0.75: one unit of four differs |
| Levenshtein.CalculateSimilarity | ViewModels/DirectoryCompareViewModel.cs:328-361 | 0 when either string is null or empty; otherwise the similarity of the lower-cased strings' code units, from the table |
| Levenshtein.EditDistance | ViewModels/DirectoryCompareViewModel.cs:338-357 | The table fill yields the edit distance |
| Levenshtein.FillRow | ViewModels/DirectoryCompareViewModel.cs:349-356 | Filling one row keeps every finished row and completes that one; no other row changes |
| MainWindow.Where | ViewModels/MainWindowViewModel.cs:379-399 | The filter keeps exactly the records that pass, as a subsequence |
| MainWindow.ViewSelection | ViewModels/MainWindowViewModel.cs:378-429 | AllBooks gives all records. NewBooks, Favorites and IncompleteInfo keep exactly the records with that flag. RecentBooks gives the opened records, newest first |
| MainWindow.CategoryViewSeesUpdates | ViewModels/MainWindowViewModel.cs:405-426 | After a row linked to a category is replaced by one with the same Id, the category's view shows the new record and no longer the old one |
| MainWindow.CategoryViewShowsItsBooks | ViewModels/MainWindowViewModel.cs:405-426 | A view named by a category's Id shows the current rows of that category's linked books, or all records when there is no such category |
| MainWindow.NewBooksTitleShowsAll | ViewModels/MainWindowViewModel.cs:405-426 | The view "新加入的书籍" is neither a named view nor a number, so it shows all records |
| MainWindow.FirstSeenKeys | ViewModels/MainWindowViewModel.cs:432-444 | The keys of the records, each once, and no others |
| MainWindow.WithKey | ViewModels/MainWindowViewModel.cs:436-443 | A group holds exactly the records with its key, as a subsequence of the input |
| MainWindow.WithKeyFirst | ViewModels/MainWindowViewModel.cs:436-452 | A group starts with the first record of its key in input order, the record the merge keeps |
| MainWindow.AddExtensions | ViewModels/MainWindowViewModel.cs:457-465 | The primary's extensions come first unchanged; afterwards every extension of either list is present and nothing else |
| MainWindow.AddTags | ViewModels/MainWindowViewModel.cs:466-475 | The primary's tags come first unchanged. Every added tag comes from the others, and every tag name of the others is present afterwards |
| MainWindow.MergeInto | ViewModels/MainWindowViewModel.cs:452-478 | Only the primary's extensions and tags change, each keeping its own list as prefix. Every extension of the others is added, and every tag name of the others is present |
| MainWindow.AddExtensionsPresent | ViewModels/MainWindowViewModel.cs:461 | Adding extensions already present adds nothing |
| MainWindow.AddTagsPresent | ViewModels/MainWindowViewModel.cs:470 | Adding tags whose names are present adds nothing |
| MainWindow.AddExtensionsDistinct | ViewModels/MainWindowViewModel.cs:457-465 | No extension is appended twice |
| MainWindow.MergeIdempotent | ViewModels/MainWindowViewModel.cs:452-478 | Merging the same group into an already merged primary changes nothing |
| MainWindow.Merged | ViewModels/MainWindowViewModel.cs:446-478 | A group of one is shown unchanged, and the entry keeps the group's key |
| MainWindow.Display | ViewModels/MainWindowViewModel.cs:432-478 | One entry per distinct key, in first-seen order, with distinct keys |
| MainWindow.DistinctKeysSeen | ViewModels/MainWindowViewModel.cs:432-444 | Records with distinct keys each open a key of their own, in order |
| MainWindow.DistinctKeysSingletons | ViewModels/MainWindowViewModel.cs:446-450 | Records with distinct keys form groups of one |
| MainWindow.DisplayIdempotent | ViewModels/MainWindowViewModel.cs:432-478 | Loading the shown list again shows it unchanged |
| MainWindow.GroupByTitle | ViewModels/MainWindowViewModel.cs:432-444 | The dictionary loop gives the first-seen keys and, under each, exactly the records with that key |
| MainWindow.MergeGroup | ViewModels/MainWindowViewModel.cs:452-478 | The nested append loops produce the merged record |
| MainWindow.EntryOf | ViewModels/MainWindowViewModel.cs:446-478 | The entry of one group is its merge |
| MainWindow.BuildEntries | ViewModels/MainWindowViewModel.cs:432-479 | The grouping and merging loops produce the displayed list |
| MainWindow.MainWindowViewModel.constructor | ViewModels/MainWindowViewModel.cs:52-74 | Starts in the AllBooks view and shows the display of all records |
| MainWindow.MainWindowViewModel.LoadBooks | ViewModels/MainWindowViewModel.cs:367-488 | The list becomes the display of the current view's records; the stores and the view are unchanged |
| MainWindow.MainWindowViewModel.ChangeView | ViewModels/MainWindowViewModel.cs:529-537 | A null or empty name changes nothing. Otherwise the view becomes that name and the list is its display |
| MainWindow.MainWindowViewModel.ChangeCategory | ViewModels/MainWindowViewModel.cs:539-548 | The view becomes the Id written out. The list shows the display of the current rows of that category's linked books, or of all records when it does not exist |
| MainWindow.MainWindowViewModel.AddBookToCategory | ViewModels/MainWindowViewModel.cs:328-365 | The book is linked to the category exactly when both exist and the category does not link its Id yet. The links then become the Ids of the category's loaded books followed by the book's Id. Nothing else changes, and afterwards the Id is linked, so repeating it changes nothing |
| MainWindow.MainWindowViewModel.OpenBook | ViewModels/MainWindowViewModel.cs:551-600 | A null or unknown book changes nothing. Otherwise the stored row gets the open date and loses IsNew, and only in the view "新加入的书籍" does the first entry with its Id leave the list |
| BoolToVisibilityConverter.Convert | Converters/BoolToVisibilityConverter.cs:13-36 | Never Hidden. Visible exactly when the value reads true XOR an invert parameter; a non-bool reads false |
| BoolToVisibilityConverter.ConvertBack | Converters/BoolToVisibilityConverter.cs:38-53 | True exactly when the value is Visible XOR an invert parameter |
| BoolToVisibilityConverter.BoolRoundTrip | Converters/BoolToVisibilityConverter.cs:13-53 | Converting a bool and back gives it again, for every parameter |
| BoolToVisibilityConverter.VisibilityRoundTrip | Converters/BoolToVisibilityConverter.cs:13-53 | Visible and Collapsed survive converting back and out; Hidden comes back Collapsed |
| BoolToVisibilityConverter.InvertIgnoresCase | Converters/BoolToVisibilityConverter.cs:27-33 | The invert test ignores case |
| BoolToVisibilityConverter.BoolParameter | Converters/BoolToVisibilityConverter.cs:27-33 | A boxed true parameter inverts and a boxed false does not |
| UsingConverters.SingleSelectedConvert | Converters/UsingConverters.cs:10-18 | True exactly for the boxed int 1 |
| UsingConverters.BoolToVisibilityConvert | Converters/UsingConverters.cs:31-36 | Never Hidden. Visible exactly when the value is true XOR the parameter is exactly "Invert" |
| UsingConverters.BoolToVisibilityConvertBack | Converters/UsingConverters.cs:38-44 | True exactly when the value is Visible XOR the parameter is exactly "Invert"; a non-Visibility reads false |
| UsingConverters.BoolRoundTrip | Converters/UsingConverters.cs:29-44 | Converting a bool and back gives it again, for every parameter |
| UsingConverters.CaseMatters | Converters/UsingConverters.cs:33-40 | "invert" does not invert, "Invert" does |
| MultiValueToVisibilityConverter.AllTrue | Converters/MultiValueToVisibilityConverter.cs:20-44 | True exactly when every value is satisfied |
| MultiValueToVisibilityConverter.ScanValues | Converters/MultiValueToVisibilityConverter.cs:20-44 | The foreach with its early break ends with `allTrue` equal to AllTrue, true exactly when every value is satisfied |
| MultiValueToVisibilityConverter.Convert | Converters/MultiValueToVisibilityConverter.cs:13-62 | Never Hidden. A null or empty array is Visible; otherwise Visible exactly when all values are satisfied XOR an invert parameter |
| MultiValueToVisibilityConverter.OrderIrrelevant | Converters/MultiValueToVisibilityConverter.cs:21-44 | Reordering or repeating the values does not change the result |
| MultiValueToVisibilityConverter.OneFailureDecides | Converters/MultiValueToVisibilityConverter.cs:20-61 | One unsatisfied value gives Collapsed, or Visible when inverted |
| ExtensionToColorConverter.ColorOf | Converters/ExtensionToColorConverter.cs:21-29 | The colour is not Gray exactly for txt, pdf, mobi, epub and azw3 |
| ExtensionToColorConverter.Convert | Converters/ExtensionToColorConverter.cs:13-33 | A non-string is Gray; a string is looked up after normalising |
| ExtensionToColorConverter.NormalizeIgnoresDotsAndCase | Converters/ExtensionToColorConverter.cs:18 | A leading dot and letter case do not change the normalised extension |
| ExtensionToColorConverter.PdfSpellings | Converters/ExtensionToColorConverter.cs:18-23 | ".PDF", "pdf" and "..pdf" are all Brown |
| ExtensionToColorConverter.SupportedFormatsColored | Converters/ExtensionToColorConverter.cs:21-28 | Every importable format has a colour other than Gray |
| ExtensionToColorConverter.NormalizeDotted | Converters/ExtensionToColorConverter.cs:18 | An extension with one leading dot normalises to the rest, lower-cased |
| ExtensionToColorConverter.ImportedExtensionColored | Converters/ExtensionToColorConverter.cs:13-33 | The extension of every importable path gets a colour other than Gray, whatever its case |
| SingleSelectedConverter.Convert | Converters/SingleSelectedConverter.cs:9-20 | False with fewer than two values; otherwise true exactly when the first two are non-null with equal strings |
| SingleSelectedConverter.ExtraValuesIgnored | Converters/SingleSelectedConverter.cs:11-19 | Values after the second do not matter |
| SingleSelectedConverter.SelectionMatchesView | Converters/SingleSelectedConverter.cs:15-19 | A view name matches exactly an equal tag, and a category Id written out matches the boxed Id |
| Sorting.SortBy | ViewModels/MainWindowViewModel.cs:393 | Sorting keeps the multiset of elements |
| Sorting.SortByOrdered | ViewModels/MainWindowViewModel.cs:393 | For a total order the output is ordered and a permutation of the input |
| Sorting.SortByStable | ViewModels/MainWindowViewModel.cs:393 | For a total, transitive order the sort is stable: any elements that all tie come out in their input order |
| Subsequences.Transitive | Services/BookImportService.cs:51-82 | Keeping a subsequence of a subsequence keeps input order |
| Subsequences.Positions | Services/BookImportService.cs:62-82 | The positions where a test holds, each once, in increasing order, and no others |
| Text.Lower | Services/BookImportService.cs:57 | Lowering keeps the length and lowers each character |
| Text.LowerIdempotent | Converters/ExtensionToColorConverter.cs:18 | Lowering twice is lowering once |
| Text.Trim | Services/BookImportService.cs:251 | The trimmed string is one piece of the input with only white space cut before and after it, and it neither starts nor ends with white space |
| Text.BlankIffTrimEmpty | Services/BookImportService.cs:189-191 | A string is blank exactly when trimming empties it |
| Text.TrimStartCharSuffix | Converters/ExtensionToColorConverter.cs:18 | TrimStart(c) cuts exactly the leading c's |
| Text.ContainsIff | Services/BookService.cs:131-133 | Contains holds exactly when the substring occurs at some position |
| Text.IndexOf | Services/BookImportService.cs:251 | The first occurrence of the character, or None when there is none |
| Text.JoinLength | ViewModels/BookViewModel.cs:93 | The joined string is as long as the parts and one separator between each pair of neighbours |
| Text.JoinParts | ViewModels/BookViewModel.cs:82 | string.Join lays the parts end to end: each part at its start, the separator just before each part but the first, nothing after the last |
| Text.Utf16Length | Services/BookImportService.cs:255 | Each character takes one or two UTF-16 code units |
| Text.Utf16Bmp | Services/BookImportService.cs:255 | Below U+10000 the unit count is the character count |
| Text.Utf16Wide | Services/BookImportService.cs:255 | Characters from U+10000 up take two units each |
| Text.SupplementaryCountsTwice | ViewModels/DirectoryCompareViewModel.cs:336-337 | One character outside the Basic Multilingual Plane is two units, and "ab" followed by it is four |
| Text.Utf16Injective | ViewModels/DirectoryCompareViewModel.cs:333-334 | Different strings have different code units |
| Text.IntToString | ViewModels/MainWindowViewModel.cs:542 | A minus sign or a digit first, and a digit last |
| Text.NatToStringValue | ViewModels/MainWindowViewModel.cs:542 | The digits written denote the number |
| Text.TryParseInt | ViewModels/MainWindowViewModel.cs:408 | A parsed value is in the 32-bit range |
| Text.IntToStringParses | ViewModels/MainWindowViewModel.cs:408 | Parsing an Id written out gives the Id back |
| Text.GetExtension | Services/BookImportService.cs:39 | The extension is empty or a dot and a non-empty run without dots or separators at the end of the path |
| Text.GetFileNameWithoutExtension | Services/BookImportService.cs:133 | The stem has no separators |
| Text.StemAndExtension | Services/BookImportService.cs:133-134 | Stem then extension give back the file name, unless it ends in a bare dot |

## Left out

- Async and threading: awaits, `Task.Run` and the fire-and-forget calls are modelled as sequential calls. The main window's constructor loads its list synchronously.
- Message boxes, status texts, logging and `Process.Start` (opening the file in its viewer) are not modelled.
- Exceptions caught per item are modelled as given outcomes: a `fails` function for the store call of each import path, and `length` or `fileLength` for the file-size lookup. Any other exception inside a `catch` is not modelled.
- The folder import commands, `LoadCategoriesAsync`, `SearchBooksAsync` of the window, and the category commands of the window are not modelled; only their building blocks are.
- `GetAllBooksAsync` is the store's `rows`, and `GetAllCategoriesAsync` its `categories` map; neither has a member of its own.
- `ToLower`, `ToLowerInvariant` and `OrdinalIgnoreCase` fold ASCII letters only. Culture-specific folding is not modelled, and `Trim` uses a fixed set of white-space characters.
- The title comparer of `OrderBy(b => b.Title)` is a parameter `titleLe`. Its ordering is assumed total only in the lemma that proves the output sorted.
- The "n2" rendering of the size is a parameter `formatNumber`; only the number and the unit are modelled.
- `decimal` arithmetic in FormatFileSize is modelled with exact reals.
- `double` arithmetic in CalculateSimilarity is modelled with exact reals. Only the threshold test's agreement with `10 d < 3 max(n, m)` is proved.
- Book records are values, not the tracked objects of the data context.
  - LoadBooks' in-place merge into the first record of a group changes that record in the table too; the model merges into a copy and leaves the table unchanged.
  - A BookViewModel's record is its own copy.
  - A CategoryViewModel's category is a copy, so ToModel returns the updated value rather than the same shared object.
- Category books: the links of a category keep the order in which they were written, and loading gives the books in that order. The database does not define the order of a loaded collection.
- CategoryService.CategoryStore.UpdateCategoryBooks records the Ids of the given records. A record that is not yet in the Books table would be inserted by the data context; the only caller passes stored records.
- BookImport.ImportBooks and BookImport.ParseBooksMetadata: one instant `now` stands for the clock of the whole batch. The source reads `DateTime.Now` once per record, so the records of one batch may carry different import dates.
- Text.FileName: a drive-relative path such as "C:book.pdf" keeps "C:" in the file name, where Windows' `Path.GetFileName` drops it. The import paths come from folder and file dialogs, which give absolute paths.
- BookService.BookStore.AddBook: a record with a negative Id is refused like one whose Id is taken, so that keys stay positive; the database would store it under that key. Id 0 gets the next key, as the database generates it. Saving a new book's tags as new Tag rows is not modelled.
- BookService.BookStore.UpdateBook: the tags of the stored row are kept. Updating tag links, which EF does for a tracked graph, is not modelled.
- CategoryService.CategoryStore.DeleteCategory: cascade or restrict behaviour toward child categories and book links is not modelled; only the row is removed.
- CategoryService.CategoryStore.CategoryById: child rows are loaded one level deep, and `RootCategories` three levels deep, as the Include chains do. The tree is not otherwise tied to the parent keys.
- Null Tags, Children, FileExtensions, paths, names and book arguments are not representable, except where a member takes an `Option`. Title and FilePath of a record are non-null strings.
- BookView.BookViewModel.UpdateModel requires title and path to be set, since the record's fields are non-null strings.
- BookView.FormatNames: `StartsWith("格式:")` is culture-sensitive, so ignorable characters such as a zero-width joiner in front of the prefix would still match. The model tests the prefix ordinally.
- Text.TryParseInt: int.TryParse's acceptance of trailing NUL characters and of culture-specific signs is not modelled.
- The two classes named `BoolToVisibilityConverter` and the two named `SingleSelectedConverter` are declared in separate modules (`BoolToVisibilityConverter` and `UsingConverters`, `SingleSelectedConverter` and `UsingConverters`); which one the build would use is not decided.
- BoolToVisibilityConverter.ConvertBack: a value that is not a Visibility makes the unboxing cast throw; the model's argument is a Visibility.
- MainWindow.MainWindowViewModel.ChangeCategory requires an Id in the 32-bit range, the type of the source's argument.
- SingleSelectedConverter.Convert: a null values array is not representable.
