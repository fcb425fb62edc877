# Audiarr in Dafny

A model of the stateful algorithms of Audiarr, with proofs of what each of them keeps, undoes or
computes. `dafny verify dfyconfig.toml` checks the whole project.

Python 3.12 semantics are assumed where they matter (`PurePath.suffix`, `os.walk`). Integers are
unbounded as in Python. Between two `await`s code is one atomic step of a single event loop.

| module | what it models |
|---|---|
| `Text`, `Paths`, `Options` | Python string operations; canonical absolute paths, their strings, lexical `resolve()`, the three containment tests |
| `Naming`, `Cleaning` | sanitising a path component, rendering a naming pattern, rendering a file name |
| `FileTree` | the file system as a map from path to file identity with its content; single steps that may fail and then change nothing; sequences of fresh moves and their undoing |
| `OrganizePlan`, `Organizer`, `OrganizeTargets`, `OrganizeBook`, `OrganizeExamples` | preview, apply, rollback and path update of one book's files; targets in terms of the book; whole requests |
| `Placement`, `ImportCandidate` | copying, moving or hard-linking a scanned candidate's files into a root folder, all or nothing |
| `RootFolders`, `RemotePath`, `TorrentPoller` | which root governs a path, remote path mappings, which completed torrents are imported and which are looked at again |
| `Scanner` | the pruned directory walk |
| `RssFeed`, `Isbn` | the feed handlers over the events of an XML tree, the row loops; ISBN arithmetic |
| `Follows`, `FollowRuns`, `FollowRefresh`, `FollowHistory`, `FollowDates`, `FollowAnswers` | follow candidates over tables of books, attributions and candidates; single operations, a whole refresh, any sequence of operations; what a row's own date decides |
| `Upgrades`, `WantedScheduler` | quality tiers, the cutoff list, the choice of a release; the periodic search and its guard against grabbing twice |
| `LoginLimiter` | pruned deques shared through a dictionary against the full history of failures |
| `Secrets` | write-only download-client secrets when settings are saved back |
| `ConversionQueue`, `ConversionOriginals` | conversion jobs under every interleaving of their steps; deleting originals |

What comes from outside (a provider's response, a search result, a grab's outcome, the clock, free
disk space, whether a single file operation fails, what can be inferred from a release name) is a
parameter.

## Where an expected property fails

Each of these is kept as the code has it, shown by an example or by the exact condition.

- Organising moves the files first and updates the rows afterwards. When another row already
  records a target path, the UNIQUE column refuses the update with the files already moved
  (`PathUpdateRefused`, `RecordedTargetExample`). When two rows name one file by different
  strings (the converter's callback keeps `..` in the path it reports), the file of the row that
  stays can be moved away (`RowsIntactIff`, `SharedFileExample`), and organising again then finds
  it missing instead of unchanged (`OrganizeFixpoint`, `OrganizeAgainExample`).
- A root folder stored with `..` as its last component is scanned as a folder called `..`. The
  traversal guard then refuses the audio files lying directly in it (`CandidateContained`,
  `ParentRootRefused`).
- A file name's extension is not sanitised (`FilenameSafety`, `UnsafeSuffixKept`).
- The scanner's docstring promises a candidate for each folder containing audio; only the root and
  its immediate children are ever found (`PromiseKeptIff`, `ScanFindsIff`, `NestedBookMissed`).
- The docstring of the remote path mapping says a single trailing separator is stripped; the code
  strips all of them, and the model follows the code. A mapping whose local path is only
  separators does not map back (`ThereAndBack`, `RootMappingStays`).
- The queries for root folders name no order, so with nested roots two lookups may pick different
  roots (`SameRootIff`, `NestedRootsDiffer`).
- Retrying a conversion job is the one way of queueing a job without the one-active-job guard
  (`OneActiveRunIff`, `RetryBreaks`). A backend verdict that arrives late overwrites a completed
  job: an error ends it as failed, a success blanks the recorded path of the converted file
  (`CompletedStays`, `CompletedRunIff`, `LateVerdictOverwrites`).
- A release accepted only through the allowed formats leaves the book on the cutoff list
  (`UpgradeConverges`, `AllowedFormatKeepsListed`).
- The retry time of the login limiter is too short when failures are recorded without a check
  first (`RetryTooShortWhenUnchecked`). This is a property of the class alone: the login route, the
  only caller that records failures, always checks first. The class comment says that successful
  logins do not clear the window; the route resets it, and the model follows the route.
- A feed child whose name ends in a colon has an empty local name, and its text is lost
  (`OneField`, `ColonNameLosesText`).
- The ISBN-13 check misses swaps of digits that carry the same weight or differ by five
  (`Isbn13SwapIff`, `Isbn13SwapMissed`).

## Model

| member | source | states |
|---|---|---|
| `Paths.ResolveOfShow` | app/library/organizer.py:197-214 | the string stored for a canonical path resolves back to that path and has its last component as name |
| `Paths.ContainmentTestsAgree` | app/sab_auto_import.py:104-132 | for all canonical paths, root `/` and siblings sharing a text prefix included, the two string tests and the common-path test decide exactly component-wise containment (strict for the strict one) |
| `Naming.SanitizedComponent` | app/library/organizer.py:57-70 | a surviving component is a proper name without unsafe characters; sanitising is idempotent |
| `Naming.SanitizeKeepsVisible` | app/library/organizer.py:57-70 | sanitising keeps the visible text, and yields nothing only for text that is empty, `.` or `..` |
| `Cleaning.WordCleaned` | app/library/organizer.py:57-70 | text of visible characters only is left as it is |
| `Cleaning.GapCleaned` | app/library/organizer.py:57-70 | between visible text, a run of white space and unsafe characters becomes one space if it holds a safe space, and vanishes otherwise |
| `Cleaning.OuterCleaned` | app/library/organizer.py:57-70 | such a run before or after the visible text vanishes; with the two laws above this gives the cleaned text of every string |
| `Naming.SubstituteToken` | app/library/organizer.py:108-120 | a token becomes its value, an unknown one nothing, the text around it is untouched |
| `Naming.SubstituteBrace` | app/library/organizer.py:43-116 | a brace that opens no token of word characters is copied |
| `Naming.RenderedComponents` | app/library/organizer.py:108-120 | whatever the pattern and the values, each rendered component is a proper tidy name and there are no more of them than segments; which ones and in what order: the next two rows |
| `Naming.RenderJoined` | app/library/organizer.py:108-120 | rendering `a/b` gives the components of `a` followed by those of `b` |
| `Naming.RenderOne` | app/library/organizer.py:108-120 | a pattern without `/` gives its one sanitised substitution, or nothing |
| `Naming.FilenameIsName` | app/library/organizer.py:123-133 | the rendered file name is one proper path component |
| `Naming.NoSuffix` | app/library/organizer.py:129-132 | a name without a dot, with only a leading one, or ending in one has no extension |
| `Naming.FilenameStable` | app/library/organizer.py:123-133 | rendering the name from its own output gives it back, the `file-<id>` fallback included |
| `Naming.FilenameSafety` | app/library/organizer.py:123-133 | the name is free of unsafe characters iff the original extension is |
| `Naming.UnsafeSuffixKept` | app/library/organizer.py:123-133 | a converted file reported as `a.m4b?` keeps its question mark |
| `FileTree.AfterFresh` | app/library/organizer.py:283-290 | moves to fresh distinct targets made one after the other amount to one simultaneous relocation |
| `FileTree.UndoOne` | app/library/organizer.py:291-302 | undoing one of several fresh moves leaves exactly the others |
| `FileTree.RollbackExact` | app/library/organizer.py:291-307 | whatever subset of the undo steps succeeds, what stays displaced is exactly the moves reported as not restored |
| `FileTree.RollbackComplete` | app/library/organizer.py:291-307 | with every undo successful the starting file map is back |
| `Organizer.TargetBelowRoot` | app/library/organizer.py:191-214 | every target lies strictly beneath the root, so `outside_root` is unreachable |
| `OrganizePlan.CountTargets` | app/library/organizer.py:234-238 | the counter of targets is, per target, the number of candidates to be moved there |
| `OrganizePlan.ClassifyMeaning` | app/library/organizer.py:240-263 | unchanged iff in place; conflict iff the target exists or another moved candidate has it; ready otherwise |
| `Organizer.BuildPreview` | app/library/organizer.py:174-268 | the two loops compute the items of the preview, safe iff each item is; `OrganizeTargets.PreviewSays` says what they are and `DefaultTarget` where they lead |
| `OrganizeTargets.DefaultTarget` | app/library/organizer.py:73-133 | by the default pattern (app/models/settings.py:67) the target is the root, the first author, the series, the title with the year in brackets, each sanitised and dropped when nothing is left, and the file's own stem and extension, `file-<id>` standing in for an empty stem |
| `OrganizeTargets.TidyTarget` | app/library/organizer.py:73-133 | tidy author, series, title, year and stem appear in that path as they are |
| `OrganizeTargets.OtherTokens` | app/library/organizer.py:73-105 | each other token gives its own value: joined authors and narrators, first narrator, series position, quality, book id, codec, bitrate |
| `OrganizeTargets.NamesJoined` | app/library/organizer.py:87-97 | joined lists of names are joined by one comma and space |
| `OrganizeTargets.DecimalReads` | app/library/organizer.py:102 | the book id is written in decimal without leading zeros |
| `OrganizeTargets.TargetParts` | app/library/organizer.py:191-214 | a target is the root, the rendered components and the rendered file name |
| `OrganizeTargets.PreviewSays` | app/library/organizer.py:174-268 | a preview has one item for every row: missing iff its file is not there, unchanged iff it is at its target, in conflict iff the target exists or another present file to be moved has it, ready otherwise |
| `Organizer.SafePreview` | app/library/organizer.py:174-268 | a safe preview has one item per row in order, and its ready targets are free and pairwise distinct |
| `Organizer.MoveFiles` | app/library/organizer.py:283-290 | the moves made are a prefix of the plan, each from a present source |
| `Organizer.RollBack` | app/library/organizer.py:291-307 | undo steps in reverse order, each reported, with exactly the effect of those that succeeded |
| `Organizer.UpdatePaths` | app/library/organizer.py:309-310 | all row updates or none, refused iff one of them clashes with the UNIQUE path column |
| `Organizer.LibraryTable.SetPath` | app/db_migrations/002_library.sql:93-96 | one update, refused iff another row holds the path |
| `Organizer.ApplyPreview` | app/library/organizer.py:271-312 | the four outcomes with their exact file maps and rows |
| `OrganizeBook.PresentIsFresh` | app/library/organizer.py:283-290 | moves that all succeeded took distinct files to distinct free targets |
| `OrganizeBook.PathUpdateRefused` | app/library/organizer.py:309-310 | the row update fails after the moves iff some other row already records a ready target |
| `OrganizeBook.RowsIntactIff` | app/library/organizer.py:271-312 | after success each row points to an existing file with its original content iff no moved file is shared with a row that stayed |
| `OrganizeBook.TargetStable` | app/library/organizer.py:191-214 | a file at its own target renders to that target again |
| `OrganizeBook.OrganizeFixpoint` | app/library/organizer.py:174-312 | a fresh preview after a successful apply marks each file unchanged iff no moved file was shared with a row that stayed |
| `OrganizeBook.OrganizeBook` | app/api/routes_library.py:709-730 | a request is refused, or moves each ready file to its own fresh target without overwriting (and organising again then changes nothing iff no file was shared), or leaves exactly the reported moves displaced with no row touched, or raises iff a target is recorded elsewhere |
| `OrganizeExamples.SharedFileExample` | app/library/organizer.py:174-312 | an imported path and a converter's path through `..` name one file: a safe preview, in which the file of the row that stays is to be moved |
| `OrganizeExamples.OrganizeAgainExample` | app/library/organizer.py:174-312 | after organising these two rows, the next preview is not unchanged throughout |
| `OrganizeExamples.RecordedTargetExample` | app/library/organizer.py:309-312 | with a stale row recording the target, the same preview is safe and its row update is refused |
| `Placement.ContainedIff` | app/library/import_strategy.py:78-96 | the traversal guard accepts exactly the targets inside the root |
| `Placement.CheckFreeSpace` | app/library/import_strategy.py:99-117 | the upward probe compares the free space at the nearest existing ancestor |
| `Placement.NearestIsLongest` | app/library/import_strategy.py:99-117 | that ancestor is the longest existing prefix of the destination |
| `Placement.PlaceFile` | app/library/import_strategy.py:120-157 | under each strategy, what became of source and target: only a move takes the source away, a copy gets an inode of its own, and the label reported is the one asked for (a refused hard link may be a copy, only with room for it), or nothing changed |
| `Placement.UndoStep` | app/library/import_strategy.py:203-215 | undoing the newest step restores the state before it |
| `Placement.UndoPlaced` | app/library/import_strategy.py:203-215 | undo newest first, each step reported, with exactly the effect of those that succeeded; when all do, the entry files are back, even when a later target reused a path freed by a move |
| `Placement.AllUndone` | app/library/import_strategy.py:203-215 | when every undo succeeds, each step back leads to the state before it |
| `Placement.PlaceAll` | app/library/import_strategy.py:191-220 | the placing loop: every file not in place is placed as the strategy asks, state by state, each fallback copy with room for it, or the steps taken undone with exactly the reported effect |
| `Placement.PlaceCandidateFiles` | app/library/import_strategy.py:160-220 | traversal iff some target escapes, insufficient space iff copies or moves need more bytes than are free, success places each file as the strategy asks and in input order, failure undoes with exactly the reported effect |
| `ImportCandidate.ResolveJoin` | app/library/importer.py:303-319 | a joined source path resolves to the folder's path and the file's name |
| `ImportCandidate.ResolveDots` | app/library/import_strategy.py:78-96 | `..` resolves to the parent, `.` and empty components to the path itself, the empty string to the working directory |
| `ImportCandidate.CandidateContained` | app/library/importer.py:303-319 | the traversal guard rejects a file of a scanned candidate iff its folder is called `..` and the file is not called like the root folder |
| `ImportCandidate.NameShapes` | app/library/scanner.py:224-252 | the folder name the scanner reports is empty, `..` or a proper name |
| `ImportCandidate.ParentRootRefused` | app/library/importer.py:155-166 | a root stored as `/media/books/..` with a loose audio file: the scanner finds it, the candidate is called `..`, and the guard refuses it |
| `ImportCandidate.CandidateSeparate` | app/library/importer.py:303-319 | for every scanned candidate, sources and targets are disjoint and distinct, or all files are in place already |
| `ImportCandidate.SeparatePlacement` | app/library/import_strategy.py:160-220 | on separate sources and targets content arrives (a copy under its own inode), nothing is overwritten, and only moves take a source away |
| `ImportCandidate.StrategyKeeps` | app/library/import_strategy.py:146-157 | copies and hard links keep every file that was there, each copy has an inode no other file has, and an unknown strategy places nothing |
| `ImportCandidate.MovesTake` | app/library/import_strategy.py:146-157 | moves take every source away and leave its file at the target |
| `ImportCandidate.EveryByteTransferred` | app/library/import_strategy.py:186-189 | for a candidate not in place the bytes to transfer are the sizes of all its files |
| `ImportCandidate.UndoExact` | app/library/import_strategy.py:203-215 | on separate steps, what is left displaced or left behind is exactly the steps whose undo failed |
| `ImportCandidate.FailureExact` | app/library/import_strategy.py:191-218 | after a failed placement of separate inputs the steps were taken in input order, and exactly those whose undo failed remain |
| `ImportCandidate.PlaceCandidate` | app/library/importer.py:303-319 | refused iff some file escapes through a folder called `..`; insufficient space iff a copy or move is larger than what is free; otherwise all or nothing: a copy or hard link keeps every file, a move leaves no source behind, each copy has its own inode, each final path holds its source's content; after a failure exactly the steps whose undo failed remain |
| `RssFeed.InsideField` | app/reading_lists.py:458-486 | inside a field only its text is collected |
| `RssFeed.OneField` | app/reading_lists.py:458-486 | a child element records its whole descendant text under its local name, the first occurrence winning |
| `RssFeed.ColonNameLosesText` | app/reading_lists.py:436-486 | an element called `a:` has text and nothing of it is recorded |
| `RssFeed.InsideItem` | app/reading_lists.py:458-486 | an item's events leave the recursive reading of its children |
| `RssFeed.OneItem` | app/reading_lists.py:458-486 | an outermost item is recorded once, whatever is nested in it |
| `RssFeed.OutsideItems` | app/reading_lists.py:458-486 | between items only outermost `item` elements are recorded, in document order |
| `RssFeed.HandlersReadTree` | app/reading_lists.py:440-528 | over the events of any tree the handlers give the recursive answer, capped, with `truncated` iff there were more items |
| `RssFeed.FieldsAreFirst` | app/reading_lists.py:458-481 | a field of an item is the text of its first child element of that local name, and there are no other fields |
| `RssFeed.TextInOrder` | app/reading_lists.py:483-485 | the text of an element is all character data below it, in document order |
| `RssFeed.ItemsInOrder` | app/reading_lists.py:440-486 | items are listed in document order |
| `RssFeed.ItemsOfOne` | app/reading_lists.py:463-478 | an `item` element is one item, whatever is nested in it, and any other element has the items nested in it |
| `RssFeed.LocalIs` | app/reading_lists.py:436-437 | the local name is the part after the last colon in small letters |
| `RssFeed.ChannelRead` | app/reading_lists.py:440-528 | what is recorded of a document with prefixes, capitals, two titles, nested text and a nested item |
| `RssFeed.RssHandler.Start` | app/reading_lists.py:458-468 | the start handler's whole new state |
| `RssFeed.RssHandler.End` | app/reading_lists.py:470-481 | the end handler's whole new state |
| `RssFeed.RssHandler.CharData` | app/reading_lists.py:483-486 | the character handler's whole new state |
| `RssFeed.RssHandler.Feed` | app/reading_lists.py:487-499 | feeding events is folding the handlers over them |
| `RssFeed.CollectedKeys` | app/reading_lists.py:283-288 | collected keys are unique and each titled row's key is among them |
| `RssFeed.CollectedFirst` | app/reading_lists.py:283-288 | exactly the first row of each key is kept, unaltered |
| `RssFeed.CollectEntries` | app/reading_lists.py:503-528 | total rows = entries + skipped + duplicates, skipped being the number of rows without a title |
| `RssFeed.ParseGoodreadsRss` | app/reading_lists.py:440-528 | a document is refused iff its root is not `rss`; otherwise entries and counts follow from its tree, of whose items the first 2000 are considered |
| `RssFeed.SelectCsvRows` | app/reading_lists.py:580-663 | blank rows never count, and of the others the first 2000 are considered |
| `RssFeed.NonBlankInOrder` | app/reading_lists.py:612-618 | a row counts iff it is not blank, and counted rows keep their order |
| `Isbn.Isbn10SingleChange` | app/reading_lists.py:164-168 | every change of one character of a valid ISBN-10 is rejected |
| `Isbn.Isbn10Swap` | app/reading_lists.py:164-168 | every swap of two different characters of a valid ISBN-10 is rejected |
| `Isbn.Isbn13Sum` | app/reading_lists.py:171-175 | the check-digit formula says that the weighted sum of all thirteen digits is a multiple of ten |
| `Isbn.Isbn13SingleChange` | app/reading_lists.py:171-175 | every change of one character of a valid ISBN-13 is rejected |
| `Isbn.Isbn13SwapIff` | app/reading_lists.py:171-175 | a swap is accepted iff the digits carry equal weight, are equal or differ by five |
| `Isbn.Isbn13SwapMissed` | app/reading_lists.py:171-175 | two adjacent digits of 9780306406157 swapped, and still valid |
| `Isbn.ConversionValid` | app/reading_lists.py:193-196 | every valid ISBN-10 converts to a valid ISBN-13 |
| `Isbn.ConversionInjective` | app/reading_lists.py:193-196 | different valid ISBN-10s convert to different ISBN-13s |
| `Isbn.ConversionImage` | app/reading_lists.py:193-196 | a valid ISBN-13 is a conversion iff it starts with 978 |
| `Isbn.PrintedIsbns` | app/reading_lists.py:164-168 | three ISBN-10s as printed are valid, one of them ending in `X` |
| `Isbn.PrintedConverted` | app/reading_lists.py:193-196 | 0306406152 converts to 9780306406157 |
| `Isbn.NormalizeMeans` | app/reading_lists.py:178-190 | normalising yields a valid ISBN or nothing, keeps every valid one, and is idempotent |
| `Isbn.SeparatorIgnored` | app/reading_lists.py:178-190 | `=`, quotes, hyphens and white space anywhere never change the result |
| `Isbn.LetterCaseIgnored` | app/reading_lists.py:178-190 | a small letter gives the result of the capital one |
| `Isbn.WrittenForms` | app/reading_lists.py:178-190 | the spreadsheet form of a Goodreads export and a hyphenated ISBN with a small `x` give the plain ones |
| `Isbn.IsbnVariants` | app/reading_lists.py:199-208 | the loop collects exactly the forms of each given ISBN |
| `Isbn.OverlapIff` | app/reading_lists.py:199-208 | two valid ISBNs share a form iff they stand for the same ISBN-13 |
| `Isbn.OverlapEquivalence` | app/reading_lists.py:199-208 | overlap is an equivalence on valid ISBNs, with at most one ISBN of each length in a class |
| `Follows.FollowStore.ReconcileAdded` | app/api/routes_follows.py:165-186 | new state of the candidate table |
| `Follows.FollowStore.CreateCandidateBook` | app/api/routes_follows.py:229-254 | new state of books, attributions and the candidate |
| `Follows.FollowStore.AddProviderId` | app/library/__init__.py:114-131 | a blank or repeated attribution is ignored |
| `Follows.FollowStore.MaterializeFuture` | app/api/routes_follows.py:257-268 | new state, with the number of books created |
| `Follows.FollowStore.UpsertCandidate` | app/api/routes_follows.py:279-318 | new state, with whether a row was inserted; afterwards there is a row for the hit with its metadata, `future` only with a date after today and `backlog` only without one, excluded and added rows keeping their status |
| `Follows.FollowStore.Refresh` | app/api/routes_follows.py:410-440 | the writing half of a refresh: new state and counts; `FollowDates.RefreshDates`, `RefreshOthers` and `RefreshCovers` say what becomes of every row |
| `Follows.FollowStore.Exclude` | app/api/routes_follows.py:482-499 | new state and the changed and skipped lists, with a missing follow refused |
| `Follows.FollowStore.Restore` | app/api/routes_follows.py:503-528 | new state and the changed and skipped lists, with a missing follow refused |
| `Follows.FollowStore.Add` | app/api/routes_follows.py:532-558 | new state and the changed and skipped lists, with a missing follow refused |
| `FollowAnswers.ExcludeAnswerMeans` | app/api/routes_follows.py:482-499 | each requested id is answered once and in the order given: changed iff a row with that id has changed, otherwise skipped as not found or with the status it has |
| `FollowAnswers.RestoreAnswerMeans` | app/api/routes_follows.py:503-528 | the same for restoring |
| `FollowAnswers.AddAnswerMeans` | app/api/routes_follows.py:532-558 | the same for adding, where each id is judged after the books for the ids before it exist; a backlog row is skipped only as owned |
| `FollowAnswers.DistinctInOrder` | app/api/routes_follows.py:470-479 | repeated ids are dropped and first mentions keep their order |
| `FollowRuns.OwnedMeans` | app/api/routes_follows.py:149-162 | an id is owned iff a live attributed book or a book with that ASIN exists; the owner is live, and an attributed one when there is any |
| `FollowRuns.OwnedStays` | app/api/routes_follows.py:149-162 | an owned id stays owned while books are only added |
| `FollowRuns.ReconcileKeeps` | app/api/routes_follows.py:165-186 | reconciling keeps the table invariant and leaves each added row of its scope linked |
| `FollowRuns.CreateKeeps` | app/api/routes_follows.py:229-254 | creating a candidate's book keeps the table invariant and every other row |
| `FollowRuns.CreateKeepsOwners` | app/api/routes_follows.py:229-254 | creating a book for an unowned id gives no id a second copy, attributed or by ASIN, and changes no copies an id had |
| `FollowRefresh.UpsertedMeans` | app/api/routes_follows.py:279-318 | the upsert loop in closed form, repeated hits included, with a hit for each row it inserts |
| `FollowRefresh.MaterializedMeans` | app/api/routes_follows.py:257-268 | afterwards every remaining future candidate is already owned |
| `FollowRefresh.RefreshMeans` | app/api/routes_follows.py:410-440 | after any refresh future candidates are owned, added ones have a live book, owners are kept |
| `FollowRefresh.RefreshIdempotent` | app/api/routes_follows.py:410-440 | a second refresh with the same response on the same day changes nothing |
| `FollowDates.ReconciledMeans` | app/api/routes_follows.py:165-186 | an added row of the scope that lost its book is linked to a copy of its id when there is one, and otherwise returns to `future` or `backlog` by its own date; no other row changes |
| `FollowDates.MaterializedGives` | app/api/routes_follows.py:257-268 | exactly the future rows of the follow without a copy get a book, each a new one |
| `FollowDates.RefreshDates` | app/api/routes_follows.py:133-440 | every row with a hit takes the metadata of its last hit; it is `backlog` only without a date after today, `future` only with one and a copy in the library, and gets a new book only with such a date and no copy; excluded rows stay excluded and linked rows keep their book |
| `FollowDates.RefreshOthers` | app/api/routes_follows.py:410-440 | rows of other follows are untouched; rows without a hit keep everything but their repair and the book a future one gets |
| `FollowDates.RefreshCovers` | app/api/routes_follows.py:410-440 | each hit with an ASIN or uid has a row, keyed by the ASIN first, and each new row has a hit |
| `FollowDates.RestoredDates` | app/api/routes_follows.py:503-528 | a selected excluded row comes back by its own date: `backlog` without one after today, else `future` with a copy and added with a new book without one; an unselected one is untouched |
| `FollowDates.ExcludedMeans` | app/api/routes_follows.py:482-499 | exactly the selected pending rows become excluded, repaired ones included |
| `FollowDates.AddedMeans` | app/api/routes_follows.py:532-558 | exactly the selected backlog rows without a copy get a new book, repaired ones included |
| `FollowHistory.ApplyKeeps` | app/api/routes_follows.py:482-558 | each operation keeps the invariant and unique keys, makes only allowed transitions, and only book deletion changes owners |
| `FollowHistory.WithoutBookMeans` | app/library/__init__.py:258-260 | deleting a book leaves exactly the other books live |
| `FollowHistory.BookDeletedKeeps` | app/library/__init__.py:258-260 | deleting a book keeps the invariant, every attribution and every row, and unlinks only the rows linked to that book |
| `FollowHistory.FollowDeletedKeeps` | app/api/routes_follows.py:353-358 | deleting a follow removes exactly its own candidates, keeps all books and the invariant, and does nothing when the follow is missing |
| `FollowHistory.RunConsistent` | app/api/routes_follows.py:149-187 | over any sequence of operations candidate keys stay unique per follow and links point to live books |
| `FollowHistory.RunSingleOwners` | app/api/routes_follows.py:229-268 | from any consistent library with one owner per provider id, every sequence of operations keeps it so |
| `FollowHistory.RunNoSecondCopy` | app/api/routes_follows.py:149-268 | from any consistent library, imported books and ASINs included, no sequence of operations gives a provider id a second live copy it did not have at the start |
| `FollowHistory.RunFromEmpty` | app/api/routes_follows.py:229-268 | in particular from an empty library |
| `FollowHistory.ExcludedUntilRestored` | app/api/routes_follows.py:482-528 | an excluded candidate leaves that status only through a restore of its follow naming it |
| `FollowHistory.AddedUntilBookDeleted` | app/api/routes_follows.py:165-187 | an added candidate loses its book or its status only after that very book was deleted |
| `Upgrades.EvaluateMeans` | app/quality.py:119-177 | the matched tier is the first fitting one, below cutoff iff it comes after the cutoff, allowed formats deciding without a tier |
| `Upgrades.EvaluateIs` | app/quality.py:98-177 | each verdict and match on the plain fields: the tier is the best one whose last definition agrees with all that is known, an unknown codec or bitrate being no obstacle; a cutoff the profile does not list comes before no tier |
| `Upgrades.BestCurrentFit` | app/api/routes_wanted.py:118-140 | the loop returns the first file with the least tier |
| `Upgrades.BestTierUnique` | app/api/routes_wanted.py:118-140 | the best tier does not depend on the order of the files |
| `Upgrades.ListCutoffCandidates` | app/api/routes_wanted.py:194-255 | exactly the monitored books whose best file is below the cutoff, in row order |
| `Upgrades.IsListed` | app/api/routes_wanted.py:194-255 | one book's decision |
| `Upgrades.CutoffListIs` | app/api/routes_wanted.py:118-255 | an upgrade is wanted iff the profile allows it, some file has a tier, and every file with one has it after the cutoff |
| `Upgrades.ListedInOrder` | app/api/routes_wanted.py:194-255 | listed books keep the order of the rows |
| `Upgrades.StableSortOrdered` | app/api/routes_wanted.py:334 | the sort is an ordered permutation |
| `Upgrades.SortedHead` | app/api/routes_wanted.py:334-335 | its head is the first lexicographic minimum of (tier, -preference, -seeders) |
| `Upgrades.FindFittingRelease` | app/api/routes_wanted.py:309-335 | on the releases' own fields: none iff no release is acceptable; otherwise no acceptable one has a better tier, a higher score in the same tier, or more seeders at the same score, and the chosen one is the earliest of its equals |
| `Upgrades.FittingIs` | app/api/routes_wanted.py:309-321 | acceptable: not blocked, with a tier not after the cutoff, or without a tier in an allowed format |
| `Upgrades.BeforeIs` | app/api/routes_wanted.py:322-334 | the sort key puts a better tier first, no tier last, then the higher score, then more seeders |
| `Upgrades.BestAfterAdding` | app/api/routes_wanted.py:118-140 | adding a file anywhere keeps the better of the old best tier and its own |
| `Upgrades.UpgradeConverges` | app/api/routes_wanted.py:194-335 | adding a file of an accepted release's quality takes the book off the list iff the release matched a tier |
| `Upgrades.AllowedFormatKeepsListed` | app/api/routes_wanted.py:194-335 | an accepted release without a tier leaves a listed book listed |
| `WantedScheduler.WantedSearchScheduler.ProcessAll` | app/wanted_scheduler.py:84-181 | new state, counters, and exactly which books are grabbed; afterwards a book is marked iff it was and is listed, or was grabbed, and as many are counted as grabbed |
| `WantedScheduler.WantedSearchScheduler.RunOnce` | app/wanted_scheduler.py:68-82 | a tick is skipped while another is in progress, and the flag is cleared afterwards |
| `WantedScheduler.CountersAddUp` | app/wanted_scheduler.py:84-181 | grabbed + no release + skipped + errors = candidates looked at |
| `WantedScheduler.CountersTell` | app/wanted_scheduler.py:97-181 | each counter is the number of candidates that were marked before, raised, came to nothing or were grabbed |
| `WantedScheduler.TickRecords` | app/wanted_scheduler.py:98-181 | after a searching tick a book is marked iff it was marked and is listed or a release for it was accepted with a downloader; it is recorded as without a release iff its search came to nothing, or raised and it was so before |
| `WantedScheduler.TickGrabs` | app/wanted_scheduler.py:98-179 | a grab is made exactly for the unmarked books with an accepted release |
| `WantedScheduler.StateCovered` | app/wanted_scheduler.py:199-228 | after pruning, stored state covers only current candidates |
| `WantedScheduler.GrabMarks` | app/wanted_scheduler.py:149-179 | a book grabbed in a tick is marked at its end |
| `WantedScheduler.MarkProtects` | app/wanted_scheduler.py:98-108 | a tick that lists a marked book neither grabs it nor forgets the mark |
| `WantedScheduler.GrabsSeparated` | app/wanted_scheduler.py:84-181 | over any ticks and outcomes, two grabs of one book are separated by a searching tick that did not list it |
| `WantedScheduler.MarkedIff` | app/wanted_scheduler.py:84-228 | after any ticks a book is marked iff it was at the start or a release was accepted in some tick, and every searching tick since lists it |
| `WantedScheduler.MarkComesFromGrab` | app/wanted_scheduler.py:84-181 | a mark not there at the start comes from a grab in an earlier tick |
| `LoginLimiter.LoginRateLimiter.Prune` | app/auth.py:105-113 | the live deque is exactly the part of the full history inside the window, and empty deques leave the dictionary |
| `LoginLimiter.LoginRateLimiter.Check` | app/auth.py:115-122 | allowed iff fewer than the maximum failures of the full history lie in the window, that is, there are fewer at all or the one max places from the end has expired |
| `LoginLimiter.AllowedIff` | app/auth.py:105-122 | counting the window is the same as looking at the failure max places from the end |
| `LoginLimiter.LoginRateLimiter.RecordFailure` | app/auth.py:124-129 | the failure is appended to the full history of its client only |
| `LoginLimiter.LoginRateLimiter.Reset` | app/auth.py:131-133 | the history of one client is forgotten |
| `LoginLimiter.RetryMeans` | app/auth.py:115-122 | waiting n seconds is enough iff the entry max places from the end has expired by then |
| `LoginLimiter.RetryLeast` | app/auth.py:115-122 | under the route's use the answer is the least whole number of seconds, at least 1, after which a check allows |
| `LoginLimiter.RecordKeepsSpread` | app/api/routes_auth.py:86-109 | recording after an allowing check keeps any max + 1 failures a window apart |
| `LoginLimiter.SpreadBoundsWindows` | app/auth.py:85-133 | then no window of that length, wherever placed, holds more than the maximum: the failure max places earlier lies before it |
| `LoginLimiter.Login` | app/api/routes_auth.py:86-109 | the route keeps that bound for every client, refuses iff the failure max places from the end is still in the window, and answers with the least whole number of seconds after which it is not |
| `LoginLimiter.RetryTooShortWhenUnchecked` | app/auth.py:115-129 | failures recorded without the check, which no route does, make the answer too short |
| `RemotePath.ResolveRemotePath` | app/remote_path_mapping.py:30-54 | the first of the longest enabled mappings matching on a separator boundary is applied; without one the path is returned |
| `RemotePath.MatchesIff` | app/remote_path_mapping.py:36-45 | a mapping applies iff it is enabled and complete and the path is the trimmed remote or continues with a separator, so `/downloads` never applies to `/downloads2/x` |
| `RemotePath.ResolvedIs` | app/remote_path_mapping.py:30-54 | the result on the characters: the trimmed local path and what follows the remote, for the first of the longest that apply; the path itself when none does |
| `RemotePath.EqualLengthSameRemote` | app/remote_path_mapping.py:36-48 | two matching remotes of equal length are the same string |
| `RemotePath.OrderIndependentIff` | app/remote_path_mapping.py:30-54 | reordering the mappings never changes the result iff longest matching duplicates share their local path |
| `RemotePath.ThereAndBack` | app/remote_path_mapping.py:30-54 | mapping forth and back returns a mapped path iff its local path is not only separators, an unmapped one iff the reverse does not match |
| `RemotePath.RootMappingStays` | app/remote_path_mapping.py:30-54 | a mapping to `/` is not undone by its reverse |
| `RootFolders.FindRootFolder` | app/sab_auto_import.py:104-117 | the id of the first row whose root is the path or an ancestor of it, component-wise |
| `RootFolders.FindRootFolderForPath` | app/library/importer.py:511-530 | the same first governing row as the poller finds |
| `RootFolders.FindRootFolderStrict` | app/sab_auto_import.py:120-132 | the resolved path iff it is strictly beneath some row |
| `RootFolders.SameRootIff` | app/library/importer.py:511-530 | lookups that see the rows in any order agree iff no two different rows govern the path |
| `RootFolders.NestedRootsDiffer` | app/library/importer.py:511-530 | with roots `/m` and `/m/a` the order of the rows decides |
| `TorrentPoller.Decide` | app/sab_auto_import.py:386-442 | which torrents are retried, skipped or imported, by path, roots and disk |
| `TorrentPoller.DecidedIs` | app/sab_auto_import.py:386-442 | a directory strictly beneath a root is imported, a path with `..` or without a leading `/` and a single file are skipped, everything else is to be retried |
| `TorrentPoller.ImportsOnlyBeneathRoots` | app/sab_auto_import.py:403-441 | only directories strictly beneath a configured root are imported, under the mapped path's own components, and the importer finds a governing root for them |
| `TorrentPoller.Poller.ProcessTorrents` | app/sab_auto_import.py:351-380 | the item loop, deciding each item against the state left by the ones before |
| `TorrentPoller.FinalStays` | app/sab_auto_import.py:76-77 | a final row is never changed and its torrent never imported again |
| `TorrentPoller.AttendedAgain` | app/sab_auto_import.py:351-478 | a torrent is attended to again iff the decision was a retry or its import asked for one; its row keeps its first name and gets the folder and status, no other row changes |
| `TorrentPoller.LaterTicks` | app/sab_auto_import.py:351-442 | a folder missing or outside every root is attended to again, a directory beneath a root is imported now, a single file keeps its row and is never imported |
| `TorrentPoller.ImportedAgainOnlyAfterRetry` | app/sab_auto_import.py:350-478 | over any ticks a second import of a torrent happens only after an attempt that asked for one |
| `Scanner.ScanFolder` | app/library/scanner.py:199-270 | the pruned walk works out exactly the root and the immediate children holding audio, in order |
| `Scanner.ScanFindsIff` | app/library/scanner.py:199-231 | a folder is a candidate, with exactly its audio files, iff it holds some and is the root or a child of it |
| `Scanner.ScanInOrder` | app/library/scanner.py:199-256 | the root comes first, then its children in their order, each with its own audio files |
| `Scanner.AudioByExtension` | app/library/scanner.py:219-229 | a stem with an extension is an audio file iff the extension is one of the seven, in capitals or not |
| `Scanner.NoExtensionNoAudio` | app/library/scanner.py:219-229 | a name without an extension is none |
| `Scanner.AudioFilesInOrder` | app/library/scanner.py:224-229 | audio files keep the order of the listing |
| `Scanner.RescanOfParent` | app/library/importer.py:341-345 | scanning a folder's parent finds the folder iff it directly holds audio |
| `Scanner.PromiseKeptIff` | app/library/scanner.py:199-231 | the scan finds each folder containing audio iff nothing two or more levels down holds audio |
| `Scanner.NestedBookMissed` | app/library/scanner.py:214-222 | a book two levels down is not found |
| `Secrets.MatchByKey` | app/api/routes_settings.py:41-47 | the matches by type and name, the last stored client with a key winning |
| `Secrets.MatchByType` | app/api/routes_settings.py:47-68 | with the types taken in any order, sole renames are matched and the save is rejected iff some type would lose a secret |
| `Secrets.PreserveSecrets` | app/api/routes_settings.py:32-75 | rejected iff a secret would be lost ambiguously, then unchanged; otherwise each blank secret comes from the matched stored client |
| `Secrets.SecretsOfOwnType` | app/api/routes_settings.py:70-75 | no secret crosses types and no secret that was sent is overwritten |
| `Secrets.NamesakeKept` | app/api/routes_settings.py:41-75 | secret by secret: a blank one becomes that of the last stored client with the same type and name, whatever was sent for the other; one that was sent stays |
| `Secrets.SoleRenameKept` | app/api/routes_settings.py:49-75 | the same for a sole new client of a type and the sole stored one left of it |
| `Secrets.RejectedIff` | app/api/routes_settings.py:49-68 | rejected iff a new client lacks a secret that an unclaimed stored one of its type has, and the two are not the only such pair |
| `Secrets.NothingLost` | app/api/routes_settings.py:49-68 | after a save no unmatched client lacks a secret that an unmatched stored client of its type had |
| `Secrets.RoundTripIff` | app/api/routes_settings.py:32-75 | saving back a blanked document is never rejected and is the identity iff clients sharing type and name share their secrets |
| `Secrets.RenameKeepsSecrets` | app/api/routes_settings.py:49-75 | one client renamed in a blanked document keeps its secrets |
| `ConversionQueue.ConversionStore.EnqueueJob` | app/api/routes_conversion.py:82-120 | a job is added iff the book exists and has no active job |
| `ConversionQueue.ConversionStore.EnqueueForBook` | app/conversion/worker.py:206-237 | the active job is returned, or one is added when the backend is enabled |
| `ConversionQueue.ConversionStore.ClaimJob` | app/conversion/worker.py:54-72 | the queued job with the least id runs and its attempts go up |
| `ConversionQueue.ConversionStore.FinishJob` | app/conversion/worker.py:93-118 | the verdict is written by id, whatever the status |
| `ConversionQueue.ConversionStore.ProcessTimeouts` | app/conversion/worker.py:121-151 | exactly the running jobs older than the limit fail, and their number is returned |
| `ConversionQueue.ConversionStore.RetryJob` | app/api/routes_conversion.py:123-148 | a failed or cancelled job is queued again |
| `ConversionQueue.ConversionStore.CancelJob` | app/api/routes_conversion.py:151-176 | only a queued job is cancelled |
| `ConversionQueue.ConversionStore.MatchRunningJob` | app/api/routes_webhooks.py:163-207 | an explicit running id wins, else the first best title of at least one half, else the only running job |
| `ConversionQueue.MatchedIs` | app/api/routes_webhooks.py:163-207 | on the running jobs: the explicit one; else, with a title, the earliest of the best scores of at least one half; else the only one |
| `ConversionQueue.ConversionStore.Webhook` | app/api/routes_webhooks.py:96-160 | the matched running job is completed or failed, otherwise nothing changes |
| `ConversionQueue.StepOnJob` | app/conversion/worker.py:44-183 | what each step makes of a job, on its own fields: only the next in line is claimed, only a running one is completed by a callback, and is overdue when its age exceeds the hours allowed, at least one; a verdict is written whatever the status |
| `ConversionQueue.StepAddsJob` | app/api/routes_conversion.py:82-120 | only queueing adds a job, for an existing book with none queued or running |
| `ConversionQueue.OneActiveStep` | app/api/routes_conversion.py:99-148 | one active job per book survives a step iff the step is not a retry beside another active job |
| `ConversionQueue.OneActiveRunIff` | app/conversion/worker.py:44-151 | over every interleaving the invariant holds throughout iff no retry found another active job of its book |
| `ConversionQueue.NoRetryOneActive` | app/api/routes_conversion.py:99-106 | without a retry no interleaving breaks it |
| `ConversionQueue.RetryBreaks` | app/api/routes_conversion.py:123-148 | enqueue, cancel, enqueue, retry leaves two queued jobs for one book |
| `ConversionQueue.GuardedRetryKeepsOneActive` | app/api/routes_conversion.py:123-148 | with the guard of the other operations a retry keeps the invariant and is otherwise the same |
| `ConversionQueue.GuardedRunOneActive` | app/api/routes_conversion.py:99-148 | with the guarded retry every interleaving, retries included, keeps one active job per book |
| `ConversionQueue.GuardedRunAgrees` | app/api/routes_conversion.py:123-148 | the guard changes nothing unless some retry found another active job of its book |
| `ConversionQueue.AttemptsCountClaims` | app/conversion/worker.py:54-72 | over every interleaving `attempts` is the number of claims of the job |
| `ConversionQueue.CompletedStays` | app/conversion/worker.py:93-118 | a completed job stays completed iff the step is neither an error verdict for it nor deleting its book; a successful late verdict blanks the recorded path, any other step changes nothing |
| `ConversionQueue.CompletedRunIff` | app/conversion/worker.py:44-151 | over every interleaving, a job once completed stays completed throughout iff no such event follows, and its row then changes only by successful late verdicts |
| `ConversionQueue.LateVerdictOverwrites` | app/conversion/worker.py:74-87 | a verdict after the callback turns a completed job into a failed one |
| `ConversionOriginals.MediaDisk.UnlinkAll` | app/conversion/worker.py:268-280 | all sources gone, or stopped at a refused one with nothing else touched |
| `ConversionOriginals.DeleteOriginals` | app/conversion/worker.py:240-289 | nothing is deleted unless enabled, completed, not yet cleaned up and the recorded converted file present; then exactly the source files go, the emptied folder with them, and their number is recorded |
| `ConversionOriginals.DeletionReadsCallback` | app/conversion/worker.py:154-262 | after a callback, and while no error verdict or book deletion follows, the originals may go iff the very file it reported is there; after a late success no path is known |
| `ConversionOriginals.SurvivesIffOutside` | app/conversion/worker.py:264-280 | a file, the converted one included, survives iff it lies outside the source path |

## Left out

- Symbolic links: `resolve()` and `realpath` are lexical, and a `..` in a stored path is taken to pass through an existing directory; drives and case-insensitive file systems do not exist.
- Directories as nodes of the file tree, what `mkdir` leaves behind, and a target that is an ancestor of another; partial writes inside one copy.
- NUL bytes in paths and the preview's `error` status for a rendering that raises.
- ImportCandidate.PlaceCandidate: a file called like the root folder, in a candidate called `..`, has the root itself as target; that the root exists as a directory is not modelled.
- ImportCandidate.FailureExact: for inputs that are not separate, which the importer never passes, a partly failed undo is given step by step (Placement.UndoPlaced) and not in closed form.
- Free space that changes between a check and the copy it permits.
- Organizer.BuildContext: author and series names come as given lists; splitting them out of GROUP_CONCAT text is not modelled.
- Normalising a feed or CSV row into an entry (`clean_text`, `_make_entry`) is an input function; expat and the CSV reader are taken as given, so only well-formed documents are considered.
- Release dates are day numbers; titles and other texts of books created from candidates are not kept.
- Changes to books made outside the follow operations, other than deleting them.
- A refresh whose provider call failed, and the stored summary of the last refresh.
- Quality inference from names, preference scoring and title similarity are inputs.
- Manual grabs outside the scheduler, and its single-flight flag beyond skipping a tick.
- Floating-point rounding: times, ages and scores are real numbers.
- Unicode digits accepted by `\d` in ISBN checks, and case folding outside ASCII in extensions, XML names and ISBNs.
- Scanner.ScanFolder: titles, sizes and identifier hints of candidates are not kept, listings come sorted, entries are plain files and directories.
- TorrentPoller.Decide: the import pipeline's own outcome for a folder is an input; the Usenet half of the poller, which has no containment check, is not modelled; the wording of recorded reasons is abbreviated.
- ConversionQueue.ConversionStore.EnqueueForBook: called for existing books only, as its caller does; messages, output paths and the backend's name are not kept.
- ConversionQueue.ConversionStore.Webhook: importing the converted file as a new edition is not modelled.
- ConversionOriginals.DeleteOriginals: the order of the unlinks is arbitrary, which covers the sorted one.
- HTTP clients, user interface, OPDS, password hashing, session tokens, SQL, migrations, settings storage, tags and calendar: plumbing or easy to read off.
