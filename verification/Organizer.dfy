/**
 The book file organiser (app/library/organizer.py): a preview that plans one move per
 library file, and an apply step that performs the plan or rolls it back, keeping the
 `library_files` paths in step with the disk.
 */
module Organizer {
  import opened Text
  import opened Paths
  import opened Naming
  import opened FileTree
  import opened OrganizePlan

  datatype Book = Book(
    title: string,
    authors: seq<string>,
    narrators: seq<string>,
    releaseDate: string,
    series: string,
    seriesPosition: string)

  /** What a preview is asked for; `root` is the resolved root folder, `cwd` the process directory. */
  datatype Request = Request(
    cwd: Path,
    root: Path,
    pattern: string,
    letters: char -> bool,
    book: Book,
    bookId: nat)

  datatype Preview = Preview(safeToApply: bool, items: seq<Item>)

  function JoinNames(names: seq<string>): string {
    if names == [] then ""
    else if |names| == 1 then names[0]
    else names[0] + ", " + JoinNames(names[1..])
  }

  function BuildContext(book: Book, bookId: nat, row: FileRow): Context {
    map[
      "title" := book.title,
      "author" := if book.authors == [] then "Unknown Author" else book.authors[0],
      "authors" := JoinNames(book.authors),
      "narrator" := if book.narrators == [] then "Unknown Narrator" else book.narrators[0],
      "narrators" := JoinNames(book.narrators),
      "series" := book.series,
      "series_position" := book.seriesPosition,
      "year" := book.releaseDate[..if |book.releaseDate| < 4 then |book.releaseDate| else 4],
      "quality" := row.quality,
      "book_id" := Decimal(bookId),
      "codec" := row.codec,
      "bitrate" := row.bitrate
    ]
  }

  predicate Resolved(req: Request) {
    Canonical(req.cwd) && Canonical(req.root)
  }

  function Source(req: Request, row: FileRow): Path {
    Resolve(req.cwd, row.path)
  }

  /** `(root / relative).resolve()` */
  function Target(req: Request, row: FileRow): Path {
    var context := BuildContext(req.book, req.bookId, row);
    Normalise(req.root, RenderTarget(req.pattern, context, req.letters, row.path))
  }

  lemma ContextIsNumbered(book: Book, bookId: nat, row: FileRow)
    ensures NumberedContext(BuildContext(book, bookId, row))
  {
  }

  /**
   Whatever the pattern, the metadata and the stored path, a target lies strictly beneath
   the root: the outside-root branch of the preview is never taken.
   */
  lemma TargetBelowRoot(req: Request, row: FileRow)
    requires Resolved(req)
    ensures Canonical(Target(req, row)) && req.root < Target(req, row)
    ensures CommonPathUnder(Show(Target(req, row)), Show(req.root))
    ensures Name(Show(Target(req, row))) == Filename(BuildContext(req.book, req.bookId, row), row.path)
  {
    var context := BuildContext(req.book, req.bookId, row);
    var relative := RenderTarget(req.pattern, context, req.letters, row.path);
    ContextIsNumbered(req.book, req.bookId, row);
    hide BuildContext, RenderPattern, Filename, Normalise, Resolve, Show, Name, CommonPathUnder, NumberedContext, Tidy, IsName;
    RenderedComponents(req.pattern, context, req.letters);
    FilenameIsName(context, row.path);
    assert Canonical(relative);
    NormaliseNames(req.root, relative);
    ContainmentTestsAgree(Target(req, row), req.root);
    ResolveOfShow(req.cwd, Target(req, row));
  }

  // ---------- preview ----------

  /** The verdict of the first pass on one file, or `Ready` for a candidate. */
  function Screen(req: Request, files: Files, row: FileRow): Status {
    if !CommonPathUnder(Show(Target(req, row)), Show(req.root)) then OutsideRoot
    else if Source(req, row) !in files then Missing
    else Ready
  }

  function Rejected(req: Request, files: Files, rows: seq<FileRow>): seq<Item> {
    if rows == [] then []
    else
      var row := rows[|rows| - 1];
      var status := Screen(req, files, row);
      Rejected(req, files, rows[..|rows| - 1])
      + if status.Ready? then [] else [Item(row.id, row.path, Show(Target(req, row)), status)]
  }

  function Candidates(req: Request, files: Files, rows: seq<FileRow>): seq<Candidate> {
    if rows == [] then []
    else
      var row := rows[|rows| - 1];
      Candidates(req, files, rows[..|rows| - 1])
      + if Screen(req, files, row).Ready? then [Candidate(row, Source(req, row), Target(req, row))] else []
  }

  function PreviewItems(req: Request, files: Files, rows: seq<FileRow>): seq<Item> {
    var cands := Candidates(req, files, rows);
    Rejected(req, files, rows) + Classified(files, cands, cands)
  }

  method BuildPreview(req: Request, fs: FileSystem, rows: seq<FileRow>) returns (preview: Preview)
    requires Resolved(req)
    ensures preview.items == PreviewItems(req, fs.files, rows)
    ensures preview.safeToApply <==> forall i :: 0 <= i < |preview.items| ==> preview.items[i].status.Safe()
  {
    hide Target, Source, Show, CommonPathUnder, Rivals;
    var candidates: seq<Candidate>, items: seq<Item> := [], [];
    for n := 0 to |rows|
      invariant items == Rejected(req, fs.files, rows[..n])
      invariant candidates == Candidates(req, fs.files, rows[..n])
    {
      var row := rows[n];
      var target := Target(req, row);
      assert rows[..n + 1][..n] == rows[..n];
      if !CommonPathUnder(Show(target), Show(req.root)) {
        items := items + [Item(row.id, row.path, Show(target), OutsideRoot)];
      } else if Source(req, row) !in fs.files {
        items := items + [Item(row.id, row.path, Show(target), Missing)];
      } else {
        candidates := candidates + [Candidate(row, Source(req, row), target)];
      }
    }
    assert rows[..|rows|] == rows;
    var counts := CountTargets(candidates);
    var rejected := items;
    for n := 0 to |candidates|
      invariant items == rejected + Classified(fs.files, candidates, candidates[..n])
    {
      var c := candidates[n];
      var target := Show(c.target);
      assert candidates[..n + 1][..n] == candidates[..n];
      var status :=
        if c.source == c.target then Unchanged
        else if target in counts && counts[target] > 1 then Conflict
        else if c.target in fs.files then Conflict
        else Ready;
      items := items + [Item(c.row.id, c.row.path, target, status)];
    }
    assert candidates[..|candidates|] == candidates;
    var safe := true;
    for n := 0 to |items|
      invariant safe <==> forall i :: 0 <= i < n ==> items[i].status.Safe()
    {
      safe := safe && items[n].status.Safe();
    }
    preview := Preview(safe, items);
  }

  // ---------- what a preview means ----------

  predicate AllSafe(items: seq<Item>) {
    forall i :: 0 <= i < |items| ==> items[i].status.Safe()
  }

  lemma {:induction false} RejectedUnsafe(req: Request, files: Files, rows: seq<FileRow>)
    ensures var r := Rejected(req, files, rows); r != [] ==> !r[0].status.Safe()
  {
    hide Target, Source, Show, CommonPathUnder;
    if rows != [] {
      RejectedUnsafe(req, files, rows[..|rows| - 1]);
    }
  }

  lemma {:induction false} AllCandidates(req: Request, files: Files, rows: seq<FileRow>)
    requires Rejected(req, files, rows) == []
    ensures |Candidates(req, files, rows)| == |rows|
    ensures forall i :: 0 <= i < |rows| ==>
      && Candidates(req, files, rows)[i] == Candidate(rows[i], Source(req, rows[i]), Target(req, rows[i]))
      && Source(req, rows[i]) in files
  {
    hide Target, Source, Show, CommonPathUnder;
    if rows != [] {
      AllCandidates(req, files, rows[..|rows| - 1]);
    }
  }

  /** The item a safe preview holds for one row. */
  ghost predicate ItemFor(req: Request, files: Files, row: FileRow, item: Item) {
    && item.fileId == row.id && item.sourcePath == row.path
    && item.targetPath == Show(Target(req, row))
    && Source(req, row) in files
    && (item.status.Unchanged? ==> Source(req, row) == Target(req, row))
    && (!item.status.Unchanged? ==>
      item.status.Ready? && Source(req, row) != Target(req, row) && Target(req, row) !in files)
  }

  lemma FirstOfConcat(a: seq<Item>, b: seq<Item>)
    ensures a != [] ==> (a + b)[0] == a[0]
  {
  }

  lemma SafeRejectsNone(req: Request, files: Files, rows: seq<FileRow>)
    requires AllSafe(PreviewItems(req, files, rows))
    ensures Rejected(req, files, rows) == []
    ensures var cands := Candidates(req, files, rows);
      PreviewItems(req, files, rows) == Classified(files, cands, cands)
  {
    hide Candidates, Classified, Rejected, Status.Safe;
    var cands := Candidates(req, files, rows);
    RejectedUnsafe(req, files, rows);
    FirstOfConcat(Rejected(req, files, rows), Classified(files, cands, cands));
  }

  lemma ItemOfCandidate(req: Request, files: Files, cands: seq<Candidate>, row: FileRow, item: Item)
    requires Source(req, row) in files && item.status.Safe()
    requires var c := Candidate(row, Source(req, row), Target(req, row));
      item == Item(row.id, row.path, Show(c.target), Classify(files, cands, c))
    ensures ItemFor(req, files, row, item)
  {
    hide Target, Source, Show, Rivals;
  }

  /** In a safe preview every row is a candidate and `items[i]` classifies the i-th one. */
  ghost predicate Aligned(req: Request, files: Files, rows: seq<FileRow>, cands: seq<Candidate>, items: seq<Item>) {
    && |cands| == |rows| && |items| == |rows|
    && forall i :: 0 <= i < |rows| ==>
      && cands[i] == Candidate(rows[i], Source(req, rows[i]), Target(req, rows[i]))
      && cands[i].source in files
      && items[i] == Item(rows[i].id, rows[i].path, Show(cands[i].target), Classify(files, cands, cands[i]))
      && items[i].status.Safe()
  }

  lemma SafeAligned(req: Request, files: Files, rows: seq<FileRow>)
    requires AllSafe(PreviewItems(req, files, rows))
    ensures Aligned(req, files, rows, Candidates(req, files, rows), PreviewItems(req, files, rows))
  {
    var cands := Candidates(req, files, rows);
    SafeRejectsNone(req, files, rows);
    hide Target, Source, Show, Candidates, Classified, Rejected, PreviewItems, Classify, Status.Safe;
    AllCandidates(req, files, rows);
    ClassifiedAt(files, cands, cands);
  }

  lemma AlignedDistinct(req: Request, files: Files, rows: seq<FileRow>, cands: seq<Candidate>, items: seq<Item>)
    requires Aligned(req, files, rows, cands, items)
    ensures DistinctReadyTargets(items)
  {
    hide Target, Source, Show;
    forall i, j | 0 <= i < j < |items| && items[i].status.Ready? && items[j].status.Ready?
      ensures items[i].targetPath != items[j].targetPath
    {
      if items[i].targetPath == items[j].targetPath {
        TwoRivals(cands, items[i].targetPath, i, j);
      }
    }
  }

  /** A safe preview has one item per row, in row order, with free and distinct ready targets. */
  lemma SafePreview(req: Request, files: Files, rows: seq<FileRow>)
    requires AllSafe(PreviewItems(req, files, rows))
    ensures |PreviewItems(req, files, rows)| == |rows|
    ensures forall i :: 0 <= i < |rows| ==> ItemFor(req, files, rows[i], PreviewItems(req, files, rows)[i])
    ensures DistinctReadyTargets(PreviewItems(req, files, rows))
  {
    hide Target, Source, Show, Candidates, Classified, Rejected, PreviewItems, Classify, ItemFor, Status.Safe;
    var cands, items := Candidates(req, files, rows), PreviewItems(req, files, rows);
    SafeAligned(req, files, rows);
    AlignedDistinct(req, files, rows, cands, items);
    forall i | 0 <= i < |rows|
      ensures ItemFor(req, files, rows[i], items[i])
    {
      ItemOfCandidate(req, files, cands, rows[i], items[i]);
    }
  }

  // ---------- apply ----------

  datatype Rollback = Rollback(fileId: nat, restored: bool)

  /** `Raised`: the database refused a path update after the files had been moved. */
  datatype Outcome =
    | Refused
    | Applied(moved: seq<Item>)
    | RolledBack(rollback: seq<Rollback>)
    | Raised

  function ReadyItems(items: seq<Item>): (r: seq<Item>)
    ensures forall i :: 0 <= i < |r| ==> r[i] in items && r[i].status.Ready?
  {
    if items == [] then []
    else (if items[0].status.Ready? then [items[0]] else []) + ReadyItems(items[1..])
  }

  function MoveOf(cwd: Path, item: Item): Move {
    Move(Resolve(cwd, item.sourcePath), Resolve(cwd, item.targetPath))
  }

  function MovesOf(cwd: Path, items: seq<Item>): (r: seq<Move>)
    ensures |r| == |items|
    ensures forall i :: 0 <= i < |r| ==> r[i] == MoveOf(cwd, items[i])
  {
    seq(|items|, i requires 0 <= i < |items| => MoveOf(cwd, items[i]))
  }

  function Flags(rollback: seq<Rollback>): (r: seq<bool>)
    ensures |r| == |rollback|
    ensures forall i :: 0 <= i < |r| ==> r[i] == rollback[i].restored
  {
    seq(|rollback|, i requires 0 <= i < |rollback| => rollback[i].restored)
  }

  /** The `path` column of the whole `library_files` table, by row id; values are UNIQUE. */
  type PathColumn = map<nat, string>

  predicate HeldByOther(paths: PathColumn, id: nat, path: string) {
    exists other <- paths :: other != id && paths[other] == path
  }

  function Updated(paths: PathColumn, items: seq<Item>): PathColumn {
    if items == [] then paths
    else
      var item := items[|items| - 1];
      var before := Updated(paths, items[..|items| - 1]);
      if item.fileId in before then before[item.fileId := item.targetPath] else before
  }

  /** Some update in the sequence would break the UNIQUE constraint. */
  ghost predicate UpdateClash(paths: PathColumn, items: seq<Item>) {
    exists k :: 0 <= k < |items| && items[k].fileId in paths
             && HeldByOther(Updated(paths, items[..k]), items[k].fileId, items[k].targetPath)
  }

  lemma {:induction false} UpdatedKeys(paths: PathColumn, items: seq<Item>)
    ensures Updated(paths, items).Keys == paths.Keys
  {
    if items != [] {
      UpdatedKeys(paths, items[..|items| - 1]);
    }
  }

  class LibraryTable {
    var paths: PathColumn

    constructor (paths: PathColumn)
      ensures this.paths == paths
    {
      this.paths := paths;
    }

    /** `UPDATE library_files SET path = ? WHERE id = ?`; not ok is an IntegrityError. */
    method SetPath(id: nat, path: string) returns (ok: bool)
      modifies this
      ensures ok <==> !(id in old(paths) && HeldByOther(old(paths), id, path))
      ensures paths == if ok && id in old(paths) then old(paths)[id := path] else old(paths)
    {
      ok := !(id in paths && HeldByOther(paths, id, path));
      if ok && id in paths {
        paths := paths[id := path];
      }
    }
  }

  /** Each source was there when its turn came. */
  ghost predicate SourcesPresent(files: Files, moves: seq<Move>) {
    moves == [] ||
    var n := |moves| - 1;
    SourcesPresent(files, moves[..n]) && moves[n].src in After(files, moves[..n])
  }

  method RollBack(fs: FileSystem, cwd: Path, moved: seq<Item>) returns (rollback: seq<Rollback>)
    modifies fs`files
    ensures |rollback| == |moved|
    ensures forall i :: 0 <= i < |moved| ==> rollback[i].fileId == moved[|moved| - 1 - i].fileId
    ensures fs.files == Undone(old(fs.files), MovesOf(cwd, moved), Flags(rollback))
  {
    hide Resolve, Rename, Undone;
    rollback := [];
    ghost var moves := MovesOf(cwd, moved);
    assert Flags([]) == [];
    UndoneNext(fs.files, moves, [], true);
    for n := 0 to |moved|
      invariant |rollback| == n
      invariant forall i :: 0 <= i < n ==> rollback[i].fileId == moved[|moved| - 1 - i].fileId
      invariant fs.files == Undone(old(fs.files), moves, Flags(rollback))
    {
      var done := moved[|moved| - 1 - n];
      var move := MoveOf(cwd, done);
      var restored := fs.Move(move.dst, move.src);
      ghost var flags := Flags(rollback);
      rollback := rollback + [Rollback(done.fileId, restored)];
      assert Flags(rollback) == flags + [restored];
      UndoneNext(old(fs.files), moves, flags, restored);
    }
  }

  lemma UndoneNext(files: Files, moves: seq<Move>, flags: seq<bool>, restored: bool)
    ensures Undone(files, moves, []) == files
    ensures |flags| < |moves| ==>
      var before, move := Undone(files, moves, flags), moves[|moves| - 1 - |flags|];
      Undone(files, moves, flags + [restored]) == if restored then Rename(before, move.dst, move.src) else before
  {
    hide Rename;
    assert (flags + [restored])[..|flags|] == flags;
  }

  /** Moves items until one fails; `moved` of them were moved. */
  method MoveFiles(fs: FileSystem, cwd: Path, items: seq<Item>) returns (moved: nat)
    modifies fs`files
    ensures moved <= |items|
    ensures fs.files == After(old(fs.files), MovesOf(cwd, items)[..moved])
    ensures SourcesPresent(old(fs.files), MovesOf(cwd, items)[..moved])
  {
    hide Resolve, Rename, FileSystem.Valid;
    ghost var moves := MovesOf(cwd, items);
    moved := 0;
    while moved < |items|
      invariant moved <= |items|
      invariant fs.files == After(old(fs.files), moves[..moved])
      invariant SourcesPresent(old(fs.files), moves[..moved])
    {
      var move := MoveOf(cwd, items[moved]);
      var ok := fs.Move(move.src, move.dst);
      if !ok {
        break;
      }
      assert moves[..moved + 1][..moved] == moves[..moved];
      moved := moved + 1;
    }
  }

  /** All path updates in one transaction: rolled back when one of them is refused. */
  method UpdatePaths(table: LibraryTable, items: seq<Item>) returns (ok: bool)
    modifies table
    ensures ok <==> !UpdateClash(old(table.paths), items)
    ensures table.paths == if ok then Updated(old(table.paths), items) else old(table.paths)
  {
    hide HeldByOther;
    var before := table.paths;
    for n := 0 to |items|
      invariant table.paths == Updated(before, items[..n])
      invariant forall k :: 0 <= k < n ==>
        !(items[k].fileId in before && HeldByOther(Updated(before, items[..k]), items[k].fileId, items[k].targetPath))
    {
      UpdatedKeys(before, items[..n]);
      assert items[..n + 1][..n] == items[..n];
      ok := table.SetPath(items[n].fileId, items[n].targetPath);
      if !ok {
        table.paths := before;
        return;
      }
    }
    assert items[..|items|] == items;
    ok := true;
  }

  lemma MovesOfPrefix(cwd: Path, items: seq<Item>, n: nat)
    requires n <= |items|
    ensures |MovesOf(cwd, items)| == |items| && MovesOf(cwd, items[..n]) == MovesOf(cwd, items)[..n]
  {
  }

  method ApplyPreview(fs: FileSystem, table: LibraryTable, cwd: Path, preview: Preview)
    returns (outcome: Outcome)
    modifies fs`files, table
    ensures var toMove := ReadyItems(preview.items); var moves := MovesOf(cwd, toMove);
      match outcome
      case Refused =>
        && !preview.safeToApply
        && fs.files == old(fs.files) && table.paths == old(table.paths)
      case Applied(moved) =>
        && preview.safeToApply && moved == toMove
        && SourcesPresent(old(fs.files), moves)
        && fs.files == After(old(fs.files), moves)
        && !UpdateClash(old(table.paths), toMove)
        && table.paths == Updated(old(table.paths), toMove)
      case RolledBack(rollback) =>
        && preview.safeToApply && |rollback| < |toMove|
        && (forall i :: 0 <= i < |rollback| ==> rollback[i].fileId == toMove[|rollback| - 1 - i].fileId)
        && SourcesPresent(old(fs.files), moves[..|rollback|])
        && fs.files == Undone(After(old(fs.files), moves[..|rollback|]), moves[..|rollback|], Flags(rollback))
        && table.paths == old(table.paths)
      case Raised =>
        && preview.safeToApply
        && SourcesPresent(old(fs.files), moves)
        && fs.files == After(old(fs.files), moves)
        && UpdateClash(old(table.paths), toMove)
        && table.paths == old(table.paths)
  {
    if !preview.safeToApply {
      return Refused;
    }
    var toMove := ReadyItems(preview.items);
    ghost var moves := MovesOf(cwd, toMove);
    hide Resolve, Rename, UpdateClash, SourcesPresent, After, Undone, Updated, ReadyItems, MoveOf, MovesOf, Flags;
    var n := MoveFiles(fs, cwd, toMove);
    if n < |toMove| {
      MovesOfPrefix(cwd, toMove, n);
      var rollback := RollBack(fs, cwd, toMove[..n]);
      return RolledBack(rollback);
    }
    assert moves[..n] == moves;
    var ok := UpdatePaths(table, toMove);
    if !ok {
      return Raised;
    }
    return Applied(toMove);
  }
}
