/**
 What a whole organise run guarantees: preview, apply when safe, and a later preview of the
 result. All statements are about every pattern, metadata, file map and table.
 */
module OrganizeBook {
  import opened Paths
  import opened Naming
  import opened FileTree
  import opened OrganizePlan
  import opened Organizer

  /** The rows were read from the table. */
  ghost predicate RowsOf(paths: PathColumn, rows: seq<FileRow>) {
    && (forall i :: 0 <= i < |rows| ==> rows[i].id in paths && paths[rows[i].id] == rows[i].path)
    && (forall i, j :: 0 <= i < j < |rows| ==> rows[i].id != rows[j].id)
  }

  /** A safe preview of these rows, item by item. */
  ghost predicate SafePlan(req: Request, files: Files, rows: seq<FileRow>, items: seq<Item>) {
    && |items| == |rows|
    && (forall i :: 0 <= i < |rows| ==> ItemFor(req, files, rows[i], items[i]))
    && DistinctReadyTargets(items)
  }

  function Plan(req: Request, items: seq<Item>): seq<Move> {
    MovesOf(req.cwd, ReadyItems(items))
  }

  // ---------- the ready items ----------

  lemma {:induction false} ReadyItemOrigin(items: seq<Item>, k: nat) returns (i: nat)
    requires k < |ReadyItems(items)|
    ensures i < |items| && items[i] == ReadyItems(items)[k]
  {
    if items[0].status.Ready? && k == 0 {
      i := 0;
    } else {
      var j := ReadyItemOrigin(items[1..], if items[0].status.Ready? then k - 1 else k);
      i := j + 1;
    }
  }

  lemma {:induction false} ReadyItemIndex(items: seq<Item>, i: nat) returns (k: nat)
    requires i < |items| && items[i].status.Ready?
    ensures k < |ReadyItems(items)| && ReadyItems(items)[k] == items[i]
  {
    if i == 0 {
      k := 0;
    } else {
      k := ReadyItemIndex(items[1..], i - 1);
      if items[0].status.Ready? {
        k := k + 1;
      }
    }
  }

  /** Two ready items at different places come from two different rows. */
  lemma {:induction false} ReadyPairOrigin(items: seq<Item>, k: nat, l: nat) returns (i: nat, j: nat)
    requires k < l < |ReadyItems(items)|
    ensures i < j < |items| && items[i] == ReadyItems(items)[k] && items[j] == ReadyItems(items)[l]
  {
    ReadyTail(items);
    hide ReadyItems;
    if !items[0].status.Ready? {
      i, j := ReadyPairOrigin(items[1..], k, l);
      i, j := i + 1, j + 1;
    } else if k == 0 {
      i := 0;
      j := ReadyItemOrigin(items[1..], l - 1);
      j := j + 1;
    } else {
      i, j := ReadyPairOrigin(items[1..], k - 1, l - 1);
      i, j := i + 1, j + 1;
    }
  }

  lemma ReadyTail(items: seq<Item>)
    ensures items == [] ==> ReadyItems(items) == []
    ensures items != [] ==>
      ReadyItems(items) == (if items[0].status.Ready? then [items[0]] else []) + ReadyItems(items[1..])
  {
  }

  lemma MoveOfRow(req: Request, files: Files, row: FileRow, item: Item)
    requires Resolved(req) && ItemFor(req, files, row, item)
    ensures MoveOf(req.cwd, item) == Move(Source(req, row), Target(req, row))
  {
    TargetBelowRoot(req, row);
    ResolveOfShow(req.cwd, Target(req, row));
  }

  /** Moves from existing files to pairwise distinct unused paths. */
  ghost predicate FreeTargets(files: Files, moves: seq<Move>) {
    && (forall k :: 0 <= k < |moves| ==> moves[k].src in files && moves[k].dst !in files)
    && (forall k, l :: 0 <= k < l < |moves| ==> moves[k].dst != moves[l].dst)
  }

  lemma PlannedMoves(req: Request, files: Files, rows: seq<FileRow>, items: seq<Item>)
    requires Resolved(req) && SafePlan(req, files, rows, items)
    ensures FreeTargets(files, Plan(req, items))
  {
    hide Target, Source, Resolve, Resolved;
    var ready, moves := ReadyItems(items), Plan(req, items);
    forall k | 0 <= k < |moves|
      ensures moves[k].src in files && moves[k].dst !in files
    {
      var i := ReadyItemOrigin(items, k);
      MoveOfRow(req, files, rows[i], items[i]);
    }
    forall k, l | 0 <= k < l < |moves|
      ensures moves[k].dst != moves[l].dst
    {
      var i, j := ReadyPairOrigin(items, k, l);
      MoveOfRow(req, files, rows[i], items[i]);
      MoveOfRow(req, files, rows[j], items[j]);
      TargetTextDiffers(req, rows[i], rows[j]);
    }
  }

  lemma TargetTextDiffers(req: Request, a: FileRow, b: FileRow)
    ensures Show(Target(req, a)) != Show(Target(req, b)) ==> Target(req, a) != Target(req, b)
  {
  }

  lemma FreshExtended(files: Files, before: seq<Move>, x: Move)
    requires Fresh(files, before) && x.src in files && x.dst !in files
    requires !IsSource(before, x.src) && !IsTarget(before, x.dst)
    ensures Fresh(files, before + [x])
  {
  }

  /** Moves that all succeeded took distinct files: a source moved away cannot be moved again. */
  lemma {:induction false} PresentIsFresh(files: Files, moves: seq<Move>)
    requires FreeTargets(files, moves) && SourcesPresent(files, moves)
    ensures Fresh(files, moves)
  {
    if moves != [] {
      var n := |moves| - 1;
      var before, x := moves[..n], moves[n];
      assert moves == before + [x];
      assert !IsTarget(before, x.src) && !IsTarget(before, x.dst);
      assert FreeTargets(files, before);
      hide FreeTargets, Fresh, IsTarget, IsSource;
      PresentIsFresh(files, before);
      AfterFresh(files, before);
      FreshExtended(files, before, x);
    }
  }

  lemma PlanIsFresh(req: Request, files: Files, rows: seq<FileRow>, items: seq<Item>, n: nat)
    requires Resolved(req) && SafePlan(req, files, rows, items)
    requires n <= |Plan(req, items)| && SourcesPresent(files, Plan(req, items)[..n])
    ensures Fresh(files, Plan(req, items)[..n])
  {
    hide Resolved, SafePlan, Plan, Fresh, SourcesPresent;
    PlannedMoves(req, files, rows, items);
    PresentIsFresh(files, Plan(req, items)[..n]);
  }

  // ---------- table updates ----------

  ghost predicate DistinctIds(items: seq<Item>) {
    forall k, l :: 0 <= k < l < |items| ==> items[k].fileId != items[l].fileId
  }

  lemma {:induction false} UpdatedAt(paths: PathColumn, items: seq<Item>, id: nat)
    requires id in paths && DistinctIds(items)
    ensures id in Updated(paths, items)
    ensures forall k :: 0 <= k < |items| && items[k].fileId == id ==> Updated(paths, items)[id] == items[k].targetPath
    ensures (forall k :: 0 <= k < |items| ==> items[k].fileId != id) ==> Updated(paths, items)[id] == paths[id]
  {
    UpdatedKeys(paths, items);
    if items != [] {
      var n := |items| - 1;
      UpdatedKeys(paths, items[..n]);
      UpdatedAt(paths, items[..n], id);
      assert forall k :: 0 <= k < n ==> items[..n][k] == items[k];
    }
  }

  lemma ReadyIdsDistinct(req: Request, files: Files, paths: PathColumn, rows: seq<FileRow>, items: seq<Item>)
    requires SafePlan(req, files, rows, items) && RowsOf(paths, rows)
    ensures DistinctIds(ReadyItems(items))
  {
    hide Target, Source;
    var ready := ReadyItems(items);
    forall k, l | 0 <= k < l < |ready|
      ensures ready[k].fileId != ready[l].fileId
    {
      var i, j := ReadyPairOrigin(items, k, l);
    }
  }

  /** After the update a ready row holds its target, any other row what it held. */
  lemma UpdatedRow(req: Request, files: Files, paths: PathColumn, rows: seq<FileRow>, items: seq<Item>, i: nat)
    requires SafePlan(req, files, rows, items) && RowsOf(paths, rows) && i < |rows|
    ensures var after := Updated(paths, ReadyItems(items));
      rows[i].id in after
      && after[rows[i].id] == if items[i].status.Ready? then Show(Target(req, rows[i])) else rows[i].path
  {
    hide Target, Source, Show;
    var ready := ReadyItems(items);
    ReadyIdsDistinct(req, files, paths, rows, items);
    UpdatedAt(paths, ready, rows[i].id);
    if items[i].status.Ready? {
      var k := ReadyItemIndex(items, i);
    } else {
      forall k | 0 <= k < |ready|
        ensures ready[k].fileId != rows[i].id
      {
        var j := ReadyItemOrigin(items, k);
        assert ItemFor(req, files, rows[j], items[j]) && j != i;
      }
    }
  }

  ghost predicate TargetRecorded(paths: PathColumn, items: seq<Item>) {
    exists i, id :: 0 <= i < |items| && items[i].status.Ready? && id in paths && paths[id] == items[i].targetPath
  }

  lemma {:induction false} ClashWitness(paths: PathColumn, ready: seq<Item>, k: nat)
    returns (other: nat)
    requires DistinctIds(ready) && k < |ready|
    requires HeldByOther(Updated(paths, ready[..k]), ready[k].fileId, ready[k].targetPath)
    requires forall l :: 0 <= l < k ==> ready[l].targetPath != ready[k].targetPath
    ensures other in paths && paths[other] == ready[k].targetPath
  {
    var before := ready[..k];
    UpdatedKeys(paths, before);
    other :| other in Updated(paths, before) && Updated(paths, before)[other] == ready[k].targetPath;
    assert forall l :: 0 <= l < k ==> before[l] == ready[l];
    UpdatedAt(paths, before, other);
  }

  lemma ClashMeansRecorded(req: Request, files: Files, paths: PathColumn, rows: seq<FileRow>, items: seq<Item>)
    requires SafePlan(req, files, rows, items) && RowsOf(paths, rows)
    requires UpdateClash(paths, ReadyItems(items))
    ensures TargetRecorded(paths, items)
  {
    hide Target, Source, Show, HeldByOther, Updated;
    var ready := ReadyItems(items);
    ReadyIdsDistinct(req, files, paths, rows, items);
    var k :| 0 <= k < |ready| && ready[k].fileId in paths
          && HeldByOther(Updated(paths, ready[..k]), ready[k].fileId, ready[k].targetPath);
    forall l | 0 <= l < k
      ensures ready[l].targetPath != ready[k].targetPath
    {
      var i, j := ReadyPairOrigin(items, l, k);
    }
    var other := ClashWitness(paths, ready, k);
    var i := ReadyItemOrigin(items, k);
  }

  lemma RecordedMeansClash(req: Request, files: Files, paths: PathColumn, rows: seq<FileRow>, items: seq<Item>)
    requires Resolved(req) && SafePlan(req, files, rows, items) && RowsOf(paths, rows)
    requires TargetRecorded(paths, items)
    ensures UpdateClash(paths, ReadyItems(items))
  {
    hide Target, Source, Show, Resolve, Resolved;
    var ready := ReadyItems(items);
    var i, id :| 0 <= i < |items| && items[i].status.Ready? && id in paths && paths[id] == items[i].targetPath;
    var k := ReadyItemIndex(items, i);
    var before := ready[..k];
    forall l | 0 <= l < |ready|
      ensures ready[l].fileId != id
    {
      var j := ReadyItemOrigin(items, l);
      MoveOfRow(req, files, rows[i], items[i]);
      MoveOfRow(req, files, rows[j], items[j]);
    }
    ReadyIdsDistinct(req, files, paths, rows, items);
    UpdatedAt(paths, before, id);
    assert Updated(paths, before)[id] == ready[k].targetPath;
    assert HeldByOther(Updated(paths, before), ready[k].fileId, ready[k].targetPath);
  }

  /**
   The UNIQUE path column refuses the update, after the files have moved, exactly when some
   row (of another book, or a stale one) already records the target of a ready item.
   */
  lemma PathUpdateRefused(req: Request, files: Files, paths: PathColumn, rows: seq<FileRow>, items: seq<Item>)
    requires Resolved(req) && SafePlan(req, files, rows, items) && RowsOf(paths, rows)
    ensures UpdateClash(paths, ReadyItems(items)) <==> TargetRecorded(paths, items)
  {
    if UpdateClash(paths, ReadyItems(items)) {
      ClashMeansRecorded(req, files, paths, rows, items);
    }
    if TargetRecorded(paths, items) {
      RecordedMeansClash(req, files, paths, rows, items);
    }
  }

  // ---------- rows after a successful run ----------

  /** Every row of the book names an existing file that holds what its file held before. */
  ghost predicate RowsIntact(req: Request, rows: seq<FileRow>, before: Files, paths: PathColumn, after: Files) {
    forall i :: 0 <= i < |rows| ==>
      && rows[i].id in paths
      && Source(req, rows[i]) in before
      && Resolve(req.cwd, paths[rows[i].id]) in after
      && after[Resolve(req.cwd, paths[rows[i].id])] == before[Source(req, rows[i])]
  }

  /** No file to be moved is also the file of a row that stays where it is. */
  ghost predicate NoSharedFile(req: Request, rows: seq<FileRow>, items: seq<Item>)
    requires |items| == |rows|
  {
    forall i, j :: 0 <= i < |rows| && 0 <= j < |rows| && items[i].status.Ready? && !items[j].status.Ready? ==>
      Source(req, rows[i]) != Source(req, rows[j])
  }

  lemma SharedFileLost(req: Request, files: Files, rows: seq<FileRow>, items: seq<Item>, i: nat, j: nat)
    requires Resolved(req) && SafePlan(req, files, rows, items)
    requires Fresh(files, Plan(req, items))
    requires i < |rows| && j < |rows| && items[i].status.Ready? && Source(req, rows[i]) == Source(req, rows[j])
    ensures Source(req, rows[j]) !in After(files, Plan(req, items))
  {
    var moves := Plan(req, items);
    AfterFresh(files, moves);
    hide Target, Source, Resolve, Resolved, Fresh;
    var k := ReadyItemIndex(items, i);
    MoveOfRow(req, files, rows[i], items[i]);
    assert moves[k].src == Source(req, rows[i]);
    PlannedMoves(req, files, rows, items);
    assert IsSource(moves, Source(req, rows[i]));
    assert !IsTarget(moves, Source(req, rows[i]));
  }

  lemma RowSurvives(req: Request, files: Files, rows: seq<FileRow>, items: seq<Item>, i: nat)
    requires Resolved(req) && SafePlan(req, files, rows, items) && i < |rows|
    requires Fresh(files, Plan(req, items)) && NoSharedFile(req, rows, items)
    ensures var p := if items[i].status.Ready? then Target(req, rows[i]) else Source(req, rows[i]);
      p in After(files, Plan(req, items)) && After(files, Plan(req, items))[p] == files[Source(req, rows[i])]
  {
    var moves := Plan(req, items);
    AfterFresh(files, moves);
    hide Target, Source, Resolve, Resolved, Fresh;
    if items[i].status.Ready? {
      var k := ReadyItemIndex(items, i);
      MoveOfRow(req, files, rows[i], items[i]);
      assert moves[k].dst == Target(req, rows[i]);
    } else {
      forall k | 0 <= k < |moves|
        ensures moves[k].src != Source(req, rows[i])
      {
        var j := ReadyItemOrigin(items, k);
        MoveOfRow(req, files, rows[j], items[j]);
      }
      assert !IsSource(moves, Source(req, rows[i]));
    }
  }

  /**
   After a successful run every row of the book points to an existing file with its original
   content, if and only if no moved file was shared with a row that stayed (two stored paths
   such as `/a/x` and `/a/../a/x` can name one file).
   */
  lemma RowsIntactIff(req: Request, files: Files, paths: PathColumn, rows: seq<FileRow>, items: seq<Item>)
    requires Resolved(req) && SafePlan(req, files, rows, items) && RowsOf(paths, rows)
    requires Fresh(files, Plan(req, items))
    ensures RowsIntact(req, rows, files, Updated(paths, ReadyItems(items)), After(files, Plan(req, items)))
       <==> NoSharedFile(req, rows, items)
  {
    hide Target, Resolved, Fresh, Show, Resolve;
    var paths', files' := Updated(paths, ReadyItems(items)), After(files, Plan(req, items));
    if NoSharedFile(req, rows, items) {
      forall i | 0 <= i < |rows|
        ensures rows[i].id in paths' && Source(req, rows[i]) in files
        ensures Resolve(req.cwd, paths'[rows[i].id]) in files'
        ensures files'[Resolve(req.cwd, paths'[rows[i].id])] == files[Source(req, rows[i])]
      {
        UpdatedRow(req, files, paths, rows, items, i);
        MoveOfRow(req, files, rows[i], items[i]);
        RowSurvives(req, files, rows, items, i);
      }
    }
    if RowsIntact(req, rows, files, paths', files') {
      forall i, j | 0 <= i < |rows| && 0 <= j < |rows| && items[i].status.Ready? && !items[j].status.Ready?
        ensures Source(req, rows[i]) != Source(req, rows[j])
      {
        UpdatedRow(req, files, paths, rows, items, j);
        if Source(req, rows[i]) == Source(req, rows[j]) {
          SharedFileLost(req, files, rows, items, i, j);
        }
      }
    }
  }

  // ---------- organising again ----------

  /** The book's rows as the next preview reads them. */
  function Reread(paths: PathColumn, rows: seq<FileRow>): (r: seq<FileRow>)
    requires forall i :: 0 <= i < |rows| ==> rows[i].id in paths
    ensures |r| == |rows|
    ensures forall i :: 0 <= i < |rows| ==> r[i] == rows[i].(path := paths[rows[i].id])
  {
    seq(|rows|, i requires 0 <= i < |rows| => rows[i].(path := paths[rows[i].id]))
  }

  /** A file at its own rendered target renders to that target again. */
  lemma TargetStable(req: Request, row: FileRow)
    requires Resolved(req)
    ensures Target(req, row.(path := Show(Target(req, row)))) == Target(req, row)
  {
    var again := row.(path := Show(Target(req, row)));
    var context := BuildContext(req.book, req.bookId, row);
    TargetBelowRoot(req, row);
    ContextIsNumbered(req.book, req.bookId, row);
    assert BuildContext(req.book, req.bookId, again) == context;
    hide BuildContext, Filename, Show, Normalise, Name, RenderPattern;
    FilenameStable(context, row.path);
  }

  lemma {:induction false} InPlaceUnchanged(req: Request, files: Files, rows: seq<FileRow>)
    requires Resolved(req)
    requires forall i :: 0 <= i < |rows| ==> Source(req, rows[i]) in files && Source(req, rows[i]) == Target(req, rows[i])
    ensures Rejected(req, files, rows) == []
    ensures forall i :: 0 <= i < |Candidates(req, files, rows)| ==>
      Candidates(req, files, rows)[i].source == Candidates(req, files, rows)[i].target
  {
    hide Target, Source, Resolved, Show, CommonPathUnder;
    if rows != [] {
      TargetBelowRoot(req, rows[|rows| - 1]);
      InPlaceUnchanged(req, files, rows[..|rows| - 1]);
    }
  }

  predicate AllUnchanged(items: seq<Item>) {
    forall i :: 0 <= i < |items| ==> items[i].status.Unchanged?
  }

  lemma PreviewInPlace(req: Request, files: Files, rows: seq<FileRow>)
    requires Resolved(req)
    requires forall i :: 0 <= i < |rows| ==> Source(req, rows[i]) in files && Source(req, rows[i]) == Target(req, rows[i])
    ensures AllUnchanged(PreviewItems(req, files, rows))
  {
    InPlaceUnchanged(req, files, rows);
    var cands := Candidates(req, files, rows);
    hide Target, Source, Resolved, Show, Rejected, Candidates, Rivals;
    ClassifiedAt(files, cands, cands);
  }

  lemma {:induction false} MissingRejected(req: Request, files: Files, rows: seq<FileRow>, i: nat)
    requires i < |rows| && Source(req, rows[i]) !in files
    ensures Rejected(req, files, rows) != []
  {
    hide Target, Source, Show, CommonPathUnder;
    if i < |rows| - 1 {
      MissingRejected(req, files, rows[..|rows| - 1], i);
    }
  }

  /** A row whose file is gone keeps a preview from being unchanged throughout. */
  lemma MissingShows(req: Request, files: Files, rows: seq<FileRow>, i: nat)
    requires i < |rows| && Source(req, rows[i]) !in files
    ensures !AllUnchanged(PreviewItems(req, files, rows))
  {
    MissingRejected(req, files, rows, i);
    RejectedUnsafe(req, files, rows);
    var cands := Candidates(req, files, rows);
    hide Source, Rejected, Candidates, Classified;
    FirstOfConcat(Rejected(req, files, rows), Classified(files, cands, cands));
  }

  /** A row that stayed although its file was moved away is missing in the next preview. */
  lemma SharedFileMissing(req: Request, files: Files, paths: PathColumn, rows: seq<FileRow>, items: seq<Item>, i: nat, j: nat)
    requires Resolved(req) && SafePlan(req, files, rows, items) && RowsOf(paths, rows)
    requires Fresh(files, Plan(req, items))
    requires i < |rows| && j < |rows| && items[i].status.Ready? && !items[j].status.Ready?
    requires Source(req, rows[i]) == Source(req, rows[j])
    requires forall k :: 0 <= k < |rows| ==> rows[k].id in Updated(paths, ReadyItems(items))
    ensures var paths' := Updated(paths, ReadyItems(items));
      !AllUnchanged(PreviewItems(req, After(files, Plan(req, items)), Reread(paths', rows)))
  {
    hide Target, Resolved, Fresh, Show, Resolve, PreviewItems, SafePlan, RowsOf, After, Updated;
    var rows' := Reread(Updated(paths, ReadyItems(items)), rows);
    UpdatedRow(req, files, paths, rows, items, j);
    assert rows'[j] == rows[j];
    SharedFileLost(req, files, rows, items, i, j);
    MissingShows(req, After(files, Plan(req, items)), rows', j);
  }

  lemma StaysInPlace(req: Request, files: Files, paths: PathColumn, rows: seq<FileRow>, items: seq<Item>)
    requires Resolved(req) && SafePlan(req, files, rows, items) && RowsOf(paths, rows)
    requires Fresh(files, Plan(req, items)) && NoSharedFile(req, rows, items)
    requires forall k :: 0 <= k < |rows| ==> rows[k].id in Updated(paths, ReadyItems(items))
    ensures var paths' := Updated(paths, ReadyItems(items));
      AllUnchanged(PreviewItems(req, After(files, Plan(req, items)), Reread(paths', rows)))
  {
    hide Target, Resolved, Fresh, Show, Resolve, PreviewItems, NoSharedFile;
    var paths', files' := Updated(paths, ReadyItems(items)), After(files, Plan(req, items));
    var rows' := Reread(paths', rows);
    forall i | 0 <= i < |rows'|
      ensures Source(req, rows'[i]) in files' && Source(req, rows'[i]) == Target(req, rows'[i])
    {
      UpdatedRow(req, files, paths, rows, items, i);
      MoveOfRow(req, files, rows[i], items[i]);
      RowSurvives(req, files, rows, items, i);
      TargetStable(req, rows[i]);
      assert rows[i].(path := rows[i].path) == rows[i];
    }
    PreviewInPlace(req, files', rows');
  }

  /**
   Organising is a fixpoint: a fresh preview after a successful run, with the same root,
   pattern and metadata, finds every file of the book unchanged, if and only if no moved file
   was shared with a row that stayed.
   */
  lemma OrganizeFixpoint(req: Request, files: Files, paths: PathColumn, rows: seq<FileRow>, items: seq<Item>)
    requires Resolved(req) && SafePlan(req, files, rows, items) && RowsOf(paths, rows)
    requires Fresh(files, Plan(req, items))
    ensures var paths' := Updated(paths, ReadyItems(items));
      && (forall i :: 0 <= i < |rows| ==> rows[i].id in paths')
      && (AllUnchanged(PreviewItems(req, After(files, Plan(req, items)), Reread(paths', rows)))
          <==> NoSharedFile(req, rows, items))
  {
    forall i | 0 <= i < |rows|
      ensures rows[i].id in Updated(paths, ReadyItems(items))
    {
      UpdatedRow(req, files, paths, rows, items, i);
    }
    hide Target, Source, Resolved, Fresh, Show, Resolve, PreviewItems, ItemFor, RowsOf, After, Updated, AllUnchanged, NoSharedFile;
    if NoSharedFile(req, rows, items) {
      StaysInPlace(req, files, paths, rows, items);
    } else {
      var i, j := SharedPair(req, rows, items);
      SharedFileMissing(req, files, paths, rows, items, i, j);
    }
  }

  lemma SharedPair(req: Request, rows: seq<FileRow>, items: seq<Item>) returns (i: nat, j: nat)
    requires |items| == |rows| && !NoSharedFile(req, rows, items)
    ensures i < |rows| && j < |rows| && items[i].status.Ready? && !items[j].status.Ready?
    ensures Source(req, rows[i]) == Source(req, rows[j])
  {
    hide Source;
    i, j :| i < |rows| && j < |rows| && items[i].status.Ready? && !items[j].status.Ready?
         && Source(req, rows[i]) == Source(req, rows[j]);
  }

  // ---------- the run ----------

  /** `POST /books/{id}/organize/apply`: a fresh preview, applied only when entirely safe. */
  method OrganizeBook(req: Request, fs: FileSystem, table: LibraryTable, rows: seq<FileRow>)
    returns (outcome: Outcome, ghost items: seq<Item>)
    requires Resolved(req) && RowsOf(table.paths, rows)
    modifies fs`files, table
    ensures items == PreviewItems(req, old(fs.files), rows)
    ensures outcome.Refused? <==> !AllSafe(items)
    ensures outcome.Refused? ==> fs.files == old(fs.files) && table.paths == old(table.paths)
    ensures !outcome.Refused? ==> SafePlan(req, old(fs.files), rows, items)
    ensures outcome.Applied? ==>
      && Fresh(old(fs.files), Plan(req, items))
      && fs.files == After(old(fs.files), Plan(req, items))
      && Relocated(old(fs.files), Plan(req, items), fs.files)
      && table.paths == Updated(old(table.paths), ReadyItems(items))
      && !TargetRecorded(old(table.paths), items)
      && (RowsIntact(req, rows, old(fs.files), table.paths, fs.files) <==> NoSharedFile(req, rows, items))
      && (forall i :: 0 <= i < |rows| ==> rows[i].id in table.paths)
      && (AllUnchanged(PreviewItems(req, fs.files, Reread(table.paths, rows))) <==> NoSharedFile(req, rows, items))
    ensures outcome.RolledBack? ==>
      && table.paths == old(table.paths)
      && |outcome.rollback| < |Plan(req, items)|
      && fs.files == After(old(fs.files), Unrestored(Plan(req, items)[..|outcome.rollback|], Flags(outcome.rollback)))
      && ((forall i :: 0 <= i < |outcome.rollback| ==> outcome.rollback[i].restored) ==> fs.files == old(fs.files))
    ensures outcome.Raised? ==>
      && TargetRecorded(old(table.paths), items)
      && table.paths == old(table.paths)
      && Relocated(old(fs.files), Plan(req, items), fs.files)
  {
    hide Target, Source, Show, Resolve, Resolved, PreviewItems, Fresh, Relocated, RowsIntact, NoSharedFile,
      TargetRecorded, UpdateClash, SourcesPresent, RowsOf, SafePlan, Plan, After, Updated, AllUnchanged;
    var preview := BuildPreview(req, fs, rows);
    items := preview.items;
    ghost var before, paths := fs.files, table.paths;
    assert preview.safeToApply <==> AllSafe(items);
    if !preview.safeToApply {
      outcome := Refused;
      return;
    }
    PlanIsSafe(req, before, rows, items);
    outcome := ApplyPreview(fs, table, req.cwd, preview);
    ghost var moves := Plan(req, items);
    PlanUnfolds(req, items);
    PathUpdateRefused(req, before, paths, rows, items);
    if outcome.RolledBack? {
      ghost var flags := Flags(outcome.rollback);
      PlanIsFresh(req, before, rows, items, |flags|);
      RolledBackState(before, moves[..|flags|], flags);
    } else {
      assert moves[..|moves|] == moves;
      PlanIsFresh(req, before, rows, items, |moves|);
      AfterFresh(before, moves);
      RowsIntactIff(req, before, paths, rows, items);
      OrganizeFixpoint(req, before, paths, rows, items);
    }
  }

  lemma PlanUnfolds(req: Request, items: seq<Item>)
    ensures Plan(req, items) == MovesOf(req.cwd, ReadyItems(items))
  {
  }

  lemma PlanIsSafe(req: Request, files: Files, rows: seq<FileRow>, items: seq<Item>)
    requires items == PreviewItems(req, files, rows) && AllSafe(items)
    ensures SafePlan(req, files, rows, items)
  {
    SafePreview(req, files, rows);
  }

  lemma RolledBackState(files: Files, moves: seq<Move>, restored: seq<bool>)
    requires Fresh(files, moves) && |restored| == |moves|
    ensures Undone(After(files, moves), moves, restored) == After(files, Unrestored(moves, restored))
    ensures (forall i :: 0 <= i < |restored| ==> restored[i]) ==> Undone(After(files, moves), moves, restored) == files
  {
    RollbackExact(files, moves, restored);
    assert moves[..0] + Unrestored(moves, restored) == Unrestored(moves, restored);
    if forall i :: 0 <= i < |restored| ==> restored[i] {
      RollbackComplete(files, moves, restored);
    }
  }
}
