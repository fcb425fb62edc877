/**
 Import placement (app/library/import_strategy.py): every file of one candidate is copied,
 moved or hard-linked into the root folder, or nothing is.
 */
module Placement {
  import opened Options
  import opened Paths
  import opened FileTree

  datatype Strategy = MoveFiles | CopyFiles | Hardlink | UnknownStrategy

  datatype Used = Copied | Moved | Linked | Unchanged

  /** One input tuple `(source_path, file_name, size_bytes, format)`. */
  datatype FileSpec = FileSpec(sourcePath: string, fileName: string, size: nat, format: string)

  datatype PlacedFile = PlacedFile(sourcePath: string, finalPath: Path, size: nat, format: string, used: Used)

  /** `Failed` tells, newest step first, which undo steps succeeded, and if space was what lacked. */
  datatype Placing =
    | Placed(files: seq<PlacedFile>)
    | PathTraversal
    | InsufficientSpace
    | Failed(restored: seq<bool>, lowSpace: bool)

  // ---------- targets ----------

  /** `(base / part)` followed by `resolve()`: an absolute part replaces the base. */
  function Descend(base: Path, part: string): Path {
    Normalise(if IsAbsolute(part) then [] else base, Parts(part))
  }

  function TargetPath(root: Path, folder: string, fileName: string): Path {
    Descend(Descend(root, folder), fileName)
  }

  predicate Contained(root: Path, folder: string, fileName: string) {
    CommonPathUnder(Show(TargetPath(root, folder, fileName)), Show(root))
  }

  lemma DescendName(base: Path, name: string)
    requires IsName(name)
    ensures Descend(base, name) == base + [name]
  {
    Text.SplitWithoutSeparator(name, '/');
    assert DropTrivial([name]) == [name];
    assert Normalise(base, [name]) == Normalise(base + [name], []);
    assert name[0] in name;
  }

  /** The traversal guard rejects exactly the targets outside the root. */
  lemma ContainedIff(root: Path, folder: string, fileName: string)
    requires Canonical(root)
    ensures Canonical(TargetPath(root, folder, fileName))
    ensures Contained(root, folder, fileName) <==> root <= TargetPath(root, folder, fileName)
  {
    var inner := if IsAbsolute(folder) then [] else root;
    NormaliseCanonical(inner, Parts(folder));
    var middle := Descend(root, folder);
    NormaliseCanonical(if IsAbsolute(fileName) then [] else middle, Parts(fileName));
    ContainmentTestsAgree(TargetPath(root, folder, fileName), root);
  }

  // ---------- free space ----------

  /** What `exists()` and `disk_usage()` report when the check is made. */
  datatype Disk = Disk(existing: set<Path>, free: Path -> nat)

  /** The nearest existing ancestor, or the file system root when there is none. */
  function NearestExisting(existing: set<Path>, p: Path): Path {
    if p in existing || p == [] then p else NearestExisting(existing, p[..|p| - 1])
  }

  predicate EnoughSpace(disk: Disk, destination: Path, required: nat) {
    disk.free(NearestExisting(disk.existing, destination)) >= required
  }

  method CheckFreeSpace(disk: Disk, destination: Path, required: nat) returns (enough: bool)
    ensures enough <==> disk.free(NearestExisting(disk.existing, destination)) >= required
  {
    var probe := destination;
    while probe !in disk.existing
      invariant NearestExisting(disk.existing, probe) == NearestExisting(disk.existing, destination)
      decreases |probe|
    {
      if probe == [] {
        break;
      }
      probe := probe[..|probe| - 1];
    }
    return disk.free(probe) >= required;
  }

  /** The probe is the longest existing prefix of the destination. */
  lemma {:induction false} NearestIsLongest(existing: set<Path>, p: Path, q: Path)
    requires q in existing && q <= p
    ensures NearestExisting(existing, p) in existing
    ensures q <= NearestExisting(existing, p) <= p
  {
    if p !in existing {
      assert q == p[..|q|] && p == p[..|p|];
      assert |q| != |p|;
      NearestIsLongest(existing, p[..|p| - 1], q);
    }
  }

  // ---------- one step and its undo ----------

  datatype Step = Step(used: Used, src: Path, dst: Path)

  /** Changing this file's data changes none of `files`. */
  ghost predicate Independent(files: Files, node: Node) {
    forall p :: p in files ==> files[p].inode != node.inode
  }

  /** How one placement changes the files: a copy gets its own inode, no existing target is touched. */
  ghost predicate Effect(before: Files, step: Step, after: Files) {
    && step.src in before && step.dst !in before
    && match step.used
       case Copied =>
         step.dst in after && after == before[step.dst := after[step.dst]]
         && after[step.dst].content == before[step.src].content
         && Independent(before, after[step.dst])
       case Linked => after == before[step.dst := before[step.src]]
       case Moved => after == (before - {step.src})[step.dst := before[step.src]]
       case Unchanged => false
  }

  predicate Fits(strategy: Strategy, used: Used) {
    match strategy
    case CopyFiles => used.Copied?
    case MoveFiles => used.Moved?
    case Hardlink => used.Linked? || used.Copied?
    case UnknownStrategy => false
  }

  /** What was asked for, seen on the files alone: `dst` is new, and only a move takes `src` away. */
  ghost predicate AsAsked(strategy: Strategy, before: Files, src: Path, dst: Path, after: Files) {
    && src in before && dst !in before && dst in after && after[dst].content == before[src].content
    && (forall p :: p in before && p != src ==> p in after && after[p] == before[p])
    && (forall p :: p in after ==> p in before || p == dst)
    && (strategy.CopyFiles? ==> src in after && after[src] == before[src] && Independent(before, after[dst]))
    && (strategy.MoveFiles? ==> src !in after && after[dst] == before[src])
    && (strategy.Hardlink? ==>
      src in after && after[src] == before[src] && (after[dst] == before[src] || Independent(before, after[dst])))
    && !strategy.UnknownStrategy?
  }

  lemma EffectIsAsAsked(strategy: Strategy, before: Files, step: Step, after: Files)
    requires Fits(strategy, step.used) && Effect(before, step, after)
    ensures AsAsked(strategy, before, step.src, step.dst, after)
  {
  }

  function Parent(p: Path): Path {
    if p == [] then [] else p[..|p| - 1]
  }

  /**
   One file by one strategy. A refused hard link falls back to a copy exactly when `disk`, the
   report at that moment, has room for it; `lowSpace` is the refusal.
   */
  method PlaceFile(fs: FileSystem, disk: Disk, src: Path, dst: Path, size: nat, strategy: Strategy)
    returns (used: Option<Used>, lowSpace: bool)
    requires fs.Valid() && dst !in fs.files
    modifies fs
    ensures fs.Valid()
    ensures used.Some? ==> Fits(strategy, used.value) && Effect(old(fs.files), Step(used.value, src, dst), fs.files)
    ensures used.Some? ==> AsAsked(strategy, old(fs.files), src, dst, fs.files)
    ensures used.Some? && strategy.CopyFiles? ==> used.value.Copied?
    ensures used.Some? && strategy.MoveFiles? ==> used.value.Moved?
    ensures used.Some? && strategy.Hardlink? ==> used.value.Copied? || (used.value.Linked? && fs.files[dst] == fs.files[src])
    ensures used.None? ==> fs.files == old(fs.files)
    ensures lowSpace ==> strategy.Hardlink? && used.None? && !EnoughSpace(disk, Parent(dst), size)
    ensures strategy.Hardlink? && !EnoughSpace(disk, Parent(dst), size) ==> lowSpace || used == Some(Linked)
  {
    lowSpace := false;
    var ok;
    match strategy {
      case CopyFiles =>
        ok := fs.Copy(src, dst);
        used := if ok then Some(Copied) else None;
      case MoveFiles =>
        ok := fs.Move(src, dst);
        used := if ok then Some(Moved) else None;
      case Hardlink =>
        ok := fs.Link(src, dst);
        if ok {
          return Some(Linked), false;
        }
        var enough := CheckFreeSpace(disk, Parent(dst), size);
        if !enough {
          return None, true;
        }
        ok := fs.Copy(src, dst);
        used := if ok then Some(Copied) else None;
      case UnknownStrategy =>
        used := None;
    }
  }

  /** The states passed through: `trail[k]` to `trail[k + 1]` is the effect of `done[k]`. */
  ghost predicate Trail(trail: seq<Files>, done: seq<Step>) {
    && |trail| == |done| + 1
    && forall k :: 0 <= k < |done| ==> Effect(trail[k], done[k], trail[k + 1])
  }

  /** Undoing the newest step restores the state before it. */
  lemma UndoStep(before: Files, step: Step, after: Files)
    requires Effect(before, step, after)
    ensures step.used.Moved? ==> Rename(after, step.dst, step.src) == before
    ensures !step.used.Moved? ==> after - {step.dst} == before
  {
  }

  /** The files after undoing the last `|restored|` steps, newest first; a failed undo is skipped. */
  function UndoneSteps(files: Files, done: seq<Step>, restored: seq<bool>): Files
    requires |restored| <= |done|
    decreases |restored|
  {
    if restored == [] then files
    else
      var m := |restored|;
      var before := UndoneSteps(files, done, restored[..m - 1]);
      var step := done[|done| - m];
      if !restored[m - 1] then before
      else if step.used.Moved? then Rename(before, step.dst, step.src)
      else before - {step.dst}
  }

  predicate AllRestored(restored: seq<bool>) {
    forall i :: 0 <= i < |restored| ==> restored[i]
  }

  lemma UndoneNext(files: Files, done: seq<Step>, restored: seq<bool>, ok: bool)
    ensures UndoneSteps(files, done, []) == files
    ensures |restored| < |done| ==>
      var before, step := UndoneSteps(files, done, restored), done[|done| - 1 - |restored|];
      UndoneSteps(files, done, restored + [ok])
      == if !ok then before else if step.used.Moved? then Rename(before, step.dst, step.src) else before - {step.dst}
  {
    hide Rename;
    assert (restored + [ok])[..|restored|] == restored;
  }

  /** When every undo succeeds, each step back leads to the state before it. */
  lemma {:induction false} AllUndone(trail: seq<Files>, done: seq<Step>, restored: seq<bool>)
    requires Trail(trail, done) && |restored| <= |done| && AllRestored(restored)
    ensures UndoneSteps(trail[|done|], done, restored) == trail[|done| - |restored|]
    decreases |restored|
  {
    hide Effect, Rename;
    if restored != [] {
      var m := |restored|;
      AllUndone(trail, done, restored[..m - 1]);
      UndoStep(trail[|done| - m], done[|done| - m], trail[|done| - m + 1]);
    }
  }

  /** Undo in reverse order, best effort: a failing undo is skipped and reported. */
  method UndoPlaced(fs: FileSystem, done: seq<Step>, ghost trail: seq<Files>) returns (restored: seq<bool>)
    requires Trail(trail, done) && fs.files == trail[|done|]
    modifies fs`files
    ensures |restored| == |done|
    ensures fs.files == UndoneSteps(old(fs.files), done, restored)
    ensures AllRestored(restored) ==> fs.files == trail[0]
    ensures old(fs.Valid()) ==> fs.Valid()
  {
    hide UndoneSteps, Rename, Effect;
    restored := [];
    UndoneNext(fs.files, done, [], true);
    for n := 0 to |done|
      invariant |restored| == n
      invariant fs.files == UndoneSteps(old(fs.files), done, restored)
      invariant old(fs.Valid()) ==> fs.Valid()
    {
      var step := done[|done| - 1 - n];
      var ok;
      if step.used.Moved? {
        ok := fs.Move(step.dst, step.src);
      } else {
        ok := fs.Unlink(step.dst);
      }
      UndoneNext(old(fs.files), done, restored, ok);
      restored := restored + [ok];
    }
    if AllRestored(restored) {
      AllUndone(trail, done, restored);
    }
  }

  // ---------- the whole candidate ----------

  function Sources(cwd: Path, specs: seq<FileSpec>): (r: seq<Path>)
    ensures |r| == |specs| && forall i :: 0 <= i < |r| ==> r[i] == Resolve(cwd, specs[i].sourcePath)
  {
    seq(|specs|, i requires 0 <= i < |specs| => Resolve(cwd, specs[i].sourcePath))
  }

  function Targets(root: Path, folder: string, specs: seq<FileSpec>): (r: seq<Path>)
    ensures |r| == |specs| && forall i :: 0 <= i < |r| ==> r[i] == TargetPath(root, folder, specs[i].fileName)
  {
    seq(|specs|, i requires 0 <= i < |specs| => TargetPath(root, folder, specs[i].fileName))
  }

  function TransferBytes(specs: seq<FileSpec>, sources: seq<Path>, targets: seq<Path>): nat
    requires |sources| == |targets| == |specs|
  {
    if specs == [] then 0
    else
      var n := |specs| - 1;
      TransferBytes(specs[..n], sources[..n], targets[..n]) + if sources[n] != targets[n] then specs[n].size else 0
  }

  ghost predicate SomeTransfer(sources: seq<Path>, targets: seq<Path>)
    requires |sources| == |targets|
  {
    exists i :: 0 <= i < |sources| && sources[i] != targets[i]
  }

  ghost predicate PlacedOne(before: Files, src: Path, dst: Path, used: Used, after: Files) {
    if src == dst then used.Unchanged? && after == before
    else Effect(before, Step(used, src, dst), after)
  }

  /** State by state, each file is either in place already or placed by one effect. */
  ghost predicate PlacedAlong(trail: seq<Files>, sources: seq<Path>, targets: seq<Path>, used: seq<Used>) {
    && |trail| == |sources| + 1 && |targets| == |sources| == |used|
    && forall i :: 0 <= i < |sources| ==> PlacedOne(trail[i], sources[i], targets[i], used[i], trail[i + 1])
  }

  lemma PlacedFurther(
      trail: seq<Files>, sources: seq<Path>, targets: seq<Path>, used: seq<Used>, src: Path, dst: Path, u: Used, after: Files)
    requires PlacedAlong(trail, sources, targets, used)
    requires PlacedOne(trail[|sources|], src, dst, u, after)
    ensures PlacedAlong(trail + [after], sources + [src], targets + [dst], used + [u])
  {
    hide PlacedOne;
    var n := |sources|;
    var trail', sources', targets', used' := trail + [after], sources + [src], targets + [dst], used + [u];
    forall i | 0 <= i < n + 1
      ensures PlacedOne(trail'[i], sources'[i], targets'[i], used'[i], trail'[i + 1])
    {
      assert trail'[i] == trail[i];
      if i < n {
        assert trail'[i + 1] == trail[i + 1] && sources'[i] == sources[i] && targets'[i] == targets[i] && used'[i] == used[i];
      }
    }
  }

  function UsedOf(placed: seq<PlacedFile>): (r: seq<Used>)
    ensures |r| == |placed| && forall i :: 0 <= i < |r| ==> r[i] == placed[i].used
  {
    seq(|placed|, i requires 0 <= i < |placed| => placed[i].used)
  }

  ghost predicate PlacedRows(placed: seq<PlacedFile>, specs: seq<FileSpec>, targets: seq<Path>, strategy: Strategy)
  {
    && |placed| <= |specs| == |targets|
    && forall i :: 0 <= i < |placed| ==>
      && placed[i] == PlacedFile(specs[i].sourcePath, targets[i], specs[i].size, specs[i].format, placed[i].used)
      && (placed[i].used.Unchanged? || Fits(strategy, placed[i].used))
  }

  /** Each file not in place already was placed as the strategy asks, one after the other. */
  ghost predicate AllAsAsked(strategy: Strategy, trail: seq<Files>, sources: seq<Path>, targets: seq<Path>) {
    && |trail| == |sources| + 1 == |targets| + 1
    && forall i :: 0 <= i < |sources| ==>
      if sources[i] == targets[i] then trail[i + 1] == trail[i]
      else AsAsked(strategy, trail[i], sources[i], targets[i], trail[i + 1])
  }

  lemma PlacedAsAsked(
      trail: seq<Files>, specs: seq<FileSpec>, sources: seq<Path>, targets: seq<Path>, placed: seq<PlacedFile>, strategy: Strategy)
    requires |placed| == |specs| == |targets| && PlacedRows(placed, specs, targets, strategy)
    requires PlacedAlong(trail, sources, targets, UsedOf(placed))
    ensures AllAsAsked(strategy, trail, sources, targets)
  {
    hide Effect, AsAsked, Fits;
    forall i | 0 <= i < |sources| && sources[i] != targets[i]
      ensures AsAsked(strategy, trail[i], sources[i], targets[i], trail[i + 1])
    {
      PlacedOneAsAsked(strategy, trail[i], sources[i], targets[i], placed[i].used, trail[i + 1]);
    }
  }

  lemma PlacedOneAsAsked(strategy: Strategy, before: Files, src: Path, dst: Path, used: Used, after: Files)
    requires src != dst && PlacedOne(before, src, dst, used, after)
    requires used.Unchanged? || Fits(strategy, used)
    ensures AsAsked(strategy, before, src, dst, after)
  {
    EffectIsAsAsked(strategy, before, Step(used, src, dst), after);
  }

  /** The steps taken for the first `k` files: one for each that was not in place already. */
  ghost predicate StepsTaken(done: seq<Step>, sources: seq<Path>, targets: seq<Path>, k: nat)
    requires k <= |sources| == |targets|
  {
    if k == 0 then done == []
    else if sources[k - 1] == targets[k - 1] then StepsTaken(done, sources, targets, k - 1)
    else
      && done != []
      && done[|done| - 1].src == sources[k - 1] && done[|done| - 1].dst == targets[k - 1]
      && StepsTaken(done[..|done| - 1], sources, targets, k - 1)
  }

  /** After a failure: the steps taken so far, and the exact result of their best-effort undo. */
  ghost predicate UndoneAfterFailure(
      before: Files, after: Files, restored: seq<bool>, trail: seq<Files>, done: seq<Step>, sources: seq<Path>, targets: seq<Path>)
    requires |sources| == |targets|
  {
    && Trail(trail, done) && trail[0] == before
    && |restored| == |done| && after == UndoneSteps(trail[|done|], done, restored)
    && exists k :: 0 <= k < |sources| && StepsTaken(done, sources, targets, k)
  }

  /** Each copy made in place of a hard link had room, by the report at its turn. */
  ghost predicate FallbacksFit(
      placed: seq<PlacedFile>, specs: seq<FileSpec>, targets: seq<Path>, strategy: Strategy, fallback: nat -> Disk)
    requires |placed| <= |specs| == |targets|
  {
    forall i: nat :: i < |placed| && strategy.Hardlink? && placed[i].used.Copied? ==>
      EnoughSpace(fallback(i), Parent(targets[i]), specs[i].size)
  }

  /** The placement failed at file `i` because a refused hard link left no room for a copy. */
  ghost predicate RefusedForSpace(
      done: seq<Step>, specs: seq<FileSpec>, sources: seq<Path>, targets: seq<Path>, strategy: Strategy, fallback: nat -> Disk, i: nat)
    requires |specs| == |sources| == |targets|
  {
    && i < |specs| && strategy.Hardlink? && StepsTaken(done, sources, targets, i)
    && !EnoughSpace(fallback(i), Parent(targets[i]), specs[i].size)
  }

  /** `disk` is the report before the transfer, `fallback(i)` the one if file `i` needs a fallback. */
  method PlaceCandidateFiles(
      fs: FileSystem, disk: Disk, fallback: nat -> Disk, cwd: Path, root: Path, folder: string, specs: seq<FileSpec>,
      strategy: Strategy)
    returns (result: Placing, ghost trail: seq<Files>, ghost done: seq<Step>)
    requires fs.Valid()
    modifies fs
    ensures fs.Valid()
    ensures result.PathTraversal? <==>
      exists i :: 0 <= i < |specs| && !Contained(root, folder, specs[i].fileName)
    ensures result.PathTraversal? || result.InsufficientSpace? ==> fs.files == old(fs.files)
    ensures result.Failed? && AllRestored(result.restored) ==> fs.files == old(fs.files)
    ensures result.Failed? ==> UndoneAfterFailure(
      old(fs.files), fs.files, result.restored, trail, done, Sources(cwd, specs), Targets(root, folder, specs))
    ensures result.Failed? && result.lowSpace ==> exists i: nat ::
      RefusedForSpace(done, specs, Sources(cwd, specs), Targets(root, folder, specs), strategy, fallback, i)
    ensures var sources, targets := Sources(cwd, specs), Targets(root, folder, specs);
      && (result.InsufficientSpace? <==>
        && !result.PathTraversal? && (strategy.CopyFiles? || strategy.MoveFiles?) && SomeTransfer(sources, targets)
        && disk.free(NearestExisting(disk.existing, root)) < TransferBytes(specs, sources, targets))
      && (result.Placed? ==>
        && |result.files| == |specs|
        && PlacedRows(result.files, specs, targets, strategy)
        && FallbacksFit(result.files, specs, targets, strategy, fallback)
        && PlacedAlong(trail, sources, targets, UsedOf(result.files))
        && AllAsAsked(strategy, trail, sources, targets)
        && trail[0] == old(fs.files) && trail[|specs|] == fs.files)
  {
    hide Contained, TargetPath, Resolve, Rename, Effect, UndoneAfterFailure, UndoneSteps, FallbacksFit, RefusedForSpace,
      AsAsked, AllAsAsked;
    trail, done := [fs.files], [];
    for n := 0 to |specs|
      invariant forall i :: 0 <= i < n ==> Contained(root, folder, specs[i].fileName)
    {
      if !Contained(root, folder, specs[n].fileName) {
        result := PathTraversal;
        return;
      }
    }
    var sources, targets := Sources(cwd, specs), Targets(root, folder, specs);
    if strategy.CopyFiles? || strategy.MoveFiles? {
      var some, total := TotalTransfer(specs, sources, targets);
      if some {
        var enough := CheckFreeSpace(disk, root, total);
        if !enough {
          result := InsufficientSpace;
          return;
        }
      }
    }
    result, trail, done := PlaceAll(fs, fallback, specs, sources, targets, strategy);
  }

  lemma OneMoreTransfer(specs: seq<FileSpec>, sources: seq<Path>, targets: seq<Path>, n: nat)
    requires |sources| == |targets| == |specs| && n < |specs|
    ensures SomeTransfer(sources[..n + 1], targets[..n + 1])
       <==> SomeTransfer(sources[..n], targets[..n]) || sources[n] != targets[n]
    ensures TransferBytes(specs[..n + 1], sources[..n + 1], targets[..n + 1])
         == TransferBytes(specs[..n], sources[..n], targets[..n]) + if sources[n] != targets[n] then specs[n].size else 0
  {
    assert specs[..n + 1][..n] == specs[..n] && sources[..n + 1][..n] == sources[..n];
    assert targets[..n + 1][..n] == targets[..n];
    assert forall i :: 0 <= i < n ==> sources[..n][i] == sources[..n + 1][i] && targets[..n][i] == targets[..n + 1][i];
    assert sources[..n + 1][n] == sources[n] && targets[..n + 1][n] == targets[n];
  }

  method TotalTransfer(specs: seq<FileSpec>, sources: seq<Path>, targets: seq<Path>) returns (some: bool, total: nat)
    requires |sources| == |targets| == |specs|
    ensures some <==> SomeTransfer(sources, targets)
    ensures total == TransferBytes(specs, sources, targets)
  {
    some, total := false, 0;
    for n := 0 to |specs|
      invariant some <==> SomeTransfer(sources[..n], targets[..n])
      invariant total == TransferBytes(specs[..n], sources[..n], targets[..n])
    {
      OneMoreTransfer(specs, sources, targets, n);
      if sources[n] != targets[n] {
        some, total := true, total + specs[n].size;
      }
    }
    assert sources[..|specs|] == sources && targets[..|specs|] == targets && specs[..|specs|] == specs;
  }

  /** The placing loop with its rollback. */
  method PlaceAll(
      fs: FileSystem, fallback: nat -> Disk, specs: seq<FileSpec>, sources: seq<Path>, targets: seq<Path>, strategy: Strategy)
    returns (result: Placing, ghost trail: seq<Files>, ghost done: seq<Step>)
    requires fs.Valid() && |sources| == |targets| == |specs|
    modifies fs
    ensures fs.Valid() && (result.Placed? || result.Failed?)
    ensures result.Failed? && AllRestored(result.restored) ==> fs.files == old(fs.files)
    ensures result.Failed? ==>
      UndoneAfterFailure(old(fs.files), fs.files, result.restored, trail, done, sources, targets)
    ensures result.Failed? && result.lowSpace ==> exists i: nat ::
      RefusedForSpace(done, specs, sources, targets, strategy, fallback, i)
    ensures result.Placed? ==>
      && |result.files| == |specs|
      && PlacedRows(result.files, specs, targets, strategy)
      && FallbacksFit(result.files, specs, targets, strategy, fallback)
      && PlacedAlong(trail, sources, targets, UsedOf(result.files))
      && AllAsAsked(strategy, trail, sources, targets)
      && trail[0] == old(fs.files) && trail[|specs|] == fs.files
  {
    hide Effect, Rename, UndoneSteps, Trail, PlacedRows, PlacedAlong, PlacedOne, StepsTaken, Fits, FallbacksFit, EnoughSpace,
      AsAsked, AllAsAsked;
    var placed: seq<PlacedFile>, steps: seq<Step> := [], [];
    trail, done := [fs.files], [];
    ghost var states := [fs.files];
    NothingTaken(fs.files, specs, sources, targets, strategy);
    for n := 0 to |specs|
      invariant fs.Valid() && |placed| == n && |trail| == n + 1 && |states| == |steps| + 1
      invariant trail[0] == states[0] == old(fs.files) && trail[n] == states[|steps|] == fs.files
      invariant PlacedRows(placed, specs, targets, strategy)
      invariant FallbacksFit(placed, specs, targets, strategy, fallback)
      invariant PlacedAlong(trail, sources[..n], targets[..n], UsedOf(placed))
      invariant Trail(states, steps) && StepsTaken(steps, sources, targets, n)
    {
      var used := Unchanged;
      if sources[n] != targets[n] {
        var attempt: Option<Used>, lowSpace := None, false;
        if targets[n] !in fs.files {
          attempt, lowSpace := PlaceFile(fs, fallback(n), sources[n], targets[n], specs[n].size, strategy);
        }
        if attempt.None? {
          var restored := UndoPlaced(fs, steps, states);
          trail, done := states, steps;
          result := Failed(restored, lowSpace);
          assert lowSpace ==> RefusedForSpace(done, specs, sources, targets, strategy, fallback, n);
          return;
        }
        used := attempt.value;
        StepsOneMore(steps, Step(used, sources[n], targets[n]), sources, targets, n);
        TrailOneMore(states, steps, Step(used, sources[n], targets[n]), fs.files);
        steps := steps + [Step(used, sources[n], targets[n])];
        states := states + [fs.files];
      } else {
        StepsUnchanged(steps, sources, targets, n);
      }
      OnePlaced(trail[n], sources[n], targets[n], used, fs.files);
      PlacedFurther(trail, sources[..n], targets[..n], UsedOf(placed), sources[n], targets[n], used, fs.files);
      RowsOneMore(placed, specs, targets, strategy, used);
      FallbackOneMore(placed, specs, targets, strategy, fallback, used);
      trail := trail + [fs.files];
      placed := placed + [PlacedFile(specs[n].sourcePath, targets[n], specs[n].size, specs[n].format, used)];
      assert sources[..n + 1] == sources[..n] + [sources[n]] && targets[..n + 1] == targets[..n] + [targets[n]];
    }
    assert sources[..|specs|] == sources && targets[..|specs|] == targets;
    PlacedAsAsked(trail, specs, sources, targets, placed, strategy);
    result := Placed(placed);
  }

  lemma NothingTaken(files: Files, specs: seq<FileSpec>, sources: seq<Path>, targets: seq<Path>, strategy: Strategy)
    requires |sources| == |targets| == |specs|
    ensures PlacedRows([], specs, targets, strategy) && PlacedAlong([files], sources[..0], targets[..0], UsedOf([]))
    ensures forall fallback: nat -> Disk :: FallbacksFit([], specs, targets, strategy, fallback)
    ensures Trail([files], []) && StepsTaken([], sources, targets, 0)
  {
  }

  lemma TrailOneMore(trail: seq<Files>, done: seq<Step>, step: Step, after: Files)
    requires Trail(trail, done) && Effect(trail[|done|], step, after)
    ensures Trail(trail + [after], done + [step])
  {
    hide Effect;
    forall k | 0 <= k < |done| + 1
      ensures Effect((trail + [after])[k], (done + [step])[k], (trail + [after])[k + 1])
    {
      assert (trail + [after])[k] == trail[k];
      assert k < |done| ==> (trail + [after])[k + 1] == trail[k + 1] && (done + [step])[k] == done[k];
    }
  }

  lemma OnePlaced(before: Files, src: Path, dst: Path, used: Used, after: Files)
    requires if src == dst then used.Unchanged? && after == before else Effect(before, Step(used, src, dst), after)
    ensures PlacedOne(before, src, dst, used, after)
  {
    hide Effect;
  }

  lemma RowsOneMore(placed: seq<PlacedFile>, specs: seq<FileSpec>, targets: seq<Path>, strategy: Strategy, used: Used)
    requires PlacedRows(placed, specs, targets, strategy) && |placed| < |specs| == |targets|
    requires used.Unchanged? || Fits(strategy, used)
    ensures var n := |placed|;
      var row := PlacedFile(specs[n].sourcePath, targets[n], specs[n].size, specs[n].format, used);
      PlacedRows(placed + [row], specs, targets, strategy) && UsedOf(placed + [row]) == UsedOf(placed) + [used]
  {
    hide Fits;
  }

  lemma FallbackOneMore(
      placed: seq<PlacedFile>, specs: seq<FileSpec>, targets: seq<Path>, strategy: Strategy, fallback: nat -> Disk, used: Used)
    requires |placed| < |specs| == |targets| && FallbacksFit(placed, specs, targets, strategy, fallback)
    requires var n := |placed|;
      strategy.Hardlink? && used.Copied? ==> EnoughSpace(fallback(n), Parent(targets[n]), specs[n].size)
    ensures var n := |placed|;
      var row := PlacedFile(specs[n].sourcePath, targets[n], specs[n].size, specs[n].format, used);
      FallbacksFit(placed + [row], specs, targets, strategy, fallback)
  {
    hide EnoughSpace;
  }

  lemma StepsUnchanged(done: seq<Step>, sources: seq<Path>, targets: seq<Path>, k: nat)
    requires k < |sources| == |targets| && StepsTaken(done, sources, targets, k) && sources[k] == targets[k]
    ensures StepsTaken(done, sources, targets, k + 1)
  {
  }

  lemma StepsOneMore(done: seq<Step>, step: Step, sources: seq<Path>, targets: seq<Path>, k: nat)
    requires k < |sources| == |targets| && StepsTaken(done, sources, targets, k)
    requires step.src == sources[k] && step.dst == targets[k] && sources[k] != targets[k]
    ensures StepsTaken(done + [step], sources, targets, k + 1)
  {
    assert (done + [step])[..|done|] == done;
  }
}
