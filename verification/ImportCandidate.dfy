/**
 The importer's use of placement (app/library/importer.py): all files of a candidate are
 direct children of one folder and go to one target folder under their own names.
 */
module ImportCandidate {
  import opened Paths
  import opened FileTree
  import opened Placement
  import Scanner

  datatype ScannedFile = ScannedFile(path: string, size: nat, format: string)

  datatype BookCandidate = BookCandidate(folderPath: string, folderName: string, files: seq<ScannedFile>)

  /** `str(Path(folder) / name)` */
  function JoinPath(folder: string, name: string): string {
    if folder == "" then name else folder + "/" + name
  }

  function SpecsOf(candidate: BookCandidate): (r: seq<FileSpec>)
    ensures |r| == |candidate.files|
    ensures forall i :: 0 <= i < |r| ==> r[i] == FileSpec(
      JoinPath(candidate.folderPath, Name(candidate.files[i].path)),
      Name(candidate.files[i].path), candidate.files[i].size, candidate.files[i].format)
  {
    seq(|candidate.files|, i requires 0 <= i < |candidate.files| => FileSpec(
      JoinPath(candidate.folderPath, Name(candidate.files[i].path)),
      Name(candidate.files[i].path), candidate.files[i].size, candidate.files[i].format))
  }

  lemma {:induction false} DropTrivialConcat(a: seq<string>, b: seq<string>)
    requires forall i :: 0 <= i < |a| ==> '/' !in a[i]
    requires forall i :: 0 <= i < |b| ==> '/' !in b[i]
    ensures DropTrivial(a + b) == DropTrivial(a) + DropTrivial(b)
  {
    if a == [] {
      assert a + b == b;
    } else {
      assert (a + b)[0] == a[0] && (a + b)[1..] == a[1..] + b;
      assert forall i :: 0 <= i < |a| - 1 ==> a[1..][i] == a[i + 1];
      DropTrivialConcat(a[1..], b);
    }
  }

  lemma {:induction false} NormaliseConcat(base: Path, a: seq<string>, b: seq<string>)
    ensures Normalise(base, a + b) == Normalise(Normalise(base, a), b)
    decreases a
  {
    if a == [] {
      assert a + b == b;
    } else {
      assert (a + b)[1..] == a[1..] + b;
      NormaliseConcat(if a[0] == ".." then (if base == [] then [] else base[..|base| - 1]) else base + [a[0]], a[1..], b);
    }
  }

  lemma ResolveJoin(cwd: Path, folder: string, name: string)
    requires IsName(name)
    ensures Resolve(cwd, JoinPath(folder, name)) == Resolve(cwd, folder) + [name]
  {
    Text.SplitWithoutSeparator(name, '/');
    assert DropTrivial([name]) == [name];
    assert name[0] in name;
    NormaliseNames(if IsAbsolute(folder) then [] else cwd, [name]);
    if folder == "" {
      assert Parts("") == [];
    } else {
      assert folder + "/" + name == folder + ['/'] + name;
      Text.SplitConcat(folder, name, '/');
      DropTrivialConcat(Text.Split(folder, '/'), [name]);
      var base := if IsAbsolute(folder) then [] else cwd;
      NormaliseConcat(base, Parts(folder), [name]);
      NormaliseNames(Normalise(base, Parts(folder)), [name]);
    }
  }

  lemma PartsJoined(folder: string, part: string)
    requires '/' !in part
    ensures Parts(folder + "/" + part) == Parts(folder) + if IsPart(part) then [part] else []
  {
    hide Text.Split;
    Text.SplitWithoutSeparator(part, '/');
    assert folder + "/" + part == folder + ['/'] + part;
    Text.SplitConcat(folder, part, '/');
    DropTrivialConcat(Text.Split(folder, '/'), [part]);
    assert [part][1..] == [] && DropTrivial([]) == [];
  }

  /** `..` leads to the parent, and the root is its own; `.`, empty components and `""` stay. */
  lemma ResolveDots(cwd: Path, folder: string)
    requires folder != ""
    ensures var p := Resolve(cwd, folder);
      && Resolve(cwd, folder + "/..") == (if p == [] then [] else p[..|p| - 1])
      && Resolve(cwd, folder + "/.") == p && Resolve(cwd, folder + "/") == p
    ensures Resolve(cwd, "") == cwd && Resolve(cwd, "/") == []
  {
    hide Text.Split, DropTrivial, Parts;
    PartsJoined(folder, "..");
    PartsJoined(folder, ".");
    PartsJoined(folder, "");
    PartsJoined("", "");
    assert folder + "/" + ".." == folder + "/.." && folder + "/" + "." == folder + "/.";
    assert folder + "/" + "" == folder + "/" && "" + "/" + "" == "/";
    var base := if IsAbsolute(folder) then [] else cwd;
    NormaliseConcat(base, Parts(folder), [".."]);
    var p := Normalise(base, Parts(folder));
    assert Normalise(p, [".."]) == Normalise(if p == [] then [] else p[..|p| - 1], [".."][1..]);
    assert Parts(folder) + [] == Parts(folder) && Parts("") + [] == Parts("");
    NothingInEmpty();
  }

  lemma NothingInEmpty()
    ensures Parts("") == []
  {
  }

  // ---------- placements that do not feed each other ----------

  /** Sources are distinct, targets are distinct, and no target is a source. */
  ghost predicate Separate(sources: seq<Path>, targets: seq<Path>) {
    && |sources| == |targets|
    && (forall i, j :: 0 <= i < j < |sources| ==> sources[i] != sources[j] && targets[i] != targets[j])
    && (forall i, j :: 0 <= i < |sources| && 0 <= j < |targets| ==> sources[i] != targets[j])
  }

  ghost predicate TakenAway(sources: seq<Path>, used: seq<Used>, k: nat, p: Path)
    requires k <= |sources| == |used|
  {
    exists i :: 0 <= i < k && used[i].Moved? && sources[i] == p
  }

  /** What is at a target: a copy with the same content and its own inode, or the file itself. */
  ghost predicate Arrived(a: Files, source: Node, used: Used, target: Node) {
    if used.Copied? then target.content == source.content && Independent(a, target) else target == source
  }

  /** The first `k` files are placed, and nothing else has changed. */
  ghost predicate PlacedFirst(a: Files, b: Files, sources: seq<Path>, targets: seq<Path>, used: seq<Used>, k: nat)
    requires k <= |sources| == |targets| == |used|
  {
    && (forall i :: 0 <= i < k ==>
      && sources[i] in a && targets[i] !in a && targets[i] in b
      && Arrived(a, a[sources[i]], used[i], b[targets[i]]))
    && (forall p :: p in a && !TakenAway(sources, used, k, p) ==> p in b && b[p] == a[p])
    && (forall p :: p in b ==> (p in a && !TakenAway(sources, used, k, p)) || p in targets[..k])
  }

  lemma SeparateAt(sources: seq<Path>, targets: seq<Path>, i: nat, j: nat)
    requires Separate(sources, targets) && i < |sources| && j < |sources|
    ensures |targets| == |sources| && sources[i] != targets[j]
    ensures i != j ==> sources[i] != sources[j] && targets[i] != targets[j]
  {
  }

  lemma NextEndpoints(a: Files, b: Files, sources: seq<Path>, targets: seq<Path>, used: seq<Used>, k: nat)
    requires Separate(sources, targets) && k < |sources| == |targets| == |used|
    requires PlacedFirst(a, b, sources, targets, used, k)
    requires sources[k] in b && targets[k] !in b
    ensures sources[k] in a && !TakenAway(sources, used, k, sources[k]) && b[sources[k]] == a[sources[k]]
    ensures targets[k] !in a && targets[k] !in targets[..k]
  {
    hide Separate;
    forall i | 0 <= i < |sources|
      ensures sources[k] != targets[i] && sources[i] != targets[k]
      ensures i != k ==> sources[i] != sources[k] && targets[i] != targets[k]
    {
      SeparateAt(sources, targets, k, i);
      SeparateAt(sources, targets, i, k);
    }
    assert !TakenAway(sources, used, k, sources[k]) && !TakenAway(sources, used, k, targets[k]);
    assert sources[k] !in targets[..k];
  }

  lemma TakenNext(sources: seq<Path>, used: seq<Used>, k: nat, p: Path)
    requires k < |sources| == |used|
    ensures TakenAway(sources, used, k + 1, p) <==> TakenAway(sources, used, k, p) || (used[k].Moved? && p == sources[k])
  {
  }

  /** No file of `a` is lost on the way: it is where it was or at the target it was moved to. */
  lemma NodeRemains(a: Files, b: Files, sources: seq<Path>, targets: seq<Path>, used: seq<Used>, k: nat, p: Path)
    returns (q: Path)
    requires k <= |sources| == |targets| == |used|
    requires PlacedFirst(a, b, sources, targets, used, k) && p in a
    ensures q in b && b[q] == a[p]
  {
    q := p;
    if TakenAway(sources, used, k, p) {
      var i :| 0 <= i < k && used[i].Moved? && sources[i] == p;
      q := targets[i];
    }
  }

  lemma NextArrived(a: Files, b: Files, c: Files, sources: seq<Path>, targets: seq<Path>, used: seq<Used>, k: nat)
    requires k < |sources| == |targets| == |used| && sources[k] in a && sources[k] in b && b[sources[k]] == a[sources[k]]
    requires PlacedFirst(a, b, sources, targets, used, k)
    requires Effect(b, Step(used[k], sources[k], targets[k]), c)
    ensures targets[k] in c && Arrived(a, a[sources[k]], used[k], c[targets[k]])
  {
    hide PlacedFirst;
    if used[k].Copied? {
      forall p | p in a
        ensures a[p].inode != c[targets[k]].inode
      {
        var q := NodeRemains(a, b, sources, targets, used, k, p);
      }
    }
  }

  lemma PlaceNext(
      a: Files, b: Files, c: Files, sources: seq<Path>, targets: seq<Path>, used: seq<Used>, k: nat)
    requires Separate(sources, targets) && k < |sources| == |targets| == |used|
    requires PlacedFirst(a, b, sources, targets, used, k)
    requires Effect(b, Step(used[k], sources[k], targets[k]), c)
    ensures PlacedFirst(a, c, sources, targets, used, k + 1)
  {
    hide Separate, TakenAway, Arrived, Independent;
    var src, dst := sources[k], targets[k];
    NextEndpoints(a, b, sources, targets, used, k);
    NextArrived(a, b, c, sources, targets, used, k);
    assert targets[..k + 1] == targets[..k] + [dst];
    forall i | 0 <= i < k + 1
      ensures sources[i] in a && targets[i] !in a && targets[i] in c
      ensures Arrived(a, a[sources[i]], used[i], c[targets[i]])
    {
      SeparateAt(sources, targets, k, i);
    }
    forall p
      ensures p in a && !TakenAway(sources, used, k + 1, p) ==> p in c && c[p] == a[p]
      ensures p in c ==> (p in a && !TakenAway(sources, used, k + 1, p)) || p in targets[..k + 1]
    {
      TakenNext(sources, used, k, p);
    }
  }

  /** Content arrives, nothing existing is overwritten, and only moves take a source away. */
  lemma SeparatePlacement(trail: seq<Files>, sources: seq<Path>, targets: seq<Path>, used: seq<Used>)
    requires PlacedAlong(trail, sources, targets, used) && Separate(sources, targets)
    ensures PlacedFirst(trail[0], trail[|sources|], sources, targets, used, |sources|)
  {
    hide Effect;
    var a := trail[0];
    for k := 0 to |sources|
      invariant PlacedFirst(a, trail[k], sources, targets, used, k)
    {
      assert PlacedOne(trail[k], sources[k], targets[k], used[k], trail[k + 1]);
      assert sources[k] != targets[k];
      PlaceNext(a, trail[k], trail[k + 1], sources, targets, used, k);
    }
  }

  lemma {:induction false} NothingPlaced(trail: seq<Files>, sources: seq<Path>, targets: seq<Path>, used: seq<Used>, k: nat)
    requires PlacedAlong(trail, sources, targets, used) && sources == targets && k <= |sources|
    ensures trail[k] == trail[0]
    ensures forall i :: 0 <= i < k ==> used[i].Unchanged?
  {
    hide Effect;
    if k > 0 {
      NothingPlaced(trail, sources, targets, used, k - 1);
      assert PlacedOne(trail[k - 1], sources[k - 1], targets[k - 1], used[k - 1], trail[k]);
    }
  }

  // ---------- what the strategy asked for means for the sources ----------

  /** Copies and hard links keep every file, and each copy has an inode that no other file has. */
  lemma {:induction false} StrategyKeeps(
      strategy: Strategy, trail: seq<Files>, sources: seq<Path>, targets: seq<Path>, k: nat)
    requires AllAsAsked(strategy, trail, sources, targets) && k <= |sources|
    ensures strategy.CopyFiles? || strategy.Hardlink? ==>
      forall p :: p in trail[0] ==> p in trail[k] && trail[k][p] == trail[0][p]
    ensures strategy.CopyFiles? ==>
      forall p, q :: p in trail[k] && q in trail[k] && p !in trail[0] && q != p ==> trail[k][q].inode != trail[k][p].inode
    ensures strategy.UnknownStrategy? ==> trail[k] == trail[0] && sources[..k] == targets[..k]
  {
    if k > 0 {
      StrategyKeeps(strategy, trail, sources, targets, k - 1);
      assert sources[k - 1] != targets[k - 1] ==>
          AsAsked(strategy, trail[k - 1], sources[k - 1], targets[k - 1], trail[k]);
    }
  }

  /** Moves take every source away, and leave its node at the target. */
  lemma {:induction false} MovesTake(trail: seq<Files>, sources: seq<Path>, targets: seq<Path>, k: nat)
    requires AllAsAsked(MoveFiles, trail, sources, targets) && Separate(sources, targets) && k <= |sources|
    ensures forall i :: 0 <= i < k ==> sources[i] !in trail[k]
    ensures forall i :: k <= i < |sources| && sources[i] in trail[0] ==>
      sources[i] in trail[k] && trail[k][sources[i]] == trail[0][sources[i]]
    ensures forall i :: 0 <= i < k ==>
      sources[i] in trail[0] && targets[i] in trail[k] && trail[k][targets[i]] == trail[0][sources[i]]
    ensures forall i :: k <= i < |sources| && sources[i] in trail[k] ==> sources[i] in trail[0]
  {
    hide Separate;
    if k > 0 {
      MovesTake(trail, sources, targets, k - 1);
      forall i | 0 <= i < |sources|
        ensures sources[i] != targets[k - 1] && sources[k - 1] != targets[i]
        ensures i != k - 1 ==> sources[i] != sources[k - 1] && targets[i] != targets[k - 1]
      {
        SeparateAt(sources, targets, i, k - 1);
        SeparateAt(sources, targets, k - 1, i);
      }
      assert AsAsked(MoveFiles, trail[k - 1], sources[k - 1], targets[k - 1], trail[k]);
    }
  }

  function TotalSize(files: seq<ScannedFile>): nat {
    if files == [] then 0 else TotalSize(files[..|files| - 1]) + files[|files| - 1].size
  }

  lemma {:induction false} EveryByteTransferred(
      files: seq<ScannedFile>, specs: seq<FileSpec>, sources: seq<Path>, targets: seq<Path>)
    requires |files| == |specs| == |sources| == |targets|
    requires forall i :: 0 <= i < |files| ==> specs[i].size == files[i].size && sources[i] != targets[i]
    ensures TransferBytes(specs, sources, targets) == TotalSize(files)
  {
    if files != [] {
      var n := |files| - 1;
      EveryByteTransferred(files[..n], specs[..n], sources[..n], targets[..n]);
    }
  }

  // ---------- a failed undo step ----------

  /** Step `k` is still in effect after undoing newest first: not reached yet, or its undo failed. */
  predicate Remains(done: seq<Step>, restored: seq<bool>, k: nat)
    requires |restored| <= |done|
  {
    k < |done| && (k < |done| - |restored| || !restored[|done| - 1 - k])
  }

  ghost predicate StillGone(done: seq<Step>, restored: seq<bool>, p: Path)
    requires |restored| <= |done|
  {
    exists k: nat :: Remains(done, restored, k) && done[k].used.Moved? && done[k].src == p
  }

  ghost predicate StillThere(done: seq<Step>, restored: seq<bool>, p: Path)
    requires |restored| <= |done|
  {
    exists k: nat :: Remains(done, restored, k) && done[k].dst == p
  }

  ghost predicate SeparateSteps(done: seq<Step>) {
    && (forall i, j :: 0 <= i < j < |done| ==> done[i].src != done[j].src && done[i].dst != done[j].dst)
    && (forall i, j :: 0 <= i < |done| && 0 <= j < |done| ==> done[i].src != done[j].dst)
  }

  /** `b` is `a` with exactly the remaining steps in effect. */
  ghost predicate LeftBehind(a: Files, b: Files, done: seq<Step>, restored: seq<bool>)
    requires |restored| <= |done|
  {
    && (forall k :: 0 <= k < |done| ==> done[k].src in a && done[k].dst !in a)
    && (forall k: nat :: Remains(done, restored, k) ==>
      done[k].dst in b && Arrived(a, a[done[k].src], done[k].used, b[done[k].dst]))
    && (forall p :: p in a && !StillGone(done, restored, p) ==> p in b && b[p] == a[p])
    && (forall p :: p in b ==> (p in a && !StillGone(done, restored, p)) || StillThere(done, restored, p))
  }

  lemma RemainsNext(done: seq<Step>, restored: seq<bool>, ok: bool, k: nat)
    requires |restored| < |done|
    ensures Remains(done, restored + [ok], k)
       <==> Remains(done, restored, k) && (!ok || k != |done| - 1 - |restored|)
  {
  }

  lemma StillNext(done: seq<Step>, restored: seq<bool>, p: Path)
    requires |restored| < |done| && SeparateSteps(done)
    ensures var step := done[|done| - 1 - |restored|];
      && (StillGone(done, restored + [true], p)
          <==> StillGone(done, restored, p) && !(step.used.Moved? && p == step.src))
      && (StillThere(done, restored + [true], p) <==> StillThere(done, restored, p) && p != step.dst)
  {
    forall k: nat
      ensures Remains(done, restored + [true], k) <==> Remains(done, restored, k) && k != |done| - 1 - |restored|
    {
      RemainsNext(done, restored, true, k);
    }
    hide Remains;
  }

  lemma StillSame(done: seq<Step>, restored: seq<bool>, p: Path)
    requires |restored| < |done|
    ensures StillGone(done, restored + [false], p) <==> StillGone(done, restored, p)
    ensures StillThere(done, restored + [false], p) <==> StillThere(done, restored, p)
  {
    forall k: nat
      ensures Remains(done, restored + [false], k) <==> Remains(done, restored, k)
    {
      RemainsNext(done, restored, false, k);
    }
    hide Remains;
  }

  lemma SkippedUndo(a: Files, b: Files, done: seq<Step>, restored: seq<bool>)
    requires |restored| < |done| && LeftBehind(a, b, done, restored)
    ensures LeftBehind(a, b, done, restored + [false])
  {
    hide Remains, StillGone, StillThere, Arrived;
    forall p
      ensures StillGone(done, restored + [false], p) <==> StillGone(done, restored, p)
      ensures StillThere(done, restored + [false], p) <==> StillThere(done, restored, p)
    {
      StillSame(done, restored, p);
    }
    forall k: nat
      ensures Remains(done, restored + [false], k) <==> Remains(done, restored, k)
    {
      RemainsNext(done, restored, false, k);
    }
  }

  /** The step about to be undone is in effect, and its source is free. */
  lemma NextToUndo(a: Files, b: Files, done: seq<Step>, restored: seq<bool>)
    requires |restored| < |done| && SeparateSteps(done) && LeftBehind(a, b, done, restored)
    ensures var step := done[|done| - 1 - |restored|];
      && step.dst in b && step.src in a && step.dst !in a
      && (step.used.Moved? ==> step.src !in b && b[step.dst] == a[step.src])
  {
    var k := |done| - 1 - |restored|;
    var step := done[k];
    assert Remains(done, restored, k);
    if step.used.Moved? {
      assert StillGone(done, restored, step.src);
      assert !StillThere(done, restored, step.src);
    }
  }

  lemma SucceededUndo(a: Files, b: Files, done: seq<Step>, restored: seq<bool>)
    requires |restored| < |done| && SeparateSteps(done) && LeftBehind(a, b, done, restored)
    ensures var step := done[|done| - 1 - |restored|];
      LeftBehind(a, if step.used.Moved? then Rename(b, step.dst, step.src) else b - {step.dst}, done, restored + [true])
  {
    hide Remains, StillGone, StillThere, Arrived;
    var n := |done| - 1 - |restored|;
    var step := done[n];
    NextToUndo(a, b, done, restored);
    var c := if step.used.Moved? then Rename(b, step.dst, step.src) else b - {step.dst};
    forall k: nat | Remains(done, restored + [true], k)
      ensures k < |done| && done[k].dst in c && Arrived(a, a[done[k].src], done[k].used, c[done[k].dst])
    {
      RemainsNext(done, restored, true, k);
      RemainsInRange(done, restored, k);
    }
    forall p
      ensures p in a && !StillGone(done, restored + [true], p) ==> p in c && c[p] == a[p]
      ensures p in c ==> (p in a && !StillGone(done, restored + [true], p)) || StillThere(done, restored + [true], p)
    {
      StillNext(done, restored, p);
    }
  }

  lemma RemainsInRange(done: seq<Step>, restored: seq<bool>, k: nat)
    requires |restored| <= |done| && Remains(done, restored, k)
    ensures k < |done|
  {
  }

  /**
   The best-effort undo is exact on separate steps: what is left displaced or left behind is
   precisely the steps whose undo failed.
   */
  lemma {:induction false} UndoExact(a: Files, full: Files, done: seq<Step>, restored: seq<bool>)
    requires |restored| <= |done| && SeparateSteps(done) && LeftBehind(a, full, done, [])
    ensures LeftBehind(a, UndoneSteps(full, done, restored), done, restored)
    decreases |restored|
  {
    hide SeparateSteps, LeftBehind, Rename;
    if restored != [] {
      var m := |restored|;
      var before := restored[..m - 1];
      assert restored == before + [restored[m - 1]];
      UndoExact(a, full, done, before);
      UndoneNext(full, done, before, restored[m - 1]);
      if restored[m - 1] {
        SucceededUndo(a, UndoneSteps(full, done, before), done, before);
      } else {
        SkippedUndo(a, UndoneSteps(full, done, before), done, before);
      }
    }
  }

  // ---------- the steps taken for separate inputs ----------

  lemma {:induction false} StepsAreFirst(done: seq<Step>, sources: seq<Path>, targets: seq<Path>, k: nat)
    requires Separate(sources, targets) && k <= |sources| && StepsTaken(done, sources, targets, k)
    ensures |done| == k && forall i :: 0 <= i < k ==> done[i].src == sources[i] && done[i].dst == targets[i]
  {
    hide Separate;
    if k > 0 {
      SeparateAt(sources, targets, k - 1, k - 1);
      StepsAreFirst(done[..|done| - 1], sources, targets, k - 1);
      assert forall i :: 0 <= i < k - 1 ==> done[..|done| - 1][i] == done[i];
    }
  }

  lemma {:induction false} NoStepsInPlace(done: seq<Step>, sources: seq<Path>, targets: seq<Path>, k: nat)
    requires sources == targets && k <= |sources| && StepsTaken(done, sources, targets, k)
    ensures done == []
  {
    if k > 0 {
      NoStepsInPlace(done, sources, targets, k - 1);
    }
  }

  lemma FirstStepsSeparate(done: seq<Step>, sources: seq<Path>, targets: seq<Path>)
    requires Separate(sources, targets) && |done| <= |sources|
    requires forall i :: 0 <= i < |done| ==> done[i].src == sources[i] && done[i].dst == targets[i]
    ensures SeparateSteps(done) && Separate(sources[..|done|], targets[..|done|])
  {
    forall i, j | 0 <= i < |done| && 0 <= j < |done|
      ensures done[i].src != done[j].dst
      ensures i != j ==> done[i].src != done[j].src && done[i].dst != done[j].dst
    {
      SeparateAt(sources, targets, i, j);
      assert done[i].src == sources[i] && done[j].dst == targets[j];
    }
  }

  function UsedBy(done: seq<Step>): (r: seq<Used>)
    ensures |r| == |done| && forall i :: 0 <= i < |r| ==> r[i] == done[i].used
  {
    seq(|done|, i requires 0 <= i < |done| => done[i].used)
  }

  /** Before any undo, all the steps taken are in effect. */
  lemma AllInEffect(trail: seq<Files>, done: seq<Step>, sources: seq<Path>, targets: seq<Path>)
    requires Trail(trail, done) && Separate(sources, targets) && |done| == |sources|
    requires forall i :: 0 <= i < |done| ==> done[i].src == sources[i] && done[i].dst == targets[i]
    ensures LeftBehind(trail[0], trail[|done|], done, [])
  {
    TrailPlaces(trail, done, sources, targets);
    var used, a, b := UsedBy(done), trail[0], trail[|done|];
    SeparatePlacement(trail, sources, targets, used);
    assert forall k: nat :: Remains(done, [], k) <==> k < |done|;
    forall p
      ensures StillGone(done, [], p) <==> TakenAway(sources, used, |sources|, p)
      ensures StillThere(done, [], p) <==> p in targets[..|sources|]
    {
      EffectAt(done, sources, targets, used, p);
    }
    hide Remains, StillGone, StillThere, TakenAway, Arrived, Separate, Trail;
  }

  lemma EffectAt(done: seq<Step>, sources: seq<Path>, targets: seq<Path>, used: seq<Used>, p: Path)
    requires |done| == |sources| == |targets| && used == UsedBy(done)
    requires forall i :: 0 <= i < |done| ==> done[i].src == sources[i] && done[i].dst == targets[i]
    ensures StillGone(done, [], p) <==> TakenAway(sources, used, |sources|, p)
    ensures StillThere(done, [], p) <==> p in targets[..|sources|]
  {
    assert forall k: nat :: Remains(done, [], k) <==> k < |done|;
    hide Remains;
    if TakenAway(sources, used, |sources|, p) {
      var i :| 0 <= i < |sources| && used[i].Moved? && sources[i] == p;
      assert Remains(done, [], i);
    }
    if p in targets[..|sources|] {
      var i :| 0 <= i < |sources| && targets[..|sources|][i] == p;
      assert Remains(done, [], i) && done[i].dst == p;
    }
    if StillThere(done, [], p) {
      var k: nat :| Remains(done, [], k) && done[k].dst == p;
      assert targets[..|sources|][k] == p;
    }
  }

  lemma TrailPlaces(trail: seq<Files>, done: seq<Step>, sources: seq<Path>, targets: seq<Path>)
    requires Trail(trail, done) && |done| == |sources| == |targets| && Separate(sources, targets)
    requires forall i :: 0 <= i < |done| ==> done[i].src == sources[i] && done[i].dst == targets[i]
    ensures PlacedAlong(trail, sources, targets, UsedBy(done))
  {
    hide Effect, Separate;
    forall i | 0 <= i < |sources|
      ensures PlacedOne(trail[i], sources[i], targets[i], UsedBy(done)[i], trail[i + 1])
    {
      SeparateAt(sources, targets, i, i);
      assert done[i] == Step(UsedBy(done)[i], sources[i], targets[i]);
    }
  }

  /** After a failed placement on separate inputs: exactly the steps whose undo failed remain. */
  lemma FailureExact(
      a: Files, b: Files, restored: seq<bool>, trail: seq<Files>, done: seq<Step>, sources: seq<Path>, targets: seq<Path>)
    requires Separate(sources, targets) && UndoneAfterFailure(a, b, restored, trail, done, sources, targets)
    ensures |restored| == |done| < |sources| && LeftBehind(a, b, done, restored)
    ensures forall i :: 0 <= i < |done| ==> done[i].src == sources[i] && done[i].dst == targets[i]
  {
    var k :| 0 <= k < |sources| && StepsTaken(done, sources, targets, k);
    hide Separate, StepsTaken, Trail, LeftBehind, SeparateSteps, UndoneSteps;
    StepsAreFirst(done, sources, targets, k);
    FirstStepsSeparate(done, sources, targets);
    AllInEffect(trail, done, sources[..k], targets[..k]);
    UndoExact(a, trail[|done|], done, restored);
  }

  // ---------- one candidate ----------

  /**
   What the scanner delivers: distinct plain file names. The folder name is the last component
   of a path as stored, which can be missing (`/`, `.`) or `..` (`NameShapes`).
   */
  ghost predicate Scanned(candidate: BookCandidate) {
    && (candidate.folderName in {"", ".."} || IsName(candidate.folderName))
    && (forall i :: 0 <= i < |candidate.files| ==> IsName(Name(candidate.files[i].path)))
    && (forall i, j :: 0 <= i < j < |candidate.files| ==>
      Name(candidate.files[i].path) != Name(candidate.files[j].path))
  }

  lemma NameShapes(s: string)
    ensures Name(s) in {"", ".."} || IsName(Name(s))
  {
  }

  function TargetFolder(root: Path, candidate: BookCandidate): Path {
    if candidate.folderName == "" then root
    else if candidate.folderName == ".." then (if root == [] then [] else root[..|root| - 1])
    else root + [candidate.folderName]
  }

  lemma CandidatePaths(cwd: Path, root: Path, candidate: BookCandidate, i: nat)
    requires Scanned(candidate) && i < |candidate.files|
    ensures var specs := SpecsOf(candidate); var name := Name(candidate.files[i].path);
      && Sources(cwd, specs)[i] == Resolve(cwd, candidate.folderPath) + [name]
      && Targets(root, candidate.folderName, specs)[i] == TargetFolder(root, candidate) + [name]
  {
    hide Resolve, Name, Descend, IsName;
    var specs, name := SpecsOf(candidate), Name(candidate.files[i].path);
    assert specs[i].fileName == name && specs[i].sourcePath == JoinPath(candidate.folderPath, name);
    ResolveJoin(cwd, candidate.folderPath, name);
    assert Descend(root, candidate.folderName) == TargetFolder(root, candidate) by {
      if candidate.folderName == "" {
        DescendNothing(root);
      } else if candidate.folderName == ".." {
        DescendUp(root);
      } else {
        DescendName(root, candidate.folderName);
      }
    }
    DescendName(TargetFolder(root, candidate), name);
  }

  lemma DescendUp(base: Path)
    ensures Descend(base, "..") == if base == [] then [] else base[..|base| - 1]
  {
    Text.SplitWithoutSeparator("..", '/');
    assert DropTrivial([".."]) == [".."];
    var up := if base == [] then [] else base[..|base| - 1];
    assert Normalise(base, [".."]) == Normalise(up, [".."][1..]);
  }

  lemma DescendNothing(base: Path)
    ensures Descend(base, "") == base
  {
    assert Parts("") == [];
  }

  /** The folder is called `..`, and the file is not called like the root folder itself. */
  predicate Escapes(root: Path, candidate: BookCandidate, i: nat)
    requires i < |candidate.files|
  {
    candidate.folderName == ".." && root != [] && root[|root| - 1] != Name(candidate.files[i].path)
  }

  /** The traversal guard accepts a file of a scanned candidate exactly when it does not escape. */
  lemma CandidateContained(cwd: Path, root: Path, candidate: BookCandidate, i: nat)
    requires Canonical(root) && Scanned(candidate) && i < |candidate.files|
    ensures Contained(root, candidate.folderName, SpecsOf(candidate)[i].fileName) <==> !Escapes(root, candidate, i)
  {
    hide Resolve, Name, Contained, IsName, Scanned, TargetPath, Normalise, Canonical;
    CandidatePaths(cwd, root, candidate, i);
    ContainedIff(root, candidate.folderName, SpecsOf(candidate)[i].fileName);
    UnderTargetFolder(root, candidate, i);
  }

  lemma UnderTargetFolder(root: Path, candidate: BookCandidate, i: nat)
    requires i < |candidate.files|
    ensures root <= TargetFolder(root, candidate) + [Name(candidate.files[i].path)] <==> !Escapes(root, candidate, i)
  {
    hide Name;
    var name := Name(candidate.files[i].path);
    var t := TargetFolder(root, candidate) + [name];
    if candidate.folderName == ".." && root != [] {
      var up := root[..|root| - 1];
      assert root == up + [root[|root| - 1]];
      assert t == up + [name];
      assert |t| == |root|;
    } else {
      assert t == root + if candidate.folderName in {"", ".."} then [name] else [candidate.folderName, name];
    }
  }

  /**
   A root folder stored as `/media/books/..` with an audio file directly in it: the scanned
   candidate is called `..`, its file would land beside the root, and the import is refused.
   */
  lemma ParentRootRefused()
    ensures var stored := "/media/books/..";
      var candidate := BookCandidate(stored, Name(stored), [ScannedFile("b.mp3", 1, "mp3")]);
      && Resolve([], stored) == ["media"] && Scanned(candidate) && Escapes(["media"], candidate, 0)
      && Scanner.Candidate([], ["b.mp3"])
           in Scanner.Candidates(Scanner.RootAndBookChildren(Scanner.Dir(Name(stored), ["b.mp3"], [])))
  {
    LooseFileFound(Name("/media/books/.."));
    hide Parts, Normalise, Name, Resolve;
    StoredParent();
    PlainName("b.mp3");
    assert ["media"][0][0] == 'm' && "b.mp3"[0] == 'b';
  }

  /** The scanner reports an audio file lying directly in the scanned folder. */
  lemma LooseFileFound(name: string)
    ensures Scanner.Candidate([], ["b.mp3"])
      in Scanner.Candidates(Scanner.RootAndBookChildren(Scanner.Dir(name, ["b.mp3"], [])))
  {
    var root := Scanner.Dir(name, ["b.mp3"], []);
    Text.RFindIs("b.mp3", '.', 1);
    assert "b.mp3"[1..] == ".mp3";
    assert Text.Lower(".mp3") == ".mp3";
    assert Scanner.AudioFiles(root.files) == ["b.mp3"] + Scanner.AudioFiles(root.files[1..]);
    assert Scanner.AudioFiles(root.files) == ["b.mp3"];
    Scanner.ScanFindsIff(root, Scanner.Candidate([], ["b.mp3"]));
  }

  lemma StoredParent()
    ensures Resolve([], "/media/books/..") == ["media"] && Name("/media/books/..") == ".."
  {
    var p := ["media", "books"];
    StoredParentParts();
    hide Parts;
    NormaliseConcat([], p, [".."]);
    NormaliseNames([], p);
    DescendUp(p);
    assert p + [".."] == ["media", "books", ".."] && [] + p == p && p[..1] == ["media"];
    assert Normalise(p, [".."]) == Normalise(p[..1], [".."][1..]);
  }

  lemma StoredParentParts()
    ensures Parts("/media/books/..") == ["media", "books", ".."]
  {
    hide Text.Split;
    var p := ["media", "books"];
    assert ShowTail(p) == "/" + "media" + ShowTail(["books"]) && ShowTail(["books"]) == "/" + "books" + ShowTail([]);
    assert ShowTail(p) == "/media/books";
    assert "/media/books/.." == "/media/books" + ['/'] + "..";
    Text.SplitConcat("/media/books", "..", '/');
    SplitShowTail(p);
    Text.SplitWithoutSeparator("..", '/');
    assert Text.Split("/media/books/..", '/') == ["", "media", "books", ".."];
    assert DropTrivial(["", "media", "books", ".."]) == DropTrivial(["media", "books", ".."]);
    assert forall i :: 0 <= i < 3 ==> IsPart(["media", "books", ".."][i]);
    assert DropTrivial(["media", "books", ".."]) == ["media", "books", ".."];
  }

  lemma PlainName(s: string)
    requires IsName(s)
    ensures Name(s) == s
  {
    Text.SplitWithoutSeparator(s, '/');
    assert DropTrivial([s]) == [s];
  }

  /** Different folders never feed each other; the same folder means everything is in place. */
  lemma CandidateSeparate(cwd: Path, root: Path, candidate: BookCandidate)
    requires Scanned(candidate)
    ensures var specs := SpecsOf(candidate);
      var sources, targets := Sources(cwd, specs), Targets(root, candidate.folderName, specs);
      if Resolve(cwd, candidate.folderPath) == TargetFolder(root, candidate) then sources == targets
      else Separate(sources, targets)
  {
    hide Resolve, Name, TargetPath, IsName;
    var specs := SpecsOf(candidate);
    var sources, targets := Sources(cwd, specs), Targets(root, candidate.folderName, specs);
    var d, t := Resolve(cwd, candidate.folderPath), TargetFolder(root, candidate);
    forall i | 0 <= i < |specs|
      ensures sources[i] == d + [specs[i].fileName] && targets[i] == t + [specs[i].fileName]
    {
      CandidatePaths(cwd, root, candidate, i);
    }
    forall i, j | 0 <= i < |specs| && 0 <= j < |specs|
      ensures sources[i] == targets[j] ==> d == t
      ensures i < j ==> sources[i] != sources[j] && targets[i] != targets[j]
    {
      assert sources[i][..|sources[i]| - 1] == d && targets[j][..|targets[j]| - 1] == t;
      assert sources[i][|d|] == specs[i].fileName && sources[j][|d|] == specs[j].fileName;
      assert targets[i][|t|] == specs[i].fileName && targets[j][|t|] == specs[j].fileName;
    }
  }

  /**
   Placing one scanned candidate is all or nothing. The traversal guard fires exactly when some
   file escapes through a folder called `..`; after a failure exactly the steps whose undo
   failed remain, so none when all succeed; on success every recorded final path holds its
   source's content (a copy under its own inode), nothing that existed is overwritten or lost,
   and a source disappears only when it was moved.
   */
  method PlaceCandidate(
      fs: FileSystem, disk: Disk, fallback: nat -> Disk, cwd: Path, root: Path, candidate: BookCandidate, strategy: Strategy)
    returns (result: Placing, ghost done: seq<Step>)
    requires fs.Valid() && Canonical(root) && Scanned(candidate)
    modifies fs
    ensures fs.Valid()
    ensures result.PathTraversal? <==> exists i :: 0 <= i < |candidate.files| && Escapes(root, candidate, i)
    ensures result.PathTraversal? || result.InsufficientSpace? ==> fs.files == old(fs.files)
    ensures result.InsufficientSpace? <==>
      && !result.PathTraversal? && (strategy.CopyFiles? || strategy.MoveFiles?)
      && Resolve(cwd, candidate.folderPath) != TargetFolder(root, candidate)
      && disk.free(NearestExisting(disk.existing, root)) < TotalSize(candidate.files)
    ensures result.Failed? && AllRestored(result.restored) ==> fs.files == old(fs.files)
    ensures result.Failed? ==>
      var specs := SpecsOf(candidate);
      var sources, targets := Sources(cwd, specs), Targets(root, candidate.folderName, specs);
      if Resolve(cwd, candidate.folderPath) == TargetFolder(root, candidate) then fs.files == old(fs.files)
      else
        && |result.restored| == |done| < |specs|
        && (forall i :: 0 <= i < |done| ==> done[i].src == sources[i] && done[i].dst == targets[i])
        && LeftBehind(old(fs.files), fs.files, done, result.restored)
    ensures result.Failed? && result.lowSpace ==>
      var specs := SpecsOf(candidate);
      exists i: nat :: RefusedForSpace(
        done, specs, Sources(cwd, specs), Targets(root, candidate.folderName, specs), strategy, fallback, i)
    ensures result.Placed? ==>
      var specs := SpecsOf(candidate);
      var sources, targets := Sources(cwd, specs), Targets(root, candidate.folderName, specs);
      && |result.files| == |specs|
      && PlacedRows(result.files, specs, targets, strategy)
      && FallbacksFit(result.files, specs, targets, strategy, fallback)
      && if Resolve(cwd, candidate.folderPath) == TargetFolder(root, candidate)
         then fs.files == old(fs.files)
         else PlacedFirst(old(fs.files), fs.files, sources, targets, UsedOf(result.files), |specs|)
    ensures result.Placed? && (strategy.CopyFiles? || strategy.Hardlink?) ==>
      forall p :: p in old(fs.files) ==> p in fs.files && fs.files[p] == old(fs.files)[p]
    ensures result.Placed? && strategy.MoveFiles? ==>
      var specs := SpecsOf(candidate);
      var sources, targets := Sources(cwd, specs), Targets(root, candidate.folderName, specs);
      forall i :: 0 <= i < |specs| && sources[i] != targets[i] ==>
        && sources[i] in old(fs.files) && sources[i] !in fs.files
        && targets[i] in fs.files && fs.files[targets[i]] == old(fs.files)[sources[i]]
    ensures result.Placed? && strategy.CopyFiles? ==>
      forall p, q :: p in fs.files && q in fs.files && p !in old(fs.files) && q != p ==>
        fs.files[q].inode != fs.files[p].inode
    ensures result.Placed? && strategy.UnknownStrategy? ==>
      candidate.files == [] || Resolve(cwd, candidate.folderPath) == TargetFolder(root, candidate)
  {
    hide Contained, Resolve, TargetPath, Name, Effect, Separate, PlacedFirst, Scanned, PlacedAlong, PlacedRows, IsName,
      LeftBehind, UndoneAfterFailure, Escapes, TargetFolder, FallbacksFit, RefusedForSpace, AllAsAsked,
      NearestExisting;
    var specs := SpecsOf(candidate);
    ghost var sources, targets := Sources(cwd, specs), Targets(root, candidate.folderName, specs);
    forall i | 0 <= i < |specs|
      ensures Contained(root, candidate.folderName, specs[i].fileName) <==> !Escapes(root, candidate, i)
    {
      CandidateContained(cwd, root, candidate, i);
    }
    ghost var trail;
    result, trail, done := PlaceCandidateFiles(fs, disk, fallback, cwd, root, candidate.folderName, specs, strategy);
    CandidateSeparate(cwd, root, candidate);
    BytesOfCandidate(candidate, sources, targets);
    if result.Placed? {
      StrategyKeeps(strategy, trail, sources, targets, |specs|);
      TrailLength(trail, sources, targets, UsedOf(result.files));
      if Resolve(cwd, candidate.folderPath) == TargetFolder(root, candidate) {
        NothingPlaced(trail, sources, targets, UsedOf(result.files), |specs|);
      } else {
        SeparatePlacement(trail, sources, targets, UsedOf(result.files));
        if strategy.MoveFiles? {
          MovesTake(trail, sources, targets, |specs|);
        }
        NothingUnknown(sources, targets);
      }
    } else if result.Failed? {
      if Resolve(cwd, candidate.folderPath) == TargetFolder(root, candidate) {
        InPlaceFailure(old(fs.files), fs.files, result.restored, trail, done, sources, targets);
      } else {
        FailureExact(old(fs.files), fs.files, result.restored, trail, done, sources, targets);
      }
    }
  }

  lemma BytesOfCandidate(candidate: BookCandidate, sources: seq<Path>, targets: seq<Path>)
    requires |sources| == |targets| == |candidate.files|
    ensures sources == targets ==> !SomeTransfer(sources, targets)
    ensures Separate(sources, targets) ==> TransferBytes(SpecsOf(candidate), sources, targets) == TotalSize(candidate.files)
    ensures Separate(sources, targets) ==> (SomeTransfer(sources, targets) <==> candidate.files != [])
  {
    if Separate(sources, targets) {
      EveryByteTransferred(candidate.files, SpecsOf(candidate), sources, targets);
      assert candidate.files != [] ==> sources[0] != targets[0];
    }
  }

  lemma NothingUnknown(sources: seq<Path>, targets: seq<Path>)
    requires Separate(sources, targets)
    ensures sources[..|sources|] == targets[..|sources|] ==> sources == []
  {
    assert sources[..|sources|] == sources && targets[..|sources|] == targets;
    assert sources != [] ==> sources[0] != targets[0];
  }

  lemma InPlaceFailure(
      a: Files, b: Files, restored: seq<bool>, trail: seq<Files>, done: seq<Step>, sources: seq<Path>, targets: seq<Path>)
    requires sources == targets && UndoneAfterFailure(a, b, restored, trail, done, sources, targets)
    ensures b == a
  {
    var k :| 0 <= k < |sources| && StepsTaken(done, sources, targets, k);
    NoStepsInPlace(done, sources, targets, k);
  }

  lemma TrailLength(trail: seq<Files>, sources: seq<Path>, targets: seq<Path>, used: seq<Used>)
    requires PlacedAlong(trail, sources, targets, used)
    ensures |trail| == |sources| + 1 && |targets| == |sources| == |used|
  {
  }
}
