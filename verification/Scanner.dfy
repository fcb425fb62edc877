/**
 The root folder scanner (app/library/scanner.py): a walk whose list of subdirectories is
 pruned in place, and what it finds. Listings are given in the sorted order of the walk.
 */
module Scanner {
  import opened Options
  import opened Naming
  import opened Text

  datatype Dir = Dir(name: string, files: seq<string>, subs: seq<Dir>)

  /** A directory met by the walk, with its path below the scanned root. */
  datatype Folder = Folder(path: seq<string>, dir: Dir)

  datatype Candidate = Candidate(path: seq<string>, files: seq<string>)

  const AUDIO_EXTENSIONS := {".m4b", ".m4a", ".mp3", ".flac", ".ogg", ".opus", ".wma"}

  predicate IsAudio(file: string) {
    Lower(Suffix(file)) in AUDIO_EXTENSIONS
  }

  function AudioFiles(files: seq<string>): (r: seq<string>)
    ensures forall f :: f in r <==> f in files && IsAudio(f)
  {
    if files == [] then []
    else (if IsAudio(files[0]) then [files[0]] else []) + AudioFiles(files[1..])
  }

  /** The directory itself holds an audio file. */
  predicate HoldsAudio(d: Dir) {
    AudioFiles(d.files) != []
  }

  function Children(path: seq<string>, subs: seq<Dir>): (r: seq<Folder>)
    ensures |r| == |subs| && forall i :: 0 <= i < |r| ==> r[i] == Folder(path + [subs[i].name], subs[i])
  {
    seq(|subs|, i requires 0 <= i < |subs| => Folder(path + [subs[i].name], subs[i]))
  }

  function BookFolders(folders: seq<Folder>): (r: seq<Folder>)
    ensures forall f :: f in r <==> f in folders && HoldsAudio(f.dir)
  {
    if folders == [] then []
    else (if HoldsAudio(folders[0].dir) then [folders[0]] else []) + BookFolders(folders[1..])
  }

  /** The subdirectories the walk goes on to: those without audio files of their own, in order. */
  function Pruned(subs: seq<Dir>): (r: seq<Dir>)
    ensures forall d :: d in r ==> d in subs && !HoldsAudio(d)
  {
    if subs == [] then []
    else (if HoldsAudio(subs[0]) then [] else [subs[0]]) + Pruned(subs[1..])
  }

  function Candidates(folders: seq<Folder>): seq<Candidate> {
    if folders == [] then []
    else
      (if HoldsAudio(folders[0].dir) then [Candidate(folders[0].path, AudioFiles(folders[0].dir.files))] else [])
      + Candidates(folders[1..])
  }

  /** The folders the scanner works out: the root and its immediate children holding audio. */
  function RootAndBookChildren(root: Dir): seq<Folder> {
    [Folder([], root)] + BookFolders(Children([], root.subs))
  }

  // ---------- the walk ----------

  function Size(d: Dir): nat {
    1 + SizeAll(d.subs)
  }

  function SizeAll(ds: seq<Dir>): nat {
    if ds == [] then 0 else Size(ds[0]) + SizeAll(ds[1..])
  }

  lemma {:induction false} SizeAllConcat(a: seq<Dir>, b: seq<Dir>)
    ensures SizeAll(a + b) == SizeAll(a) + SizeAll(b)
  {
    if a == [] {
      assert a + b == b;
    } else {
      assert (a + b)[1..] == a[1..] + b;
      SizeAllConcat(a[1..], b);
    }
  }

  lemma {:induction false} PrunedSmaller(subs: seq<Dir>)
    ensures SizeAll(Pruned(subs)) <= SizeAll(subs)
  {
    hide HoldsAudio, Size;
    if subs != [] {
      PrunedSmaller(subs[1..]);
      SizeAllConcat(if HoldsAudio(subs[0]) then [] else [subs[0]], Pruned(subs[1..]));
    }
  }

  function Pending(stack: seq<Folder>): nat {
    if stack == [] then 0 else Size(stack[0].dir) + Pending(stack[1..])
  }

  lemma {:induction false} PendingChildren(path: seq<string>, subs: seq<Dir>, rest: seq<Folder>)
    ensures Pending(Children(path, subs) + rest) == SizeAll(subs) + Pending(rest)
  {
    var all := Children(path, subs) + rest;
    if subs == [] {
      assert all == rest;
    } else {
      assert all[1..] == Children(path, subs[1..]) + rest;
      PendingChildren(path, subs[1..], rest);
    }
  }

  /** Folders below the root that hold no audio themselves. */
  ghost predicate Quiet(stack: seq<Folder>) {
    forall i :: 0 <= i < |stack| ==> stack[i].path != [] && !HoldsAudio(stack[i].dir)
  }

  lemma QuietTail(stack: seq<Folder>)
    requires stack != [] && Quiet(stack)
    ensures Quiet(stack[1..]) && stack[0].path != [] && !HoldsAudio(stack[0].dir)
  {
    hide HoldsAudio;
    assert forall i :: 0 <= i < |stack| - 1 ==> stack[1..][i] == stack[i + 1];
  }

  lemma QuietChildren(path: seq<string>, subs: seq<Dir>, rest: seq<Folder>)
    requires Quiet(rest) && forall d :: d in subs ==> !HoldsAudio(d)
    ensures Quiet(Children(path, subs) + rest)
  {
    hide HoldsAudio;
    var all := Children(path, subs) + rest;
    forall i | 0 <= i < |all|
      ensures all[i].path != [] && !HoldsAudio(all[i].dir)
    {
      if i < |subs| {
        assert all[i] == Folder(path + [subs[i].name], subs[i]);
        assert subs[i] in subs;
      } else {
        assert all[i] == rest[i - |subs|];
      }
    }
  }

  lemma BookFoldersOneMore(folders: seq<Folder>, n: nat)
    requires n < |folders|
    ensures BookFolders(folders[..n + 1])
         == BookFolders(folders[..n]) + if HoldsAudio(folders[n].dir) then [folders[n]] else []
  {
    hide HoldsAudio;
    assert folders[..n + 1] == folders[..n] + [folders[n]];
    BookFoldersConcat(folders[..n], [folders[n]]);
  }

  lemma {:induction false} BookFoldersConcat(a: seq<Folder>, b: seq<Folder>)
    ensures BookFolders(a + b) == BookFolders(a) + BookFolders(b)
  {
    hide HoldsAudio;
    if a == [] {
      assert a + b == b;
    } else {
      assert (a + b)[1..] == a[1..] + b;
      BookFoldersConcat(a[1..], b);
    }
  }

  lemma PendingTop(stack: seq<Folder>)
    requires stack != []
    ensures Pending(stack) == 1 + SizeAll(stack[0].dir.subs) + Pending(stack[1..])
  {}

  /**
   What is on the stack: at first the root; then folders without audio, followed by the
   children of the root that have not been met yet.
   */
  ghost predicate Ahead(root: Dir, stack: seq<Folder>, quiet: seq<Folder>, met: nat, started: bool) {
    var first := Children([], root.subs);
    if started then met <= |first| && Quiet(quiet) && stack == quiet + first[met..]
    else stack == [Folder([], root)] && quiet == [] && met == 0
  }

  lemma RootMet(root: Dir, stack: seq<Folder>, quiet: seq<Folder>, met: nat, started: bool)
    requires stack != [] && stack[0].path == [] && Ahead(root, stack, quiet, met, started)
    ensures !started && stack == [Folder([], root)] && quiet == [] && met == 0
    ensures Ahead(root, Children([], root.subs) + stack[1..], [], 0, true)
  {
    var first := Children([], root.subs);
    if started && quiet != [] {
      QuietTail(quiet);
    }
    assert Children([], root.subs) + [] == [] + first[0..];
  }

  lemma ChildMet(root: Dir, stack: seq<Folder>, quiet: seq<Folder>, met: nat, started: bool)
    requires stack != [] && stack[0].path != [] && Ahead(root, stack, quiet, met, started)
    ensures var first := Children([], root.subs);
      && started
      && if quiet == []
         then met < |first| && stack[0] == first[met] && Ahead(root, stack[1..], [], met + 1, true)
         else !HoldsAudio(stack[0].dir) && Ahead(root, stack[1..], quiet[1..], met, true)
  {
    hide HoldsAudio;
    if quiet != [] {
      QuietTail(quiet);
    }
  }

  lemma PushQuiet(root: Dir, stack: seq<Folder>, path: seq<string>, subs: seq<Dir>, quiet: seq<Folder>, met: nat)
    requires Ahead(root, stack, quiet, met, true) && forall d :: d in subs ==> !HoldsAudio(d)
    ensures Ahead(root, Children(path, subs) + stack, Children(path, subs) + quiet, met, true)
  {
    hide HoldsAudio;
    QuietChildren(path, subs, quiet);
    var first := Children([], root.subs);
    assert Children(path, subs) + stack == (Children(path, subs) + quiet) + first[met..];
  }

  lemma NothingAhead(root: Dir, quiet: seq<Folder>, met: nat, started: bool)
    requires Ahead(root, [], quiet, met, started)
    ensures met == |root.subs|
  {
    assert started ==> |quiet + Children([], root.subs)[met..]| == 0;
  }

  /**
   `scan_folder`. The stack of the walk has its top first; below the children of the root only
   directories that hold no audio are ever reached.
   */
  method ScanFolder(root: Dir) returns (candidates: seq<Candidate>)
    ensures candidates == Candidates(RootAndBookChildren(root))
  {
    hide HoldsAudio, Quiet, Ahead, BookFolders, Pending, Pruned, SizeAll, Candidates, Children;
    ghost var first := Children([], root.subs);
    var folders := [Folder([], root)];
    var stack := [Folder([], root)];
    ghost var quiet: seq<Folder>, met: nat, started := [], 0, false;
    StartOfScan(root);
    while stack != []
      invariant Ahead(root, stack, quiet, met, started) && met <= |first|
      invariant folders == [Folder([], root)] + BookFolders(first[..met])
      decreases Pending(stack)
    {
      PendingTop(stack);
      var folder := stack[0];
      if folder.path == [] {
        RootMet(root, stack, quiet, met, started);
        PendingChildren([], folder.dir.subs, stack[1..]);
        started := true;
        stack := Children([], folder.dir.subs) + stack[1..];
        continue;
      }
      ChildMet(root, stack, quiet, met, started);
      stack := stack[1..];
      if quiet == [] {
        BookFoldersOneMore(first, met);
        met := met + 1;
      } else {
        quiet := quiet[1..];
      }
      if HoldsAudio(folder.dir) {
        folders := folders + [folder];
      }
      var dirnames := folder.dir.subs;
      PrunedSmaller(dirnames);
      dirnames := Pruned(dirnames);
      PendingChildren(folder.path, dirnames, stack);
      PushQuiet(root, stack, folder.path, dirnames, quiet, met);
      stack := Children(folder.path, dirnames) + stack;
      quiet := Children(folder.path, dirnames) + quiet;
    }
    NothingAhead(root, quiet, met, started);
    assert first[..met] == first;
    candidates := Candidates(folders);
  }

  lemma StartOfScan(root: Dir)
    ensures Ahead(root, [Folder([], root)], [], 0, false)
    ensures BookFolders(Children([], root.subs)[..0]) == []
  {}

  // ---------- what a scan finds ----------

  lemma {:induction false} CandidateOf(folders: seq<Folder>, c: Candidate)
    ensures c in Candidates(folders)
       <==> exists f :: f in folders && HoldsAudio(f.dir) && c == Candidate(f.path, AudioFiles(f.dir.files))
  {
    hide HoldsAudio;
    if folders != [] {
      CandidateOf(folders[1..], c);
      assert folders == [folders[0]] + folders[1..];
    }
  }

  /** The directory at a path below `d`, if there is one. */
  function DirAt(d: Dir, path: seq<string>): Option<Dir>
    decreases path
  {
    if path == [] then Some(d)
    else
      var sub := SubNamed(d.subs, path[0]);
      if sub.None? then None else DirAt(sub.value, path[1..])
  }

  function SubNamed(subs: seq<Dir>, name: string): (r: Option<Dir>)
    ensures r.Some? ==> r.value in subs && r.value.name == name
    ensures r.None? ==> forall d :: d in subs ==> d.name != name
  {
    if subs == [] then None else if subs[0].name == name then Some(subs[0]) else SubNamed(subs[1..], name)
  }

  predicate DistinctNames(subs: seq<Dir>) {
    forall i, j :: 0 <= i < j < |subs| ==> subs[i].name != subs[j].name
  }

  /**
   A scan lists the audio files of a directory exactly when the directory holds some and is the
   root or an immediate child of it: never one level further down.
   */
  lemma ScanFindsIff(root: Dir, c: Candidate)
    requires DistinctNames(root.subs)
    ensures c in Candidates(RootAndBookChildren(root))
       <==> (var d := DirAt(root, c.path);
             |c.path| <= 1 && d.Some? && HoldsAudio(d.value) && c.files == AudioFiles(d.value.files))
  {
    hide HoldsAudio, DirAt, DistinctNames, RootAndBookChildren;
    var folders := RootAndBookChildren(root);
    CandidateOf(folders, c);
    if c in Candidates(folders) {
      var f :| f in folders && HoldsAudio(f.dir) && c == Candidate(f.path, AudioFiles(f.dir.files));
      WorkedOut(root, f);
    }
    var d := DirAt(root, c.path);
    if |c.path| <= 1 && d.Some? && HoldsAudio(d.value) {
      WorkedOut(root, Folder(c.path, d.value));
    }
  }

  /** A folder holding audio is on the scanner's list iff it is the root or a child of it. */
  lemma WorkedOut(root: Dir, f: Folder)
    requires DistinctNames(root.subs) && HoldsAudio(f.dir)
    ensures f in RootAndBookChildren(root) <==> |f.path| <= 1 && DirAt(root, f.path) == Some(f.dir)
  {
    hide HoldsAudio;
    var children := Children([], root.subs);
    if f.path == [] {
      assert Folder([], root) == RootAndBookChildren(root)[0];
      assert f !in children;
    } else {
      assert f in RootAndBookChildren(root) <==> f in children;
      if f in children {
        var i :| 0 <= i < |root.subs| && f == children[i];
        NamedAt(root, i);
        assert f.path == [root.subs[i].name];
      }
      if |f.path| <= 1 && DirAt(root, f.path) == Some(f.dir) {
        var i := ChildIndex(root, f);
        assert children[i] == f;
      }
    }
  }

  lemma ChildIndex(root: Dir, f: Folder) returns (i: nat)
    requires |f.path| == 1 && DirAt(root, f.path) == Some(f.dir)
    ensures i < |root.subs| && root.subs[i] == f.dir && f.path == [root.subs[i].name]
  {
    assert f.path[1..] == [];
    assert DirAt(root, f.path) == SubNamed(root.subs, f.path[0]);
    i :| 0 <= i < |root.subs| && root.subs[i] == f.dir;
    assert f.path == [f.path[0]];
  }

  lemma NamedAt(root: Dir, i: nat)
    requires i < |root.subs| && DistinctNames(root.subs)
    ensures DirAt(root, [root.subs[i].name]) == Some(root.subs[i])
  {
    var d := SubNamed(root.subs, root.subs[i].name);
    assert root.subs[i] in root.subs;
    var j :| 0 <= j < |root.subs| && root.subs[j] == d.value;
    assert [root.subs[i].name][1..] == [];
  }

  /** `import_single_folder` scans the parent: a folder is found there iff it holds audio itself. */
  lemma RescanOfParent(root: Dir, parent: seq<string>, name: string)
    requires DirAt(root, parent).Some? && DistinctNames(DirAt(root, parent).value.subs)
    ensures var folder := DirAt(root, parent + [name]);
      (exists c :: c in Candidates(RootAndBookChildren(DirAt(root, parent).value)) && c.path == [name])
      <==> folder.Some? && HoldsAudio(folder.value)
  {
    hide HoldsAudio;
    var p := DirAt(root, parent).value;
    DirAtChild(root, parent, name);
    var folder := DirAt(p, [name]);
    if folder.Some? && HoldsAudio(folder.value) {
      ScanFindsIff(p, Candidate([name], AudioFiles(folder.value.files)));
    }
    forall c | c in Candidates(RootAndBookChildren(p)) && c.path == [name]
      ensures folder.Some? && HoldsAudio(folder.value)
    {
      ScanFindsIff(p, c);
    }
  }

  lemma {:induction false} DirAtChild(root: Dir, parent: seq<string>, name: string)
    requires DirAt(root, parent).Some?
    ensures DirAt(root, parent + [name]) == DirAt(DirAt(root, parent).value, [name])
    decreases parent
  {
    if parent == [] {
      assert parent + [name] == [name];
    } else {
      assert (parent + [name])[1..] == parent[1..] + [name];
      DirAtChild(SubNamed(root.subs, parent[0]).value, parent[1..], name);
    }
  }

  // ---------- the extension and the order ----------

  /** A stem and one of the seven extensions, in capitals or not, make an audio file. */
  lemma AudioByExtension(stem: string, extension: string)
    requires stem != "" && |extension| >= 2 && extension[0] == '.'
    requires forall i :: 1 <= i < |extension| ==> extension[i] != '.'
    ensures IsAudio(stem + extension)
       <==> Lower(extension) in {".m4b", ".m4a", ".mp3", ".flac", ".ogg", ".opus", ".wma"}
  {
    SuffixOfJoin(stem, extension);
  }

  /** Without an extension nothing is an audio file. */
  lemma NoExtensionNoAudio(name: string)
    requires name == "" || '.' !in name[1..] || name[|name| - 1] == '.'
    ensures !IsAudio(name)
  {
    NoSuffix(name);
    assert Lower("") == "";
    assert "" !in AUDIO_EXTENSIONS;
  }

  lemma CapitalExtension()
    ensures IsAudio("Part 1.MP3") && !IsAudio("cover.jpg") && !IsAudio(".mp3") && !IsAudio("mp3")
  {
    assert Lower(".MP3") == ".mp3" && Lower(".jpg") == ".jpg";
    assert "Part 1" + ".MP3" == "Part 1.MP3" && "cover" + ".jpg" == "cover.jpg";
    AudioByExtension("Part 1", ".MP3");
    AudioByExtension("cover", ".jpg");
    assert ".mp3"[1..] == "mp3" && "mp3"[1..] == "p3";
    NoExtensionNoAudio(".mp3");
    NoExtensionNoAudio("mp3");
  }

  /** The audio files of a listing, in its order. */
  lemma {:induction false} AudioFilesInOrder(a: seq<string>, b: seq<string>)
    ensures AudioFiles(a + b) == AudioFiles(a) + AudioFiles(b)
  {
    hide IsAudio;
    if a == [] {
      assert a + b == b;
    } else {
      assert (a + b)[1..] == a[1..] + b;
      AudioFilesInOrder(a[1..], b);
    }
  }

  lemma {:induction false} CandidatesConcat(a: seq<Folder>, b: seq<Folder>)
    ensures Candidates(a + b) == Candidates(a) + Candidates(b)
  {
    hide HoldsAudio;
    if a == [] {
      assert a + b == b;
    } else {
      assert (a + b)[1..] == a[1..] + b;
      CandidatesConcat(a[1..], b);
    }
  }

  lemma ScanParts(root: Dir)
    ensures Candidates(RootAndBookChildren(root))
         == OwnCandidate([], root) + Candidates(BookFolders(Children([], root.subs)))
  {
    hide OwnCandidate, Children, BookFolders, Candidates;
    CandidatesConcat([Folder([], root)], BookFolders(Children([], root.subs)));
    OnlyCandidate(Folder([], root));
  }

  /** The candidate a directory is by itself. */
  function OwnCandidate(path: seq<string>, d: Dir): seq<Candidate> {
    if AudioFiles(d.files) == [] then [] else [Candidate(path, AudioFiles(d.files))]
  }

  lemma OneMoreChild(subs: seq<Dir>, d: Dir)
    ensures Candidates(BookFolders(Children([], subs + [d])))
         == Candidates(BookFolders(Children([], subs))) + OwnCandidate([d.name], d)
  {
    hide OwnCandidate, BookFolders, Candidates;
    var before, child := Children([], subs), Folder([d.name], d);
    assert [] + [d.name] == [d.name];
    assert Children([], subs + [d]) == before + [child];
    BookFoldersConcat(before, [child]);
    CandidatesConcat(BookFolders(before), BookFolders([child]));
    OnlyBookFolder(child);
    OnlyCandidate(child);
    OwnCandidateIs([d.name], d);
  }

  lemma OwnCandidateIs(path: seq<string>, d: Dir)
    ensures OwnCandidate(path, d) == if HoldsAudio(d) then [Candidate(path, AudioFiles(d.files))] else []
  {
    hide AudioFiles;
  }

  /** The root comes first, then its children in their order, each with its own audio files. */
  lemma ScanInOrder(name: string, files: seq<string>, subs: seq<Dir>, d: Dir)
    ensures Candidates(RootAndBookChildren(Dir(name, files, [])))
         == if AudioFiles(files) == [] then [] else [Candidate([], AudioFiles(files))]
    ensures Candidates(RootAndBookChildren(Dir(name, files, subs + [d])))
         == Candidates(RootAndBookChildren(Dir(name, files, subs)))
            + if AudioFiles(d.files) == [] then [] else [Candidate([d.name], AudioFiles(d.files))]
  {
    hide AudioFiles, RootAndBookChildren, Candidates, BookFolders, Children;
    ScanParts(Dir(name, files, []));
    ScanParts(Dir(name, files, subs));
    ScanParts(Dir(name, files, subs + [d]));
    OneMoreChild(subs, d);
    NoChildren();
  }

  lemma NoChildren()
    ensures Candidates(BookFolders(Children([], []))) == []
  {
  }

  lemma OnlyBookFolder(f: Folder)
    ensures BookFolders([f]) == (if HoldsAudio(f.dir) then [f] else []) && BookFolders([]) == []
  {
    assert [f][1..] == [];
  }

  lemma OnlyCandidate(f: Folder)
    ensures Candidates([]) == []
    ensures Candidates([f]) == if HoldsAudio(f.dir) then [Candidate(f.path, AudioFiles(f.dir.files))] else []
    ensures Candidates([f]) == OwnCandidate(f.path, f.dir)
  {
    hide AudioFiles;
    assert [f][1..] == [];
    OwnCandidateIs(f.path, f.dir);
  }

  // ---------- against the documented promise ----------

  /** Every directory below `path` holding audio, in the order of an unpruned walk. */
  function AllBookFolders(path: seq<string>, d: Dir): seq<Folder>
    decreases d
  {
    (if HoldsAudio(d) then [Folder(path, d)] else []) + AllBelow(path, d.subs)
  }

  function AllBelow(path: seq<string>, subs: seq<Dir>): seq<Folder>
    decreases subs
  {
    if subs == [] then [] else AllBookFolders(path + [subs[0].name], subs[0]) + AllBelow(path, subs[1..])
  }

  /** Nothing two or more levels down holds audio. */
  predicate NothingDeeper(root: Dir) {
    forall i :: 0 <= i < |root.subs| ==> AllBelow([root.subs[i].name], root.subs[i].subs) == []
  }

  /**
   The docstring promises one candidate per folder containing audio. The scan keeps that
   promise exactly when no directory below the root's children holds audio.
   */
  lemma PromiseKeptIff(root: Dir)
    ensures BookFolders(RootAndBookChildren(root)) == AllBookFolders([], root) <==> NothingDeeper(root)
  {
    hide HoldsAudio;
    var found := BookFolders(Children([], root.subs));
    BookFoldersTwice(Children([], root.subs));
    BookFoldersConcat([Folder([], root)], found);
    var head := BookFolders([Folder([], root)]);
    assert BookFolders(RootAndBookChildren(root)) == head + found;
    assert head == if HoldsAudio(root) then [Folder([], root)] else [];
    ChildrenAgainstAll(root.subs);
    if head + found == head + AllBelow([], root.subs) {
      assert found == (head + found)[|head|..] == AllBelow([], root.subs);
    }
  }

  lemma {:induction false} BookFoldersTwice(folders: seq<Folder>)
    ensures BookFolders(BookFolders(folders)) == BookFolders(folders)
  {
    hide HoldsAudio;
    if folders != [] {
      BookFoldersTwice(folders[1..]);
      BookFoldersConcat(if HoldsAudio(folders[0].dir) then [folders[0]] else [], BookFolders(folders[1..]));
    }
  }

  predicate AllShallow(subs: seq<Dir>) {
    forall i :: 0 <= i < |subs| ==> AllBelow([subs[i].name], subs[i].subs) == []
  }

  function OwnFind(d: Dir): seq<Folder> {
    if HoldsAudio(d) then [Folder([d.name], d)] else []
  }

  lemma AllBelowStep(subs: seq<Dir>)
    requires subs != []
    ensures AllBelow([], subs) == OwnFind(subs[0]) + AllBelow([subs[0].name], subs[0].subs) + AllBelow([], subs[1..])
  {
    hide HoldsAudio;
    assert [] + [subs[0].name] == [subs[0].name];
  }

  lemma BookChildrenStep(subs: seq<Dir>)
    requires subs != []
    ensures BookFolders(Children([], subs)) == OwnFind(subs[0]) + BookFolders(Children([], subs[1..]))
  {
    hide HoldsAudio;
    assert [] + [subs[0].name] == [subs[0].name];
    assert Children([], subs)[1..] == Children([], subs[1..]);
  }

  lemma ShallowStep(subs: seq<Dir>)
    requires subs != []
    ensures AllShallow(subs) <==> AllBelow([subs[0].name], subs[0].subs) == [] && AllShallow(subs[1..])
  {
    hide AllBelow;
    assert forall i :: 1 <= i < |subs| ==> subs[i] == subs[1..][i - 1];
  }

  lemma {:induction false} ChildrenAgainstAll(subs: seq<Dir>)
    ensures |BookFolders(Children([], subs))| <= |AllBelow([], subs)|
    ensures |BookFolders(Children([], subs))| == |AllBelow([], subs)| ==> AllShallow(subs)
    ensures AllShallow(subs) ==> BookFolders(Children([], subs)) == AllBelow([], subs)
  {
    if subs == [] {
      NothingBelow(subs);
    } else {
      hide *;
      AllBelowStep(subs);
      BookChildrenStep(subs);
      ShallowStep(subs);
      ChildrenAgainstAll(subs[1..]);
      WithoutMiddle(OwnFind(subs[0]), AllBelow([subs[0].name], subs[0].subs), AllBelow([], subs[1..]));
    }
  }

  lemma NothingBelow(subs: seq<Dir>)
    requires subs == []
    ensures AllBelow([], subs) == [] && BookFolders(Children([], subs)) == [] && AllShallow(subs)
  {
    assert Children([], subs) == [];
  }

  lemma WithoutMiddle(a: seq<Folder>, b: seq<Folder>, c: seq<Folder>)
    ensures |a + b + c| == |a| + |b| + |c|
    ensures b == [] ==> a + b + c == a + c
    ensures |b| == 0 <==> b == []
  {
    assert a + [] == a;
  }

  /** Author/Book/part.mp3 below the root: the book folder is not found. */
  lemma NestedBookMissed()
    ensures var book := Dir("Book", ["part.mp3"], []);
      var root := Dir("root", [], [Dir("Author", [], [book])]);
      && Candidates(RootAndBookChildren(root)) == []
      && AllBookFolders([], root) == [Folder(["Author", "Book"], book)]
  {
    var book := Dir("Book", ["part.mp3"], []);
    var author := Dir("Author", [], [book]);
    var root := Dir("root", [], [author]);
    RFindIs("part.mp3", '.', 4);
    assert "part.mp3"[4..] == ".mp3";
    assert Lower(".mp3") == ".mp3";
    assert AudioFiles(book.files) == ["part.mp3"] + AudioFiles(book.files[1..]);
    assert HoldsAudio(book) && !HoldsAudio(author) && !HoldsAudio(root);
    assert [] + ["Author"] == ["Author"] && ["Author"] + ["Book"] == ["Author", "Book"];
    assert AllBookFolders(["Author", "Book"], book) == [Folder(["Author", "Book"], book)];
    assert AllBelow(["Author"], [book]) == [Folder(["Author", "Book"], book)];
    assert AllBookFolders(["Author"], author) == [Folder(["Author", "Book"], book)];
    assert AllBelow([], [author]) == [Folder(["Author", "Book"], book)];
    assert BookFolders(Children([], [author])) == [];
  }
}
