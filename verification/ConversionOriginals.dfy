/**
 Deleting the source files of a converted book (`delete_originals_for_job` in
 app/conversion/worker.py).
 */
module ConversionOriginals {
  import opened Paths
  import opened ConversionQueue

  datatype Disk = Disk(files: set<Path>, dirs: set<Path>)

  /** Everything present has its ancestors present as directories; a file is no directory. */
  ghost predicate WellFormedDisk(disk: Disk) {
    && disk.files !! disk.dirs
    && forall p, q :: (p in disk.files || p in disk.dirs) && q < p ==> q in disk.dirs
  }

  predicate Beneath(folder: Path, p: Path) {
    folder < p
  }

  /** The files a source path stands for: a folder's whole tree, or the file itself. */
  function SourceFiles(disk: Disk, source: Path): (r: set<Path>)
    ensures r <= disk.files
  {
    if source in disk.dirs then set p | p in disk.files && Beneath(source, p)
    else if source in disk.files then {source}
    else {}
  }

  datatype Deletion = Kept | Deleted(count: nat) | Raised

  class MediaDisk {
    var files: set<Path>
    var dirs: set<Path>

    function Content(): Disk
      reads this
    {
      Disk(files, dirs)
    }

    /** `Path.unlink` on a file that exists; a refused unlink changes nothing. */
    method Unlink(p: Path, refused: bool) returns (ok: bool)
      requires p in files
      modifies this`files
      ensures ok <==> !refused
      ensures files == if ok then old(files) - {p} else old(files)
    {
      if refused {
        return false;
      }
      files := files - {p};
      ok := true;
    }

    /** Unlinks in some order, stopping at the first refusal. */
    method UnlinkAll(sources: set<Path>, refuses: Path -> bool) returns (ok: bool, removed: nat)
      requires sources <= files
      modifies this`files
      ensures ok <==> forall f :: f in sources ==> !refuses(f)
      ensures ok ==> files == old(files) - sources && removed == |sources|
      ensures old(files) - sources <= files <= old(files)
      ensures forall f :: f in sources && refuses(f) ==> f in files
    {
      var pending := sources;
      removed := 0;
      while pending != {}
        invariant pending <= sources && removed == |sources| - |pending|
        invariant files == old(files) - (sources - pending)
        invariant forall f :: f in sources - pending ==> !refuses(f)
        decreases |pending|
      {
        var f :| f in pending;
        ok := Unlink(f, refuses(f));
        if !ok {
          return;
        }
        pending := pending - {f};
        removed := removed + 1;
      }
      ok := true;
    }

    /** `Path.rmdir` with its errors suppressed: only an empty directory goes. */
    method Rmdir(p: Path)
      modifies this`dirs
      ensures dirs == if Occupied(Content(), p) then old(dirs) else old(dirs) - {p}
    {
      if !Occupied(Content(), p) {
        dirs := dirs - {p};
      }
    }
  }

  predicate Occupied(disk: Disk, folder: Path) {
    exists q :: q in disk.files + disk.dirs && Beneath(folder, q)
  }

  lemma OccupiedIs(disk: Disk, folder: Path)
    ensures Occupied(disk, folder) <==> exists q :: (q in disk.files || q in disk.dirs) && folder < q
  {
    if q :| (q in disk.files || q in disk.dirs) && folder < q {
      assert Beneath(folder, q);
    }
  }

  /**
   `delete_originals_for_job`; `refuses` says which files cannot be unlinked. The first refused
   unlink raises, with the files removed so far gone and the job row as it was.
   */
  method DeleteOriginals(store: ConversionStore, media: MediaDisk, cwd: Path, enabled: bool, id: nat, refuses: Path -> bool)
    returns (result: Deletion)
    requires store.Valid()
    modifies store, media
    ensures store.Valid()
    ensures !result.Kept? <==>
      && enabled && id in old(store.jobs) && old(store.jobs)[id].status == Completed
      && old(store.jobs)[id].originalsDeleted == 0 && Resolve(cwd, old(store.jobs)[id].completedPath) in old(media.files)
    ensures result.Kept? ==> store.Content() == old(store.Content()) && media.Content() == old(media.Content())
    ensures !result.Kept? ==>
      var was := old(media.Content());
      var sources := SourceFiles(was, Resolve(cwd, old(store.jobs)[id].source));
      && (result.Raised? <==> exists f :: f in sources && refuses(f))
      && (forall f :: f in sources && refuses(f) ==> f in media.files)
      && was.files - sources <= media.files <= was.files
      && (result.Deleted? ==>
        && media.files == was.files - sources && result.count == |sources|
        && store.jobs == old(store.jobs)[id := old(store.jobs)[id].(originalsDeleted := |sources|)])
      && (result.Raised? ==> store.jobs == old(store.jobs) && media.dirs == was.dirs)
    ensures result.Deleted? ==>
      var was, source := old(media.Content()), Resolve(cwd, old(store.jobs)[id].source);
      media.dirs
        == if exists q :: (q in media.files || q in was.dirs) && source < q then was.dirs else was.dirs - {source}
  {
    if !enabled || id !in store.jobs || !store.jobs[id].status.Completed? || store.jobs[id].originalsDeleted != 0
       || Resolve(cwd, store.jobs[id].completedPath) !in media.files {
      return Kept;
    }
    var source := Resolve(cwd, store.jobs[id].source);
    var sources := SourceFiles(media.Content(), source);
    hide Resolve, SourceFiles;
    var ok, removed := media.UnlinkAll(sources, refuses);
    if !ok {
      return Raised;
    }
    OccupiedIs(media.Content(), source);
    if source in media.dirs {
      media.Rmdir(source);
    }
    assert source !in old(media.dirs) ==> old(media.dirs) - {source} == old(media.dirs);
    store.jobs := store.jobs[id := store.jobs[id].(originalsDeleted := removed)];
    result := Deleted(removed);
  }

  /**
   What exists survives the deletion exactly when it lies outside the source path: neither the
   source itself nor anywhere beneath it. So does the converted file.
   */
  lemma SurvivesIffOutside(disk: Disk, source: Path, p: Path)
    requires WellFormedDisk(disk) && p in disk.files
    ensures p in disk.files - SourceFiles(disk, source) <==> !(source <= p)
  {
    assert source < p ==> source in disk.dirs;
    assert source <= p <==> source < p || source == p;
  }

  // ---------- which file has to be there ----------

  lemma {:induction false} NothingDeletedYet(events: seq<Timed>, id: nat)
    ensures id in Run(events).jobs ==> Run(events).jobs[id].originalsDeleted == 0
  {
    hide Step;
    if events != [] {
      var before, last := events[..|events| - 1], events[|events| - 1];
      NothingDeletedYet(before, id);
      RunWellFormed(before);
      if id in Run(before).jobs {
        StepOnJob(Run(before), last.event, last.now, id);
      } else {
        StepAddsJob(Run(before), last.event, last.now, id);
      }
    }
  }

  lemma {:induction false} LatePath(j: Job, id: nat, later: seq<Timed>)
    ensures var k := LateJob(j, id, later);
      k.source == j.source && k.completedPath
        == if exists n :: 0 <= n < |later| && later[n].event == Verdict(id, true) then "" else j.completedPath
  {
    if later != [] {
      LatePath(j, id, later[..|later| - 1]);
    }
  }

  /**
   After a callback reported `path` for a running job, and as long as no error verdict for it and
   no deletion of its book follows, the originals may go exactly when that very file is there;
   a late success blanks the path, and then the working directory itself would have to be a file.
   */
  lemma DeletionReadsCallback(before: seq<Timed>, id: nat, path: string, now: int, later: seq<Timed>, cwd: Path, disk: Disk)
    requires var called := before + [Timed(Callback(id, true, path), now)];
      && id in Run(before).jobs && Run(before).jobs[id].status == Running
      && NeverEnds(called + later, |called|, id, Run(before).jobs[id].book)
    ensures var t := Run(before + [Timed(Callback(id, true, path), now)] + later);
      && id in t.jobs && t.jobs[id].status == Completed && t.jobs[id].originalsDeleted == 0
      && t.jobs[id].source == Run(before).jobs[id].source
      && (Resolve(cwd, t.jobs[id].completedPath) in disk.files <==>
          if exists n :: 0 <= n < |later| && later[n].event == Verdict(id, true) then cwd in disk.files
          else Resolve(cwd, path) in disk.files)
  {
    var called := before + [Timed(Callback(id, true, path), now)];
    var events := called + later;
    RunWellFormed(before);
    RunSnoc(before, Callback(id, true, path), now);
    StepOnJob(Run(before), Callback(id, true, path), now, id);
    assert events[..|called|] == called && events[|called|..] == later;
    CompletedRunIff(events, |called|, id);
    LatePath(Run(called).jobs[id], id, later);
    NothingDeletedYet(events, id);
    hide Resolve, Run, Step;
    EmptyPath(cwd);
  }

  lemma EmptyPath(cwd: Path)
    ensures Resolve(cwd, "") == cwd
  {
    assert Parts("") == [];
  }
}
