/**
 The torrent half of the download pollers (app/sab_auto_import.py): which completed torrents
 are imported, from where, and which are looked at again on a later tick.
 */
module TorrentPoller {
  import opened Options
  import opened Text
  import opened Paths
  import RemotePath
  import opened RootFolders

  datatype Status = Imported | Failed | Skipped

  /** A row of `download_client_import_state` for the torrent client. */
  datatype StateRow = StateRow(name: string, folder: string, status: Status, reason: string, book: Option<nat>)

  /** A completed torrent as reported; `id` is its hash in lower case. */
  datatype Item = Item(id: string, name: string, contentPath: string)

  datatype Probe = Missing | IsFile | IsDir | ProbeRaised

  /** What running the import pipeline on a folder comes to. */
  datatype Outcome = Raised | Finished(status: Status, reason: string, book: Option<nat>)

  /** What one tick finds configured and on disk. */
  datatype Setup = Setup(cwd: Path, mappings: seq<RemotePath.Mapping>, roots: seq<RootFolder>, disk: Path -> Probe)

  datatype Step =
    | Retry(folder: string, reason: string)
    | Skip(folder: string, reason: string)
    | Import(folder: string, path: Path)

  // Only the prefix of a reason is ever read back; the other wordings are abbreviated.
  const RETRY_PREFIX := "retry: "
  const NO_PATH := "no content path"
  const UNSAFE := "unsafe path"
  const OUTSIDE := "outside every root folder"
  const SINGLE_FILE := "single file"
  const NOT_FOUND := "not found: "
  const UNEXPECTED := "unexpected error"

  // ---------- deciding what to do with one torrent ----------

  predicate SafeAbsolute(folder: string) {
    IsAbsolute(folder) && ".." !in Parts(folder)
  }

  ghost function StepFor(setup: Setup, folder: string): Step {
    var p := Resolve(setup.cwd, folder);
    if !SafeAbsolute(folder) then Skip(folder, UNSAFE)
    else if !StrictlyBeneathSome(setup.cwd, setup.roots, p) then Retry(folder, OUTSIDE)
    else match setup.disk(p)
      case IsFile => Skip(folder, SINGLE_FILE)
      case IsDir => Import(folder, p)
      case Missing => Retry(folder, NOT_FOUND + folder)
      case ProbeRaised => Retry("", UNEXPECTED)
  }

  ghost predicate Decided(setup: Setup, contentPath: string, s: Step) {
    var reported := Strip(contentPath);
    if reported == "" then s == Retry("", NO_PATH)
    else exists folder :: RemotePath.ResolvesTo(reported, setup.mappings, folder) && s == StepFor(setup, folder)
  }

  method Decide(setup: Setup, contentPath: string) returns (s: Step)
    requires Canonical(setup.cwd)
    ensures Decided(setup, contentPath, s)
  {
    var reported := Strip(contentPath);
    if reported == "" {
      return Retry("", NO_PATH);
    }
    var folder := RemotePath.ResolveRemotePath(reported, setup.mappings);
    if !IsAbsolute(folder) || ".." in Parts(folder) {
      return Skip(folder, UNSAFE);
    }
    var contained := FindRootFolderStrict(setup.cwd, setup.roots, folder);
    if contained.None? {
      return Retry(folder, OUTSIDE);
    }
    match setup.disk(contained.value) {
      case IsFile => s := Skip(folder, SINGLE_FILE);
      case IsDir => s := Import(folder, contained.value);
      case Missing => s := Retry(folder, NOT_FOUND + folder);
      case ProbeRaised => s := Retry("", UNEXPECTED);
    }
  }

  lemma {:induction false} NormaliseNoDots(base: Path, parts: seq<string>)
    requires ".." !in parts
    ensures Normalise(base, parts) == base + parts
    decreases parts
  {
    if parts == [] {
      assert base + parts == base;
    } else {
      assert parts[0] in parts;
      assert forall x :: x in parts[1..] ==> x in parts;
      NormaliseNoDots(base + [parts[0]], parts[1..]);
      assert base + [parts[0]] + parts[1..] == base + parts;
    }
  }

  /**
   The torrent poller hands on only directories strictly beneath a configured root, under
   exactly the components the client reported after mapping; the importer, reading the path
   back from its string, finds a governing root for it.
   */
  lemma ImportsOnlyBeneathRoots(setup: Setup, contentPath: string, s: Step)
    requires Canonical(setup.cwd) && Decided(setup, contentPath, s) && s.Import?
    ensures StrictlyBeneathSome(setup.cwd, setup.roots, s.path) && setup.disk(s.path).IsDir?
    ensures IsAbsolute(s.folder) && s.path == Parts(s.folder) && ".." !in s.path
    ensures RemotePath.ResolvesTo(Strip(contentPath), setup.mappings, s.folder)
    ensures Governing(setup.cwd, setup.roots, Resolve(setup.cwd, Show(s.path))).Some?
  {
    hide Decided, StepFor, Normalise;
    var folder := ImportStep(setup, contentPath, s);
    NormaliseNoDots([], Parts(folder));
    assert [] + Parts(folder) == Parts(folder);
    ResolveCanonical(setup.cwd, folder);
    ResolveOfShow(setup.cwd, s.path);
    var i :| 0 <= i < |setup.roots| && Resolve(setup.cwd, setup.roots[i].path) < s.path;
    assert Governs(setup.cwd, setup.roots[i], s.path);
  }

  lemma ImportStep(setup: Setup, contentPath: string, s: Step) returns (folder: string)
    requires Decided(setup, contentPath, s) && s.Import?
    ensures s == Import(folder, Resolve(setup.cwd, folder))
    ensures SafeAbsolute(folder) && RemotePath.ResolvesTo(Strip(contentPath), setup.mappings, folder)
    ensures StrictlyBeneathSome(setup.cwd, setup.roots, s.path) && setup.disk(s.path).IsDir?
  {
    hide SafeAbsolute, Resolve, Strip, StrictlyBeneathSome;
    hide RemotePath.ResolvesTo;
    folder :| RemotePath.ResolvesTo(Strip(contentPath), setup.mappings, folder) && s == StepFor(setup, folder);
  }

  ghost predicate Beneath(setup: Setup, p: Path) {
    exists i :: 0 <= i < |setup.roots| && Resolve(setup.cwd, setup.roots[i].path) < p
  }

  predicate PlainPath(folder: string) {
    folder != "" && folder[0] == '/' && ".." !in Parts(folder)
  }

  /**
   Every decision, on what was reported, what is configured and what is on disk: a directory
   strictly beneath a root is imported; a path with `..` or without a leading `/` and a single
   file are skipped for good; everything else is to be looked at again.
   */
  lemma DecidedIs(setup: Setup, contentPath: string, s: Step, folder: string)
    requires Decided(setup, contentPath, s)
    requires RemotePath.ResolvesTo(Strip(contentPath), setup.mappings, folder)
    ensures var p := Resolve(setup.cwd, folder);
      if Strip(contentPath) == "" then s.Retry?
      else if !PlainPath(folder) then s.Skip? && s.folder == folder
      else if !Beneath(setup, p) || setup.disk(p) == Missing then s.Retry? && s.folder == folder
      else if setup.disk(p) == IsDir then s == Import(folder, p)
      else if setup.disk(p) == IsFile then s.Skip? && s.folder == folder
      else s.Retry?
  {
    hide Strip, Resolve, Parts, RemotePath.ResolvesTo;
    if Strip(contentPath) != "" {
      var other :| RemotePath.ResolvesTo(Strip(contentPath), setup.mappings, other) && s == StepFor(setup, other);
      RemotePath.ResolvedOnce(Strip(contentPath), setup.mappings, folder, other);
    }
  }

  // ---------- recording ----------

  function Truncated(reason: string): string {
    if |reason| <= 500 then reason else reason[..500]
  }

  predicate Retryable(row: StateRow) {
    row.status.Failed? && RETRY_PREFIX <= row.reason
  }

  /** The upsert keeps the name a row was created with. */
  function Recorded(state: map<string, StateRow>, item: Item, folder: string, status: Status, reason: string, book: Option<nat>)
    : map<string, StateRow>
  {
    var name := if item.id in state then state[item.id].name else item.name;
    state[item.id := StateRow(name, folder, status, Truncated(reason), book)]
  }

  function RecordedRetry(state: map<string, StateRow>, item: Item, folder: string, reason: string): map<string, StateRow> {
    Recorded(state, item, folder, Failed, RETRY_PREFIX + reason, None)
  }

  // ---------- runs ----------

  /** One item of one tick: what was decided for it and how an import of it would end. */
  datatype Visit = Visit(item: Item, step: Step, outcome: Outcome)

  predicate Attended(state: map<string, StateRow>, item: Item) {
    item.id != "" && (item.id in state ==> Retryable(state[item.id]))
  }

  /** The visit hands a folder to the import pipeline. */
  predicate Imports(state: map<string, StateRow>, v: Visit) {
    Attended(state, v.item) && v.step.Import?
  }

  function AfterVisit(state: map<string, StateRow>, v: Visit): map<string, StateRow> {
    if !Attended(state, v.item) then state
    else match v.step
      case Retry(folder, reason) => RecordedRetry(state, v.item, folder, reason)
      case Skip(folder, reason) => Recorded(state, v.item, folder, Skipped, reason, None)
      case Import(folder, path) =>
        if v.outcome.Raised? then RecordedRetry(state, v.item, "", UNEXPECTED)
        else Recorded(state, v.item, folder, v.outcome.status, v.outcome.reason, v.outcome.book)
  }

  function AfterVisits(state: map<string, StateRow>, visits: seq<Visit>): map<string, StateRow> {
    if visits == [] then state
    else AfterVisit(AfterVisits(state, visits[..|visits| - 1]), visits[|visits| - 1])
  }

  class Poller {
    var state: map<string, StateRow>

    constructor ()
      ensures state == map[]
    {
      state := map[];
    }

    /** The item loop of one tick; `outcomes[i]` is how importing item `i` would end. */
    method ProcessTorrents(setup: Setup, items: seq<Item>, outcomes: seq<Outcome>) returns (ghost visits: seq<Visit>)
      requires Canonical(setup.cwd) && |outcomes| == |items|
      modifies this
      ensures |visits| == |items|
      ensures forall i :: 0 <= i < |visits| ==>
        visits[i].item == items[i] && visits[i].outcome == outcomes[i] && Decided(setup, items[i].contentPath, visits[i].step)
      ensures state == AfterVisits(old(state), visits)
    {
      hide Decided;
      visits := [];
      for n := 0 to |items|
        invariant |visits| == n
        invariant forall i :: 0 <= i < n ==>
          visits[i].item == items[i] && visits[i].outcome == outcomes[i] && Decided(setup, items[i].contentPath, visits[i].step)
        invariant state == AfterVisits(old(state), visits)
      {
        var item := items[n];
        var step := Decide(setup, item.contentPath);
        ghost var v := Visit(item, step, outcomes[n]);
        assert (visits + [v])[..n] == visits;
        visits := visits + [v];
        if item.id == "" || (item.id in state && !Retryable(state[item.id])) {
          continue;
        }
        match step {
          case Retry(folder, reason) =>
            state := RecordedRetry(state, item, folder, reason);
          case Skip(folder, reason) =>
            state := Recorded(state, item, folder, Skipped, reason, None);
          case Import(folder, path) =>
            match outcomes[n] {
              case Raised =>
                state := RecordedRetry(state, item, "", UNEXPECTED);
              case Finished(status, reason, book) =>
                state := Recorded(state, item, folder, status, reason, book);
            }
        }
      }
    }
  }

  lemma RetryIsRetryable(state: map<string, StateRow>, item: Item, folder: string, reason: string)
    ensures Retryable(RecordedRetry(state, item, folder, reason)[item.id])
  {
    var full := RETRY_PREFIX + reason;
    assert |RETRY_PREFIX| == 7;
    assert RETRY_PREFIX <= Truncated(full);
  }

  /**
   A torrent that was attended to is attended to again exactly when the decision was to look
   again, or when its import asked for that; a skipped one has a row that says so.
   */
  lemma AttendedAgain(state: map<string, StateRow>, v: Visit)
    requires v.item.id != "" && (v.item.id in state ==> Retryable(state[v.item.id]))
    ensures var after := AfterVisit(state, v);
      && v.item.id in after
      && ((after[v.item.id].status == Failed && RETRY_PREFIX <= after[v.item.id].reason) <==>
          || v.step.Retry?
          || (v.step.Import? && (v.outcome.Raised? || (v.outcome.status == Failed && RETRY_PREFIX <= v.outcome.reason))))
      && after[v.item.id].name == (if v.item.id in state then state[v.item.id].name else v.item.name)
      && (v.step.Skip? || v.step.Retry? || v.outcome.Finished? ==> after[v.item.id].folder == v.step.folder)
      && (v.step.Skip? ==> after[v.item.id].status == Skipped)
      && (v.step.Import? && v.outcome.Finished? ==>
        after[v.item.id].status == v.outcome.status && after[v.item.id].book == v.outcome.book)
      && (forall id :: id != v.item.id ==> (id in after <==> id in state) && (id in after ==> after[id] == state[id]))
  {
    match v.step {
      case Retry(folder, reason) => RetryIsRetryable(state, v.item, folder, reason);
      case Skip(_, _) =>
      case Import(_, _) => ImportDecides(state, v);
    }
  }

  /** A row holding a final decision is never touched again, and its torrent never imported. */
  lemma {:induction false} FinalStays(state: map<string, StateRow>, visits: seq<Visit>, id: string)
    requires id in state && !Retryable(state[id])
    ensures id in AfterVisits(state, visits) && AfterVisits(state, visits)[id] == state[id]
    ensures forall i :: 0 <= i < |visits| && visits[i].item.id == id ==> !Imports(AfterVisits(state, visits[..i]), visits[i])
  {
    if visits != [] {
      var n := |visits| - 1;
      FinalStays(state, visits[..n], id);
      forall i | 0 <= i < |visits| && visits[i].item.id == id
        ensures !Imports(AfterVisits(state, visits[..i]), visits[i])
      {
        if i < n {
          assert visits[..n][i] == visits[i];
          assert visits[..n][..i] == visits[..i];
        }
      }
    }
  }

  /** Whatever comes later, the row of `id` stays as it is and its torrent is not imported. */
  ghost predicate DoneWith(state: map<string, StateRow>, later: seq<Visit>, id: string) {
    && id in state && id in AfterVisits(state, later) && AfterVisits(state, later)[id] == state[id]
    && forall i :: 0 <= i < |later| && later[i].item.id == id ==> !Imports(AfterVisits(state, later[..i]), later[i])
  }

  /**
   What the disk means for later ticks: a folder that is missing or outside every root is
   attended to again under whatever the client then reports for it, a directory beneath a root
   is imported now, and a single file keeps its row and is never imported.
   */
  lemma LaterTicks(setup: Setup, state: map<string, StateRow>, v: Visit, folder: string, later: seq<Visit>)
    requires Attended(state, v.item) && Decided(setup, v.item.contentPath, v.step)
    requires Strip(v.item.contentPath) != "" && PlainPath(folder)
    requires RemotePath.ResolvesTo(Strip(v.item.contentPath), setup.mappings, folder)
    ensures var p, after, id := Resolve(setup.cwd, folder), AfterVisit(state, v), v.item.id;
      && (!Beneath(setup, p) || setup.disk(p) == Missing ==>
        forall item: Item :: item.id == id ==> Attended(after, item))
      && (Beneath(setup, p) && setup.disk(p) == IsDir ==> Imports(state, v))
      && (Beneath(setup, p) && setup.disk(p) == IsFile ==> DoneWith(after, later, id))
  {
    DecidedIs(setup, v.item.contentPath, v.step, folder);
    AttendedAgain(state, v);
    hide Decided, Resolve, Beneath, PlainPath, AfterVisit, AfterVisits, Strip, RemotePath.ResolvesTo;
    if v.step.Skip? {
      FinalStays(AfterVisit(state, v), later, v.item.id);
    }
  }

  lemma {:induction false} VisitsSplit(state: map<string, StateRow>, visits: seq<Visit>, i: nat, j: nat)
    requires i <= j <= |visits|
    ensures AfterVisits(state, visits[..j]) == AfterVisits(AfterVisits(state, visits[..i]), visits[i..j])
    decreases j - i
  {
    if i == j {
      assert visits[i..j] == [];
    } else {
      VisitsSplit(state, visits, i, j - 1);
      assert visits[..j][..j - 1] == visits[..j - 1];
      assert visits[i..j][..j - i - 1] == visits[i..j - 1];
    }
  }

  /** The way an import ended asks for another attempt. */
  predicate AsksAgain(outcome: Outcome) {
    outcome.Raised? || (outcome.status.Failed? && RETRY_PREFIX <= outcome.reason)
  }

  lemma ImportDecides(state: map<string, StateRow>, v: Visit)
    requires Imports(state, v)
    ensures v.item.id in AfterVisit(state, v)
    ensures Retryable(AfterVisit(state, v)[v.item.id]) <==> AsksAgain(v.outcome)
  {
    if v.outcome.Raised? {
      RetryIsRetryable(state, v.item, "", UNEXPECTED);
    } else {
      var reason := v.outcome.reason;
      assert |RETRY_PREFIX| == 7;
      assert RETRY_PREFIX <= Truncated(reason) <==> RETRY_PREFIX <= reason;
    }
  }

  /**
   Over any number of ticks a torrent is handed to the import pipeline a second time only when
   the earlier attempt ended by asking for one.
   */
  lemma ImportedAgainOnlyAfterRetry(state: map<string, StateRow>, visits: seq<Visit>, i: nat, j: nat)
    requires i < j < |visits| && visits[i].item.id == visits[j].item.id
    requires Imports(AfterVisits(state, visits[..i]), visits[i])
    requires Imports(AfterVisits(state, visits[..j]), visits[j])
    ensures AsksAgain(visits[i].outcome)
  {
    var before := AfterVisits(state, visits[..i]);
    ImportDecides(before, visits[i]);
    var rest := visits[i + 1..];
    assert rest[j - i - 1] == visits[j];
    assert rest[..j - i - 1] == visits[i + 1..j];
    assert visits[..i + 1][..i] == visits[..i];
    VisitsSplit(state, visits, i + 1, j);
    if !AsksAgain(visits[i].outcome) {
      FinalStays(AfterVisits(state, visits[..i + 1]), rest, visits[i].item.id);
    }
  }
}
