/**
 The conversion job queue: the worker (app/conversion/worker.py), the job routes
 (app/api/routes_conversion.py) and the converter's callback (app/api/routes_webhooks.py).
 */
module ConversionQueue {
  import opened Options

  datatype Status = Queued | Running | Completed | Failed | Cancelled

  /** `updated` is the whole second of the last change. */
  datatype Job = Job(
    book: nat,
    source: string,
    status: Status,
    attempts: nat,
    completedPath: string,
    originalsDeleted: nat,
    updated: int)

  /** The tables involved; job ids come from an AUTOINCREMENT column and are never reused. */
  datatype Tables = Tables(books: set<nat>, jobs: map<nat, Job>, next: nat)

  predicate WellFormed(t: Tables) {
    forall id :: id in t.jobs ==> id < t.next && t.jobs[id].book in t.books
  }

  predicate Active(j: Job) {
    j.status.Queued? || j.status.Running?
  }

  ghost predicate HasActive(t: Tables, book: nat) {
    exists id :: id in t.jobs && t.jobs[id].book == book && Active(t.jobs[id])
  }

  /** At most one queued or running job per book. */
  ghost predicate OneActive(t: Tables) {
    forall i, j :: i in t.jobs && j in t.jobs && i != j && Active(t.jobs[i]) && Active(t.jobs[j]) ==>
      t.jobs[i].book != t.jobs[j].book
  }

  // ---------- what each step does to the tables ----------

  ghost function Enqueued(t: Tables, book: nat, source: string, now: int): Tables {
    if book !in t.books || HasActive(t, book) then t
    else t.(jobs := t.jobs[t.next := Job(book, source, Queued, 0, "", 0, now)], next := t.next + 1)
  }

  /** The queued job with the least id below `n`. */
  function FirstQueued(jobs: map<nat, Job>, n: nat): (r: Option<nat>)
    ensures r.Some? ==> r.value < n && r.value in jobs && jobs[r.value].status.Queued?
    ensures forall k :: 0 <= k < (if r.Some? then r.value else n) && k in jobs ==> !jobs[k].status.Queued?
  {
    if n == 0 then None
    else
      var r := FirstQueued(jobs, n - 1);
      if r.Some? then r
      else if n - 1 in jobs && jobs[n - 1].status.Queued? then Some(n - 1)
      else None
  }

  function WithStatus(t: Tables, id: nat, status: Status, now: int): Tables
    requires id in t.jobs
  {
    t.(jobs := t.jobs[id := t.jobs[id].(status := status, updated := now)])
  }

  function Claimed(t: Tables, now: int): Tables {
    var id := FirstQueued(t.jobs, t.next);
    if id.None? then t
    else
      var j := t.jobs[id.value];
      t.(jobs := t.jobs[id.value := j.(status := Running, attempts := j.attempts + 1, updated := now)])
  }

  function CompletedWith(t: Tables, id: nat, path: string, now: int): Tables
    requires id in t.jobs
  {
    t.(jobs := t.jobs[id := t.jobs[id].(status := Completed, completedPath := path, updated := now)])
  }

  /** `_finish_job`: an update by id alone, whatever the status has become meanwhile. */
  function Finished(t: Tables, id: nat, ok: bool, path: string, now: int): Tables {
    if id !in t.jobs then t
    else if ok then CompletedWith(t, id, path, now)
    else WithStatus(t, id, Failed, now)
  }

  function Max(a: int, b: int): int {
    if a < b then b else a
  }

  predicate TimedOut(j: Job, now: real, hours: int) {
    j.status.Running? && (now - j.updated as real) / 3600.0 > Max(1, hours) as real
  }

  /** The running jobs with an id below `n` that are older than the limit. */
  function Overdue(jobs: map<nat, Job>, now: real, hours: int, n: nat): set<nat> {
    set id | id in jobs && id < n && TimedOut(jobs[id], now, hours)
  }

  lemma OverdueNext(jobs: map<nat, Job>, now: real, hours: int, n: nat)
    ensures Overdue(jobs, now, hours, n + 1)
         == Overdue(jobs, now, hours, n) + if n in jobs && TimedOut(jobs[n], now, hours) then {n} else {}
    ensures n !in Overdue(jobs, now, hours, n)
  {
    hide TimedOut;
  }

  /** The rows once the overdue jobs with an id below `n` have failed. */
  function FailedBelow(jobs: map<nat, Job>, now: real, hours: int, n: nat): map<nat, Job> {
    map id | id in jobs ::
      if id < n && TimedOut(jobs[id], now, hours) then jobs[id].(status := Failed, updated := now.Floor) else jobs[id]
  }

  lemma NoneFailedYet(jobs: map<nat, Job>, now: real, hours: int)
    ensures FailedBelow(jobs, now, hours, 0) == jobs && Overdue(jobs, now, hours, 0) == {}
  {
    hide TimedOut;
  }

  lemma FailedNext(jobs: map<nat, Job>, now: real, hours: int, n: nat)
    ensures FailedBelow(jobs, now, hours, n).Keys == jobs.Keys
    ensures var before, after := FailedBelow(jobs, now, hours, n), FailedBelow(jobs, now, hours, n + 1);
      after == if n in jobs && TimedOut(jobs[n], now, hours)
               then before[n := before[n].(status := Failed, updated := now.Floor)] else before
  {
    hide TimedOut;
  }

  function TimeoutsFailed(t: Tables, now: real, hours: int): Tables {
    t.(jobs := map id | id in t.jobs ::
      if TimedOut(t.jobs[id], now, hours) then t.jobs[id].(status := Failed, updated := now.Floor) else t.jobs[id])
  }

  lemma AllFailed(t: Tables, now: real, hours: int)
    requires WellFormed(t)
    ensures t.(jobs := FailedBelow(t.jobs, now, hours, t.next)) == TimeoutsFailed(t, now, hours)
    ensures WellFormed(TimeoutsFailed(t, now, hours))
    ensures forall id :: id in Overdue(t.jobs, now, hours, t.next) <==> id in t.jobs && TimedOut(t.jobs[id], now, hours)
  {
    hide TimedOut;
  }

  function CancelledJob(t: Tables, id: nat, now: int): Tables {
    if id in t.jobs && t.jobs[id].status.Queued? then WithStatus(t, id, Cancelled, now) else t
  }

  predicate Retryable(t: Tables, id: nat) {
    id in t.jobs && (t.jobs[id].status.Failed? || t.jobs[id].status.Cancelled?)
  }

  function Retried(t: Tables, id: nat, now: int): Tables {
    if Retryable(t, id) then WithStatus(t, id, Queued, now) else t
  }

  function WebhookDone(t: Tables, id: nat, ok: bool, path: string, now: int): Tables {
    if id in t.jobs && t.jobs[id].status.Running? then Finished(t, id, ok, path, now) else t
  }

  function WithoutBook(t: Tables, book: nat): Tables {
    t.(books := t.books - {book}, jobs := map id | id in t.jobs && t.jobs[id].book != book :: t.jobs[id])
  }

  // ---------- the operations ----------

  datatype Reply = Ok(id: nat) | Conflict | NotFound

  /** The parts of a callback that decide which job it is about. */
  datatype Payload = Payload(sourceJobId: Option<nat>, hasTitle: bool)

  /** `SELECT ... WHERE status = 'running' ORDER BY id` */
  function RunningIds(jobs: map<nat, Job>, n: nat): (r: seq<nat>)
    ensures forall id :: id in r <==> id < n && id in jobs && jobs[id].status.Running?
    ensures forall i, j :: 0 <= i < j < |r| ==> r[i] < r[j]
  {
    if n == 0 then []
    else
      var r := RunningIds(jobs, n - 1);
      assert forall i :: 0 <= i < |r| ==> r[i] in r;
      r + if n - 1 in jobs && jobs[n - 1].status.Running? then [n - 1] else []
  }

  predicate IsRunning(t: Tables, id: nat) {
    id in t.jobs && t.jobs[id].status.Running?
  }

  /** The first running job with the best title score, given one that scores at least one half. */
  ghost predicate BestByTitle(t: Tables, score: nat -> real, id: nat) {
    && IsRunning(t, id) && score(id) >= 0.5
    && (forall k: nat :: IsRunning(t, k) ==> score(k) <= score(id))
    && (forall k: nat :: IsRunning(t, k) && k < id ==> score(k) < score(id))
  }

  ghost predicate Matches(t: Tables, payload: Payload, score: nat -> real, r: Option<nat>) {
    if payload.sourceJobId.Some? && IsRunning(t, payload.sourceJobId.value) then r == payload.sourceJobId
    else if payload.hasTitle then
      if r.Some? then BestByTitle(t, score, r.value)
      else forall k: nat :: IsRunning(t, k) ==> score(k) < 0.5
    else if r.Some? then OnlyRunning(t, r.value)
    else forall k: nat :: !OnlyRunning(t, k)
  }

  ghost predicate OnlyRunning(t: Tables, id: nat) {
    IsRunning(t, id) && forall k: nat :: IsRunning(t, k) ==> k == id
  }

  /** The scoring loop: the first id with the best score, given one that scores at least one half. */
  method FirstBest(running: seq<nat>, score: nat -> real) returns (r: Option<nat>)
    requires forall i, j :: 0 <= i < j < |running| ==> running[i] < running[j]
    ensures r.Some? ==> r.value in running && score(r.value) >= 0.5
    ensures r.Some? ==> forall k :: k in running ==> score(k) <= score(r.value)
    ensures r.Some? ==> forall k :: k in running && k < r.value ==> score(k) < score(r.value)
    ensures r.None? ==> forall k :: k in running ==> score(k) < 0.5
  {
    var best: Option<nat> := None;
    var bestScore := 0.0;
    for n := 0 to |running|
      invariant best.None? ==> bestScore == 0.0
      invariant best.Some? ==> bestScore == score(best.value) && best.value in running
      invariant forall i :: 0 <= i < n ==> score(running[i]) <= bestScore
      invariant best.Some? ==> forall i :: 0 <= i < n && running[i] < best.value ==> score(running[i]) < bestScore
      invariant best.Some? ==> forall i :: n <= i < |running| ==> best.value < running[i]
    {
      if score(running[n]) > bestScore {
        best, bestScore := Some(running[n]), score(running[n]);
      }
    }
    if best.Some? && bestScore >= 0.5 {
      return best;
    }
    r := None;
  }

  ghost predicate ExplicitlyRunning(t: Tables, payload: Payload) {
    payload.sourceJobId.Some? && IsRunning(t, payload.sourceJobId.value)
  }

  lemma NoneRunning(t: Tables, payload: Payload, score: nat -> real)
    requires forall k: nat :: !IsRunning(t, k)
    ensures Matches(t, payload, score, None)
  {
  }

  lemma SoleRunning(t: Tables, payload: Payload, score: nat -> real, running: seq<nat>)
    requires !ExplicitlyRunning(t, payload) && !payload.hasTitle && running != []
    requires forall k: nat :: k in running <==> IsRunning(t, k)
    requires forall i, j :: 0 <= i < j < |running| ==> running[i] < running[j]
    ensures Matches(t, payload, score, if |running| == 1 then Some(running[0]) else None)
  {
    hide IsRunning;
    assert running[0] in running;
    assert |running| > 1 ==> running[1] in running;
  }

  lemma BestMatches(t: Tables, payload: Payload, score: nat -> real, running: seq<nat>, r: Option<nat>)
    requires !ExplicitlyRunning(t, payload) && payload.hasTitle
    requires forall k: nat :: k in running <==> IsRunning(t, k)
    requires r.Some? ==> r.value in running && score(r.value) >= 0.5
    requires r.Some? ==> forall k :: k in running ==> score(k) <= score(r.value)
    requires r.Some? ==> forall k :: k in running && k < r.value ==> score(k) < score(r.value)
    requires r.None? ==> forall k :: k in running ==> score(k) < 0.5
    ensures Matches(t, payload, score, r)
  {
    hide IsRunning;
  }

  class ConversionStore {
    var books: set<nat>
    var jobs: map<nat, Job>
    var next: nat

    function Content(): Tables
      reads this
    {
      Tables(books, jobs, next)
    }

    predicate Valid()
      reads this
    {
      WellFormed(Content())
    }

    constructor ()
      ensures Valid() && Content() == Tables({}, map[], 1)
    {
      books, jobs, next := {}, map[], 1;
    }

    method ActiveJob(book: nat) returns (id: Option<nat>)
      requires Valid()
      ensures id.Some? ==> id.value in jobs && jobs[id.value].book == book && Active(jobs[id.value])
      ensures id.None? <==> !HasActive(Content(), book)
    {
      for n := 0 to next
        invariant forall k :: 0 <= k < n && k in jobs ==> jobs[k].book != book || !Active(jobs[k])
      {
        if n in jobs && jobs[n].book == book && Active(jobs[n]) {
          return Some(n);
        }
      }
      id := None;
    }

    /** `enqueue_job`, with a backend configured. */
    method EnqueueJob(book: nat, source: string, now: int) returns (reply: Reply)
      requires Valid()
      modifies this
      ensures Valid() && Content() == Enqueued(old(Content()), book, source, now)
      ensures reply == if book !in old(books) then NotFound
                       else if HasActive(old(Content()), book) then Conflict
                       else Ok(old(next))
    {
      if book !in books {
        return NotFound;
      }
      var active := ActiveJob(book);
      if active.Some? {
        return Conflict;
      }
      jobs, next := jobs[next := Job(book, source, Queued, 0, "", 0, now)], next + 1;
      reply := Ok(next - 1);
    }

    /** `enqueue_for_book`, called for a book that is in the library. */
    method EnqueueForBook(book: nat, source: string, enabled: bool, now: int) returns (id: Option<nat>)
      requires Valid() && book in books
      modifies this
      ensures Valid() && Content() == if enabled then Enqueued(old(Content()), book, source, now) else old(Content())
      ensures id.Some? ==> id.value in jobs && jobs[id.value].book == book && Active(jobs[id.value])
      ensures id.None? <==> !enabled && !HasActive(old(Content()), book)
    {
      id := ActiveJob(book);
      if id.Some? || !enabled {
        return;
      }
      jobs, next := jobs[next := Job(book, source, Queued, 0, "", 0, now)], next + 1;
      id := Some(next - 1);
    }

    /** The part of `process_one_job` before the backend is awaited. */
    method ClaimJob(now: int) returns (id: Option<nat>)
      requires Valid()
      modifies this
      ensures Valid() && Content() == Claimed(old(Content()), now)
      ensures id == FirstQueued(old(jobs), old(next))
    {
      id := None;
      for n := 0 to next
        invariant id == FirstQueued(jobs, n)
      {
        if id.None? && n in jobs && jobs[n].status.Queued? {
          id := Some(n);
        }
      }
      if id.None? {
        return;
      }
      var job := jobs[id.value];
      jobs := jobs[id.value := job.(status := Running, attempts := job.attempts + 1, updated := now)];
    }

    method FinishJob(id: nat, ok: bool, path: string, now: int)
      requires Valid()
      modifies this
      ensures Valid() && Content() == Finished(old(Content()), id, ok, path, now)
    {
      if id in jobs {
        if ok {
          jobs := jobs[id := jobs[id].(status := Completed, completedPath := path, updated := now)];
        } else {
          jobs := jobs[id := jobs[id].(status := Failed, updated := now)];
        }
      }
    }

    method ProcessTimeouts(now: real, hours: int) returns (failed: nat)
      requires Valid()
      modifies this
      ensures Valid() && Content() == TimeoutsFailed(old(Content()), now, hours)
      ensures failed == |Overdue(old(jobs), now, hours, old(next))|
      ensures forall id :: id in Overdue(old(jobs), now, hours, old(next)) <==> id in old(jobs) && TimedOut(old(jobs)[id], now, hours)
    {
      hide TimedOut, TimeoutsFailed, FailedBelow, Overdue;
      failed := 0;
      var rows := jobs;
      NoneFailedYet(rows, now, hours);
      for n := 0 to next
        invariant next == old(next) && books == old(books) && old(jobs) == rows
        invariant failed == |Overdue(rows, now, hours, n)|
        invariant jobs == FailedBelow(rows, now, hours, n)
      {
        OverdueNext(rows, now, hours, n);
        FailedNext(rows, now, hours, n);
        if n in rows && TimedOut(rows[n], now, hours) {
          jobs := jobs[n := jobs[n].(status := Failed, updated := now.Floor)];
          failed := failed + 1;
        }
      }
      AllFailed(old(Content()), now, hours);
    }

    method RetryJob(id: nat, now: int) returns (reply: Reply)
      requires Valid()
      modifies this
      ensures Valid() && Content() == Retried(old(Content()), id, now)
      ensures reply.Ok? <==> Retryable(old(Content()), id)
      ensures reply.NotFound? <==> id !in old(jobs)
    {
      if id !in jobs {
        return NotFound;
      }
      if !jobs[id].status.Failed? && !jobs[id].status.Cancelled? {
        return Conflict;
      }
      jobs := jobs[id := jobs[id].(status := Queued, updated := now)];
      reply := Ok(id);
    }

    method CancelJob(id: nat, now: int) returns (reply: Reply)
      requires Valid()
      modifies this
      ensures Valid() && Content() == CancelledJob(old(Content()), id, now)
      ensures reply.Ok? <==> id in old(jobs) && old(jobs)[id].status.Queued?
      ensures reply.NotFound? <==> id !in old(jobs)
    {
      if id !in jobs {
        return NotFound;
      }
      if !jobs[id].status.Queued? {
        return Conflict;
      }
      jobs := jobs[id := jobs[id].(status := Cancelled, updated := now)];
      reply := Ok(id);
    }

    /** `_match_running_job`; `score(id)` is the similarity of the job's book title. */
    method MatchRunningJob(payload: Payload, score: nat -> real) returns (r: Option<nat>)
      requires Valid()
      ensures Matches(Content(), payload, score, r)
    {
      if payload.sourceJobId.Some? && payload.sourceJobId.value in jobs && jobs[payload.sourceJobId.value].status.Running? {
        return payload.sourceJobId;
      }
      var running := RunningIds(jobs, next);
      ghost var t := Content();
      assert forall k: nat :: k in running <==> IsRunning(t, k);
      hide RunningIds, Matches;
      if running == [] {
        NoneRunning(t, payload, score);
        return None;
      }
      if !payload.hasTitle {
        SoleRunning(t, payload, score, running);
        return if |running| == 1 then Some(running[0]) else None;
      }
      r := FirstBest(running, score);
      BestMatches(t, payload, score, running, r);
    }

    /** The callback's effect on the queue: `path` is the converted file of a completed status. */
    method Webhook(payload: Payload, score: nat -> real, ok: bool, path: string, now: int) returns (r: Option<nat>)
      requires Valid()
      modifies this
      ensures Valid() && Matches(old(Content()), payload, score, r)
      ensures Content() == if r.Some? then WebhookDone(old(Content()), r.value, ok, path, now) else old(Content())
      ensures r.Some? ==> IsRunning(old(Content()), r.value)
    {
      r := MatchRunningJob(payload, score);
      if r.Some? {
        FinishJob(r.value, ok, path, now);
      }
    }

    method DeleteBook(book: nat)
      requires Valid()
      modifies this
      ensures Valid() && Content() == WithoutBook(old(Content()), book)
    {
      books := books - {book};
      jobs := map id | id in jobs && jobs[id].book != book :: jobs[id];
    }
  }

  // ---------- runs ----------

  datatype Event =
    | AddBook(added: nat)
    | Enqueue(book: nat, source: string)
    | Claim
    | Verdict(id: nat, ok: bool)
    | Callback(id: nat, ok: bool, path: string)
    | Timeouts(hours: int)
    | Cancel(id: nat)
    | Retry(id: nat)
    | DeleteBook(book: nat)

  /** One atomic step at second `now`. A callback is given with the running job it matches. */
  ghost function Step(t: Tables, e: Event, now: int): Tables {
    match e
    case AddBook(added) => t.(books := t.books + {added})
    case Enqueue(book, source) => Enqueued(t, book, source, now)
    case Claim => Claimed(t, now)
    case Verdict(id, ok) => Finished(t, id, ok, "", now)
    case Callback(id, ok, path) => WebhookDone(t, id, ok, path, now)
    case Timeouts(hours) => TimeoutsFailed(t, now as real, hours)
    case Cancel(id) => CancelledJob(t, id, now)
    case Retry(id) => Retried(t, id, now)
    case DeleteBook(book) => WithoutBook(t, book)
  }

  datatype Timed = Timed(event: Event, now: int)

  const EMPTY := Tables({}, map[], 1)

  ghost function Run(events: seq<Timed>): Tables {
    if events == [] then EMPTY
    else
      var last := events[|events| - 1];
      Step(Run(events[..|events| - 1]), last.event, last.now)
  }

  lemma RunSnoc(events: seq<Timed>, e: Event, now: int)
    ensures Run(events + [Timed(e, now)]) == Step(Run(events), e, now)
  {
    assert (events + [Timed(e, now)])[..|events|] == events;
  }

  /** Adding a book and queueing a conversion for it, from the empty queue. */
  lemma FirstEnqueued(book: nat, source: string, now: int)
    ensures Run([Timed(AddBook(book), now), Timed(Enqueue(book, source), now)])
         == Tables({book}, map[1 := Job(book, source, Queued, 0, "", 0, now)], 2)
  {
    RunSnoc([], AddBook(book), now);
    RunSnoc([Timed(AddBook(book), now)], Enqueue(book, source), now);
    assert [] + [Timed(AddBook(book), now)] == [Timed(AddBook(book), now)];
    assert [Timed(AddBook(book), now)] + [Timed(Enqueue(book, source), now)]
        == [Timed(AddBook(book), now), Timed(Enqueue(book, source), now)];
  }

  lemma StepKeepsWellFormed(t: Tables, e: Event, now: int)
    requires WellFormed(t)
    ensures WellFormed(Step(t, e, now))
  {}

  lemma {:induction false} RunWellFormed(events: seq<Timed>)
    ensures WellFormed(Run(events))
  {
    if events != [] {
      RunWellFormed(events[..|events| - 1]);
      var last := events[|events| - 1];
      StepKeepsWellFormed(Run(events[..|events| - 1]), last.event, last.now);
    }
  }

  // ---------- which job a callback is about ----------

  /** The ids of the running jobs. */
  function RunningJobs(t: Tables): set<nat> {
    set id | id in t.jobs && t.jobs[id].status == Running
  }

  /**
   An explicit id wins when its job is running. Otherwise, with a title, the best score of at
   least one half, the earliest of equals; without one, the job must be the only one running.
   */
  lemma MatchedIs(t: Tables, payload: Payload, score: nat -> real, r: Option<nat>)
    requires Matches(t, payload, score, r)
    ensures var running := RunningJobs(t);
      if payload.sourceJobId.Some? && payload.sourceJobId.value in running then r == payload.sourceJobId
      else if payload.hasTitle then
        && (r.Some? <==> exists k :: k in running && score(k) >= 0.5)
        && (r.Some? ==> r.value in running)
        && (r.Some? ==> forall k :: k in running && k != r.value ==>
          score(k) < score(r.value) || (score(k) == score(r.value) && r.value < k))
      else forall k: nat :: r == Some(k) <==> running == {k}
  {
    var running := RunningJobs(t);
    assert forall k: nat :: IsRunning(t, k) <==> k in running;
    hide IsRunning;
    forall k: nat
      ensures OnlyRunning(t, k) <==> running == {k}
    {
      if OnlyRunning(t, k) {
        assert running == {k};
      }
    }
  }

  // ---------- what a step does to one job ----------

  /** Running for more than the limit: `hours`, and at least one. */
  predicate Late(j: Job, now: int, hours: int) {
    j.status == Running && now - j.updated > 3600 * (if hours < 1 then 1 else hours)
  }

  lemma TimedOutIsLate(j: Job, now: int, hours: int)
    ensures TimedOut(j, now as real, hours) <==> Late(j, now, hours)
  {
    var age, limit := now as real - j.updated as real, if hours < 1 then 1 else hours;
    assert Max(1, hours) == limit;
    assert age / 3600.0 > limit as real <==> age > 3600.0 * limit as real;
  }

  predicate NextInLine(t: Tables, id: nat) {
    && id in t.jobs && t.jobs[id].status == Queued
    && forall k :: k in t.jobs && t.jobs[k].status == Queued ==> id <= k
  }

  lemma FirstQueuedIs(t: Tables, id: nat)
    requires WellFormed(t)
    ensures FirstQueued(t.jobs, t.next) == Some(id) <==> NextInLine(t, id)
  {
  }

  /**
   A job is gone exactly when its book is deleted; otherwise the step decides its status, and
   nothing else of it changes but the attempts of a claim, the path of a success and the time.
   */
  ghost predicate JobAfter(t: Tables, e: Event, now: int, id: nat, after: Tables)
    requires id in t.jobs
  {
    var j := t.jobs[id];
    match e
    case Claim =>
      id in after.jobs && after.jobs[id]
        == if NextInLine(t, id) then j.(status := Running, attempts := j.attempts + 1, updated := now) else j
    case Verdict(about, ok) =>
      id in after.jobs && after.jobs[id]
        == if about != id then j
           else if ok then j.(status := Completed, completedPath := "", updated := now)
           else j.(status := Failed, updated := now)
    case Callback(about, ok, path) =>
      id in after.jobs && after.jobs[id]
        == if about != id || j.status != Running then j
           else if ok then j.(status := Completed, completedPath := path, updated := now)
           else j.(status := Failed, updated := now)
    case Timeouts(hours) =>
      id in after.jobs && after.jobs[id] == if Late(j, now, hours) then j.(status := Failed, updated := now) else j
    case Cancel(about) =>
      id in after.jobs && after.jobs[id]
        == if about == id && j.status == Queued then j.(status := Cancelled, updated := now) else j
    case Retry(about) =>
      id in after.jobs && after.jobs[id]
        == if about == id && (j.status == Failed || j.status == Cancelled) then j.(status := Queued, updated := now) else j
    case DeleteBook(book) => if j.book == book then id !in after.jobs else id in after.jobs && after.jobs[id] == j
    case _ => id in after.jobs && after.jobs[id] == j
  }

  lemma StepOnJob(t: Tables, e: Event, now: int, id: nat)
    requires WellFormed(t) && id in t.jobs
    ensures JobAfter(t, e, now, id, Step(t, e, now))
  {
    FirstQueuedIs(t, id);
    match e {
      case Timeouts(hours) =>
        TimedOutIsLate(t.jobs[id], now, hours);
        assert (now as real).Floor == now;
      case _ =>
    }
  }

  /** Only queueing adds a job: for a book that exists and has none queued or running. */
  lemma StepAddsJob(t: Tables, e: Event, now: int, id: nat)
    requires WellFormed(t) && id !in t.jobs
    ensures id in Step(t, e, now).jobs <==>
      && id == t.next && e.Enqueue? && e.book in t.books
      && (forall k :: k in t.jobs && t.jobs[k].book == e.book ==> t.jobs[k].status != Queued && t.jobs[k].status != Running)
    ensures id in Step(t, e, now).jobs ==> Step(t, e, now).jobs[id] == Job(e.book, e.source, Queued, 0, "", 0, now)
  {
  }

  // ---------- one active job per book ----------

  /** A retry that goes through while another job of the same book is queued or running. */
  ghost predicate BreakingRetry(t: Tables, e: Event) {
    e.Retry? && Retryable(t, e.id) && HasActive(t, t.jobs[e.id].book)
  }

  /** The invariant survives a step exactly when the step is not a breaking retry. */
  lemma OneActiveStep(t: Tables, e: Event, now: int)
    requires WellFormed(t) && OneActive(t)
    ensures OneActive(Step(t, e, now)) <==> !BreakingRetry(t, e)
  {
    var after := Step(t, e, now);
    if BreakingRetry(t, e) {
      var other :| other in t.jobs && t.jobs[other].book == t.jobs[e.id].book && Active(t.jobs[other]);
      assert other != e.id && after.jobs[other] == t.jobs[other];
      assert Active(after.jobs[e.id]);
    }
  }

  ghost predicate NeverBreaks(events: seq<Timed>) {
    forall n :: 0 <= n < |events| ==> !BreakingRetry(Run(events[..n]), events[n].event)
  }

  /**
   From an empty queue, every interleaving of the steps keeps at most one active job per book
   throughout exactly when none of its retries found another active job of its book.
   */
  lemma {:induction false} OneActiveRunIff(events: seq<Timed>)
    ensures OneActiveThroughout(events) <==> NeverBreaks(events)
  {
    hide Run, BreakingRetry, OneActive;
    if events == [] {
      EmptyIsFine();
    } else {
      var before, last := events[..|events| - 1], events[|events| - 1];
      OneActiveRunIff(before);
      RunWellFormed(before);
      assert events == before + [last];
      ThroughoutOneMore(before, last);
      RunSnoc(before, last.event, last.now);
      if OneActive(Run(before)) {
        OneActiveStep(Run(before), last.event, last.now);
      }
    }
  }

  /** The invariant holds after each initial part of the run. */
  ghost predicate OneActiveThroughout(events: seq<Timed>) {
    forall n :: 0 <= n <= |events| ==> OneActive(Run(events[..n]))
  }

  lemma ThroughoutOneMore(before: seq<Timed>, last: Timed)
    ensures var events := before + [last];
      && (OneActiveThroughout(events) <==> OneActiveThroughout(before) && OneActive(Run(events)))
      && (OneActiveThroughout(before) ==> OneActive(Run(before)))
      && (NeverBreaks(events) <==> NeverBreaks(before) && !BreakingRetry(Run(before), last.event))
  {
    hide Run, BreakingRetry, OneActive;
    var events := before + [last];
    assert events[..|events|] == events && before[..|before|] == before;
    assert forall n :: 0 <= n <= |before| ==> before[..n] == events[..n];
    assert forall n :: 0 <= n < |before| ==> before[n] == events[n];
  }

  lemma EmptyIsFine()
    ensures OneActiveThroughout([]) && NeverBreaks([])
  {}

  /** Without a retry no interleaving breaks the invariant. */
  lemma {:induction false} NoRetryOneActive(events: seq<Timed>)
    requires forall n :: 0 <= n < |events| ==> !events[n].event.Retry?
    ensures OneActive(Run(events))
  {
    hide Run, OneActive;
    OneActiveRunIff(events);
    assert events[..|events|] == events;
  }

  /** Enqueue, cancel, enqueue again, retry the cancelled job: two queued jobs for one book. */
  lemma RetryBreaks(book: nat, source: string, now: int)
    ensures var events := [Timed(AddBook(book), now), Timed(Enqueue(book, source), now)]
                        + [Timed(Cancel(1), now)] + [Timed(Enqueue(book, source), now)] + [Timed(Retry(1), now)];
      !OneActive(Run(events))
  {
    var j := Job(book, source, Queued, 0, "", 0, now);
    var e2 := [Timed(AddBook(book), now), Timed(Enqueue(book, source), now)];
    var e3 := e2 + [Timed(Cancel(1), now)];
    var e4 := e3 + [Timed(Enqueue(book, source), now)];
    FirstEnqueued(book, source, now);
    RunSnoc(e2, Cancel(1), now);
    assert Run(e3) == Tables({book}, map[1 := j.(status := Cancelled)], 2);
    RunSnoc(e3, Enqueue(book, source), now);
    assert Run(e4) == Tables({book}, map[1 := j.(status := Cancelled), 2 := j], 3);
    RunSnoc(e4, Retry(1), now);
    var t := Run(e4 + [Timed(Retry(1), now)]);
    assert t.jobs[1] == t.jobs[2] == j;
  }

  /** The retry with the guard the other two ways of queueing a job have. */
  ghost function GuardedRetry(t: Tables, id: nat, now: int): Tables {
    if Retryable(t, id) && !HasActive(t, t.jobs[id].book) then WithStatus(t, id, Queued, now) else t
  }

  lemma GuardedRetryKeepsOneActive(t: Tables, id: nat, now: int)
    requires OneActive(t)
    ensures OneActive(GuardedRetry(t, id, now))
    ensures !BreakingRetry(t, Retry(id)) ==> GuardedRetry(t, id, now) == Retried(t, id, now)
  {}

  ghost function GuardedStep(t: Tables, e: Event, now: int): Tables {
    if e.Retry? then GuardedRetry(t, e.id, now) else Step(t, e, now)
  }

  ghost function GuardedRun(events: seq<Timed>): Tables {
    if events == [] then EMPTY
    else
      var last := events[|events| - 1];
      GuardedStep(GuardedRun(events[..|events| - 1]), last.event, last.now)
  }

  /** With the guarded retry every interleaving, retries included, keeps one active job per book. */
  lemma {:induction false} GuardedRunOneActive(events: seq<Timed>)
    ensures WellFormed(GuardedRun(events)) && OneActive(GuardedRun(events))
  {
    hide Step, GuardedRetry, OneActive, BreakingRetry;
    if events == [] {
      EmptyOneActive();
    } else {
      var before, last := GuardedRun(events[..|events| - 1]), events[|events| - 1];
      GuardedRunOneActive(events[..|events| - 1]);
      GuardedStepKeeps(before, last.event, last.now);
    }
  }

  lemma EmptyOneActive()
    ensures WellFormed(EMPTY) && OneActive(EMPTY)
  {}

  lemma GuardedStepKeeps(t: Tables, e: Event, now: int)
    requires WellFormed(t) && OneActive(t)
    ensures WellFormed(GuardedStep(t, e, now)) && OneActive(GuardedStep(t, e, now))
  {
    if e.Retry? {
      GuardedRetryKeepsOneActive(t, e.id, now);
    } else {
      hide Step;
      StepKeepsWellFormed(t, e, now);
      OneActiveStep(t, e, now);
    }
  }

  /** The guard changes nothing in a run whose retries never found another active job. */
  lemma {:induction false} GuardedRunAgrees(events: seq<Timed>)
    requires NeverBreaks(events)
    ensures GuardedRun(events) == Run(events)
  {
    hide Step, BreakingRetry, OneActive;
    if events != [] {
      var before, last := events[..|events| - 1], events[|events| - 1];
      assert forall n :: 0 <= n < |before| ==> before[..n] == events[..n] && before[n] == events[n];
      GuardedRunAgrees(before);
      GuardedRunOneActive(before);
      if last.event.Retry? {
        assert !BreakingRetry(Run(before), last.event);
        GuardedRetryKeepsOneActive(Run(before), last.event.id, last.now);
        RetryIsStep(Run(before), last.event, last.now);
      }
    }
  }

  lemma RetryIsStep(t: Tables, e: Event, now: int)
    requires e.Retry?
    ensures Step(t, e, now) == Retried(t, e.id, now)
  {}

  // ---------- attempts ----------

  /** How often `id` was claimed in a run. */
  ghost function Claims(events: seq<Timed>, id: nat): nat {
    if events == [] then 0
    else
      var before := events[..|events| - 1];
      var claimed := events[|events| - 1].event.Claim? && FirstQueued(Run(before).jobs, Run(before).next) == Some(id);
      Claims(before, id) + if claimed then 1 else 0
  }

  /** `attempts` is the number of times the worker claimed the job. */
  lemma {:induction false} AttemptsCountClaims(events: seq<Timed>, id: nat)
    ensures id in Run(events).jobs ==> Run(events).jobs[id].attempts == Claims(events, id)
    ensures id >= Run(events).next ==> Claims(events, id) == 0
  {
    if events != [] {
      var before := events[..|events| - 1];
      AttemptsCountClaims(before, id);
      RunWellFormed(before);
      var last := events[|events| - 1];
      AttemptsStep(Run(before), last.event, last.now, id);
    }
  }

  lemma AttemptsStep(t: Tables, e: Event, now: int, id: nat)
    requires WellFormed(t)
    ensures var after := Step(t, e, now);
      && after.next >= t.next
      && (id in after.jobs ==>
        if id in t.jobs
        then after.jobs[id].attempts == t.jobs[id].attempts + if e.Claim? && FirstQueued(t.jobs, t.next) == Some(id) then 1 else 0
        else id == t.next && after.jobs[id].attempts == 0)
      && (e.Claim? && FirstQueued(t.jobs, t.next) == Some(id) ==> id in t.jobs)
  {}

  // ---------- completed jobs ----------

  ghost predicate IsCompleted(t: Tables, id: nat) {
    id in t.jobs && t.jobs[id].status.Completed?
  }

  /** The two steps that end a completed job's status: an error verdict, or deleting its book. */
  predicate EndsCompleted(e: Event, id: nat, book: nat) {
    e == Verdict(id, false) || e == DeleteBook(book)
  }

  /**
   A completed job stays completed exactly when the step is neither an error verdict for it nor
   the deletion of its book. A successful late verdict keeps the status but blanks the recorded
   path of the converted file; any other step leaves the whole row alone.
   */
  lemma CompletedStays(t: Tables, e: Event, now: int, id: nat)
    requires WellFormed(t) && IsCompleted(t, id)
    ensures var after := Step(t, e, now); var j := t.jobs[id];
      && (IsCompleted(after, id) <==> !EndsCompleted(e, id, j.book))
      && (IsCompleted(after, id) ==>
        after.jobs[id] == if e == Verdict(id, true) then j.(completedPath := "", updated := now) else j)
  {}

  /** From the `m`-th step on the job is completed, whatever has happened so far. */
  ghost predicate CompletedThroughout(events: seq<Timed>, m: nat, id: nat)
    requires m <= |events|
  {
    forall n :: m <= n <= |events| ==> IsCompleted(Run(events[..n]), id)
  }

  ghost predicate NeverEnds(events: seq<Timed>, m: nat, id: nat, book: nat)
    requires m <= |events|
  {
    forall n :: m <= n < |events| ==> !EndsCompleted(events[n].event, id, book)
  }

  /** The row a completed job has at the end, given its row when it completed. */
  function LateJob(j: Job, id: nat, later: seq<Timed>): Job {
    if later == [] then j
    else
      var last := later[|later| - 1];
      var before := LateJob(j, id, later[..|later| - 1]);
      if last.event == Verdict(id, true) then before.(completedPath := "", updated := last.now) else before
  }

  /**
   In every interleaving a job once completed is completed at each moment after exactly when
   no error verdict for it and no deletion of its book follows, however many retries, claims,
   callbacks and timeouts do; its row then changes only by successful late verdicts.
   */
  lemma {:induction false} CompletedRunIff(events: seq<Timed>, m: nat, id: nat)
    requires m <= |events| && IsCompleted(Run(events[..m]), id)
    ensures var j := Run(events[..m]).jobs[id];
      && (CompletedThroughout(events, m, id) <==> NeverEnds(events, m, id, j.book))
      && (CompletedThroughout(events, m, id) ==>
        IsCompleted(Run(events), id) && Run(events).jobs[id] == LateJob(j, id, events[m..]))
    decreases |events|
  {
    hide Step, Run;
    var j := Run(events[..m]).jobs[id];
    assert events[..|events|] == events;
    if m < |events| {
      var before, last := events[..|events| - 1], events[|events| - 1];
      assert before[..m] == events[..m];
      assert events == before + [last];
      CompletedRunIff(before, m, id);
      RunWellFormed(before);
      RunSnoc(before, last.event, last.now);
      ThroughoutLast(before, last, m, id);
      NeverEndsLast(before, last, m, id, j.book);
      hide NeverEnds, CompletedThroughout, EndsCompleted;
      assert events[m..][..|events[m..]| - 1] == before[m..];
      LateBook(j, id, before[m..]);
      if CompletedThroughout(before, m, id) {
        CompletedStays(Run(before), last.event, last.now, id);
      }
    }
  }

  lemma {:induction false} LateBook(j: Job, id: nat, later: seq<Timed>)
    ensures LateJob(j, id, later).book == j.book
  {
    if later != [] {
      LateBook(j, id, later[..|later| - 1]);
    }
  }

  lemma ThroughoutLast(before: seq<Timed>, last: Timed, m: nat, id: nat)
    requires m <= |before|
    ensures var events := before + [last];
      CompletedThroughout(events, m, id) <==> CompletedThroughout(before, m, id) && IsCompleted(Run(events), id)
    ensures CompletedThroughout(before, m, id) ==> IsCompleted(Run(before), id)
  {
    hide Run, IsCompleted;
    var events := before + [last];
    assert events[..|events|] == events && before[..|before|] == before;
    assert forall n :: m <= n <= |before| ==> before[..n] == events[..n];
  }

  lemma NeverEndsLast(before: seq<Timed>, last: Timed, m: nat, id: nat, book: nat)
    requires m <= |before|
    ensures NeverEnds(before + [last], m, id, book)
       <==> NeverEnds(before, m, id, book) && !EndsCompleted(last.event, id, book)
  {
    hide EndsCompleted;
    var events := before + [last];
    assert events[|before|] == last;
    assert forall n :: m <= n < |before| ==> before[n] == events[n];
  }

  /**
   The verdict is written without looking at the status: a job the callback has completed
   while the backend call was pending ends as failed when that call then reports an error.
   */
  lemma LateVerdictOverwrites(book: nat, source: string, path: string, now: int)
    ensures var events := [Timed(AddBook(book), now), Timed(Enqueue(book, source), now)]
                        + [Timed(Claim, now)] + [Timed(Callback(1, true, path), now)];
      var late := Run(events + [Timed(Verdict(1, false), now)]);
      && 1 in Run(events).jobs && Run(events).jobs[1].status.Completed?
      && 1 in late.jobs && late.jobs[1].status.Failed?
  {
    var j := Job(book, source, Queued, 0, "", 0, now);
    var e2 := [Timed(AddBook(book), now), Timed(Enqueue(book, source), now)];
    var e3 := e2 + [Timed(Claim, now)];
    var e4 := e3 + [Timed(Callback(1, true, path), now)];
    FirstEnqueued(book, source, now);
    assert FirstQueued(map[1 := j], 1) == None && FirstQueued(map[1 := j], 2) == Some(1);
    RunSnoc(e2, Claim, now);
    assert Run(e3) == Tables({book}, map[1 := j.(status := Running, attempts := 1)], 2);
    RunSnoc(e3, Callback(1, true, path), now);
    RunSnoc(e4, Verdict(1, false), now);
  }
}
