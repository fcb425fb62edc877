/** The periodic wanted search and its duplicate-grab guard (app/wanted_scheduler.py). */
module WantedScheduler {

  datatype SearchStatus = Grabbed | NoRelease

  /** What searching and grabbing for one candidate comes to. */
  datatype Attempt =
    | SearchFailed
    | NothingFits
    | Found(grab: GrabResult)

  datatype GrabResult = GrabRaised | GrabRejected | GrabAccepted

  /** The `wanted_search_state` table. */
  type SearchState = map<nat, SearchStatus>

  datatype Counters = Counters(grabbed: nat, noRelease: nat, skipped: nat, errors: nat)

  /**
   One tick: without an enabled indexer it does nothing; otherwise the cutoff candidates of
   the moment and, for each, the outcome of its search and grab.
   */
  datatype Tick =
    | NoIndexer
    | Search(candidates: seq<nat>, attempts: seq<Attempt>, hasDownloader: bool)

  predicate WellFormed(t: Tick) {
    t.Search? ==>
      && |t.attempts| == |t.candidates|
      && forall i, j :: 0 <= i < j < |t.candidates| ==> t.candidates[i] != t.candidates[j]
  }

  // ---------- one candidate ----------

  predicate AlreadyGrabbed(state: SearchState, book: nat) {
    book in state && state[book].Grabbed?
  }

  /** A successful grab is the one outcome that hands a release to the download client. */
  predicate Grabs(state: SearchState, book: nat, attempt: Attempt, hasDownloader: bool) {
    !AlreadyGrabbed(state, book) && attempt == Found(GrabAccepted) && hasDownloader
  }

  function Record(state: SearchState, book: nat, attempt: Attempt, hasDownloader: bool): SearchState {
    if AlreadyGrabbed(state, book) || attempt.SearchFailed? then state
    else if attempt.NothingFits? || !hasDownloader || attempt.grab.GrabRejected? then state[book := NoRelease]
    else if attempt.grab.GrabRaised? then state
    else state[book := Grabbed]
  }

  function Count(c: Counters, state: SearchState, book: nat, attempt: Attempt, hasDownloader: bool): Counters {
    if AlreadyGrabbed(state, book) then c.(skipped := c.skipped + 1)
    else if attempt.SearchFailed? then c.(errors := c.errors + 1)
    else if attempt.NothingFits? || !hasDownloader || attempt.grab.GrabRejected? then c.(noRelease := c.noRelease + 1)
    else if attempt.grab.GrabRaised? then c.(errors := c.errors + 1)
    else c.(grabbed := c.grabbed + 1)
  }

  function Prune(state: SearchState, candidates: set<nat>): SearchState {
    map book | book in state && book in candidates :: state[book]
  }

  function Books(candidates: seq<nat>): set<nat> {
    set i | 0 <= i < |candidates| :: candidates[i]
  }

  /** The table after the first `n` candidates of a tick. */
  function StateAfter(state: SearchState, t: Tick, n: nat): SearchState
    requires t.Search? && WellFormed(t) && n <= |t.candidates|
  {
    if n == 0 then Prune(state, Books(t.candidates))
    else Record(StateAfter(state, t, n - 1), t.candidates[n - 1], t.attempts[n - 1], t.hasDownloader)
  }

  function CountAfter(state: SearchState, t: Tick, n: nat): Counters
    requires t.Search? && WellFormed(t) && n <= |t.candidates|
  {
    if n == 0 then Counters(0, 0, 0, 0)
    else Count(CountAfter(state, t, n - 1), StateAfter(state, t, n - 1),
               t.candidates[n - 1], t.attempts[n - 1], t.hasDownloader)
  }

  function TickState(state: SearchState, t: Tick): SearchState
    requires WellFormed(t)
  {
    if t.NoIndexer? then state else StateAfter(state, t, |t.candidates|)
  }

  ghost predicate GrabsAt(state: SearchState, t: Tick, i: nat, book: nat)
    requires t.Search? && WellFormed(t) && i < |t.candidates|
  {
    t.candidates[i] == book && Grabs(StateAfter(state, t, i), book, t.attempts[i], t.hasDownloader)
  }

  /** The tick hands a release for `book` to the download client. */
  ghost predicate GrabsIn(state: SearchState, t: Tick, book: nat)
    requires WellFormed(t)
  {
    t.Search? && GrabsBefore(state, t, |t.candidates|, book)
  }

  ghost predicate GrabsBefore(state: SearchState, t: Tick, n: nat, book: nat)
    requires t.Search? && WellFormed(t) && n <= |t.candidates|
  {
    exists i :: 0 <= i < n && GrabsAt(state, t, i, book)
  }

  lemma GrabsNothing(state: SearchState, t: Tick)
    requires WellFormed(t)
    ensures t.Search? ==> forall book :: !GrabsBefore(state, t, 0, book)
  {
  }

  lemma GrabsOneMore(state: SearchState, t: Tick, n: nat, book: nat)
    requires t.Search? && WellFormed(t) && n < |t.candidates|
    ensures GrabsBefore(state, t, n + 1, book) <==> GrabsBefore(state, t, n, book) || GrabsAt(state, t, n, book)
  {
  }

  // ---------- what a tick records, on its inputs alone ----------

  predicate Marked(state: SearchState, book: nat) {
    book in state && state[book] == Grabbed
  }

  /** The tick's search found a release for `book`, and the download client took it. */
  ghost predicate AcceptedIn(t: Tick, book: nat)
    requires WellFormed(t)
  {
    t.Search? && t.hasDownloader
    && exists i :: 0 <= i < |t.candidates| && t.candidates[i] == book && t.attempts[i] == Found(GrabAccepted)
  }

  /** Searched without getting a release to the client, and without an exception. */
  predicate ComesToNothing(attempt: Attempt, hasDownloader: bool) {
    || attempt == NothingFits
    || (attempt.Found? && (!hasDownloader || attempt.grab.GrabRejected?))
  }

  predicate Raises(attempt: Attempt, hasDownloader: bool) {
    attempt == SearchFailed || (attempt.Found? && hasDownloader && attempt.grab.GrabRaised?)
  }

  /** Candidate `i` keeps its entry until its turn, and has its final one from then on. */
  lemma {:induction false} EntryAt(state: SearchState, t: Tick, n: nat, i: nat)
    requires t.Search? && WellFormed(t) && n <= |t.candidates| && i < |t.candidates|
    ensures var s, book := StateAfter(state, t, n), t.candidates[i];
      if Marked(state, book) || n <= i || Raises(t.attempts[i], t.hasDownloader) then
        (book in s <==> book in state) && (book in s ==> s[book] == state[book])
      else book in s && s[book] == if ComesToNothing(t.attempts[i], t.hasDownloader) then NoRelease else Grabbed
  {
    if n == 0 {
      assert t.candidates[i] in Books(t.candidates);
    } else {
      EntryAt(state, t, n - 1, i);
      assert i != n - 1 ==> t.candidates[i] != t.candidates[n - 1];
    }
  }

  /** Only candidates have an entry; whatever was stored for other books is gone. */
  lemma {:induction false} EntriesAreListed(state: SearchState, t: Tick, n: nat)
    requires t.Search? && WellFormed(t) && n <= |t.candidates|
    ensures forall book :: book in StateAfter(state, t, n) ==> book in t.candidates
  {
    if n > 0 {
      EntriesAreListed(state, t, n - 1);
    }
  }

  lemma AcceptedAt(t: Tick, i: nat)
    requires t.Search? && WellFormed(t) && i < |t.candidates|
    ensures AcceptedIn(t, t.candidates[i]) <==> t.hasDownloader && t.attempts[i] == Found(GrabAccepted)
    ensures AcceptedIn(t, t.candidates[i])
       <==> !Raises(t.attempts[i], t.hasDownloader) && !ComesToNothing(t.attempts[i], t.hasDownloader)
  {
    assert forall j :: 0 <= j < |t.candidates| && t.candidates[j] == t.candidates[i] ==> j == i;
  }

  /**
   After a searching tick a book is marked iff it was marked and is listed, or a release for it
   was accepted; it is recorded as without a release iff it is listed and unmarked and its search
   came to nothing, or raised and it was recorded so before.
   */
  lemma TickRecords(state: SearchState, t: Tick, book: nat)
    requires t.Search? && WellFormed(t)
    ensures var s := TickState(state, t);
      && (Marked(s, book) <==> (Marked(state, book) && book in t.candidates) || AcceptedIn(t, book))
      && (book in s && s[book] == NoRelease <==>
        exists i :: 0 <= i < |t.candidates| && t.candidates[i] == book && !Marked(state, book)
          && (ComesToNothing(t.attempts[i], t.hasDownloader)
              || (Raises(t.attempts[i], t.hasDownloader) && book in state)))
  {
    EntriesAreListed(state, t, |t.candidates|);
    hide StateAfter;
    if book in t.candidates {
      var i :| 0 <= i < |t.candidates| && t.candidates[i] == book;
      EntryAt(state, t, |t.candidates|, i);
      AcceptedAt(t, i);
      assert forall j :: 0 <= j < |t.candidates| && t.candidates[j] == book ==> j == i;
    }
  }

  /** A grab is made exactly for the unmarked books with an accepted release. */
  lemma TickGrabs(state: SearchState, t: Tick, book: nat)
    requires WellFormed(t)
    ensures GrabsIn(state, t, book) <==> AcceptedIn(t, book) && !Marked(state, book)
  {
    if t.Search? {
      forall i | 0 <= i < |t.candidates| && t.candidates[i] == book
        ensures GrabsAt(state, t, i, book)
           <==> !Marked(state, book) && t.hasDownloader && t.attempts[i] == Found(GrabAccepted)
      {
        EntryAt(state, t, i, i);
      }
    }
  }

  /** What becomes of candidate `i`, by the table at the start of the tick. */
  datatype Fate = Skipped | Error | Nothing | Taken

  function FateOf(state: SearchState, t: Tick, i: nat): Fate
    requires t.Search? && WellFormed(t) && i < |t.candidates|
  {
    if Marked(state, t.candidates[i]) then Skipped
    else if Raises(t.attempts[i], t.hasDownloader) then Error
    else if ComesToNothing(t.attempts[i], t.hasDownloader) then Nothing
    else Taken
  }

  /** How many of the first `n` candidates meet with this fate. */
  function Met(state: SearchState, t: Tick, n: nat, fate: Fate): nat
    requires t.Search? && WellFormed(t) && n <= |t.candidates|
  {
    if n == 0 then 0 else Met(state, t, n - 1, fate) + if FateOf(state, t, n - 1) == fate then 1 else 0
  }

  lemma CountByFate(state: SearchState, t: Tick, n: nat)
    requires t.Search? && WellFormed(t) && n < |t.candidates|
    ensures var c, fate := CountAfter(state, t, n), FateOf(state, t, n);
      CountAfter(state, t, n + 1) == Counters(
        c.grabbed + if fate == Taken then 1 else 0, c.noRelease + if fate == Nothing then 1 else 0,
        c.skipped + if fate == Skipped then 1 else 0, c.errors + if fate == Error then 1 else 0)
  {
    EntryAt(state, t, n, n);
    hide WellFormed, StateAfter;
  }

  /** Each counter is the number of candidates that met with its fate. */
  lemma {:induction false} CountersTell(state: SearchState, t: Tick, n: nat)
    requires t.Search? && WellFormed(t) && n <= |t.candidates|
    ensures CountAfter(state, t, n)
         == Counters(Met(state, t, n, Taken), Met(state, t, n, Nothing), Met(state, t, n, Skipped), Met(state, t, n, Error))
  {
    hide FateOf, WellFormed, StateAfter;
    if n > 0 {
      CountersTell(state, t, n - 1);
      CountByFate(state, t, n - 1);
      hide CountAfter;
    }
  }

  // ---------- the scheduler ----------

  class WantedSearchScheduler {
    var running: bool
    var state: SearchState

    constructor ()
      ensures !running && state == map[]
    {
      running, state := false, map[];
    }

    /** `_process_all`; the sequence `grabs` lists the books handed to the download client. */
    method ProcessAll(t: Tick) returns (counters: Counters, grabs: seq<nat>)
      requires WellFormed(t)
      modifies this`state
      ensures state == TickState(old(state), t)
      ensures t.Search? ==> counters == CountAfter(old(state), t, |t.candidates|)
      ensures t.NoIndexer? ==> counters == Counters(0, 0, 0, 0)
      ensures forall book :: book in grabs <==> GrabsIn(old(state), t, book)
      ensures t.Search? ==> forall book ::
        (book in state && state[book].Grabbed?)
        <==> (book in old(state) && old(state)[book].Grabbed? && book in t.candidates) || book in grabs
      ensures t.NoIndexer? ==> state == old(state) && grabs == []
      ensures counters.grabbed == |grabs|
    {
      hide GrabsBefore;
      counters, grabs := Counters(0, 0, 0, 0), [];
      GrabsNothing(state, t);
      if t.NoIndexer? {
        return;
      }
      state := Prune(state, Books(t.candidates));
      for n := 0 to |t.candidates|
        invariant state == StateAfter(old(state), t, n)
        invariant counters == CountAfter(old(state), t, n)
        invariant forall book :: book in grabs <==> GrabsBefore(old(state), t, n, book)
        invariant counters.grabbed == |grabs|
      {
        var book := t.candidates[n];
        forall b
          ensures GrabsBefore(old(state), t, n + 1, b) <==> GrabsBefore(old(state), t, n, b) || GrabsAt(old(state), t, n, b)
        {
          GrabsOneMore(old(state), t, n, b);
        }
        ghost var before := grabs;
        if AlreadyGrabbed(state, book) {
          assert forall b :: !GrabsAt(old(state), t, n, b);
          counters := counters.(skipped := counters.skipped + 1);
          continue;
        }
        match t.attempts[n] {
          case SearchFailed =>
            counters := counters.(errors := counters.errors + 1);
          case NothingFits =>
            state := state[book := NoRelease];
            counters := counters.(noRelease := counters.noRelease + 1);
          case Found(grab) =>
            if !t.hasDownloader {
              state := state[book := NoRelease];
              counters := counters.(noRelease := counters.noRelease + 1);
            } else {
              match grab {
                case GrabRaised =>
                  counters := counters.(errors := counters.errors + 1);
                case GrabAccepted =>
                  state := state[book := Grabbed];
                  grabs := grabs + [book];
                  counters := counters.(grabbed := counters.grabbed + 1);
                case GrabRejected =>
                  state := state[book := NoRelease];
                  counters := counters.(noRelease := counters.noRelease + 1);
              }
            }
        }
        assert forall b :: b in grabs <==> b in before || GrabsAt(old(state), t, n, b);
      }
      forall book
        ensures Marked(state, book) <==> (Marked(old(state), book) && book in t.candidates) || AcceptedIn(t, book)
        ensures GrabsIn(old(state), t, book) <==> AcceptedIn(t, book) && !Marked(old(state), book)
        ensures AcceptedIn(t, book) ==> book in t.candidates
      {
        TickRecords(old(state), t, book);
        TickGrabs(old(state), t, book);
      }
    }

    /** Single flight: a tick that comes due while one is running is skipped. */
    method RunOnce(t: Tick) returns (ran: bool)
      requires WellFormed(t)
      modifies this
      ensures ran <==> !old(running)
      ensures running == old(running)
      ensures state == if ran then TickState(old(state), t) else old(state)
    {
      if running {
        return false;
      }
      running := true;
      var counters, grabs := ProcessAll(t);
      running := false;
      ran := true;
    }
  }

  // ---------- one tick ----------

  /** The four counters of a tick add up to the number of candidates. */
  lemma {:induction false} CountersAddUp(state: SearchState, t: Tick, n: nat)
    requires t.Search? && WellFormed(t) && n <= |t.candidates|
    ensures var c := CountAfter(state, t, n); c.grabbed + c.noRelease + c.skipped + c.errors == n
  {
    if n > 0 {
      CountersAddUp(state, t, n - 1);
    }
  }

  /** Stored state covers only current candidates. */
  lemma {:induction false} StateCovered(state: SearchState, t: Tick, n: nat)
    requires t.Search? && WellFormed(t) && n <= |t.candidates|
    ensures forall book :: book in StateAfter(state, t, n) ==> book in Books(t.candidates)
  {
    if n > 0 {
      StateCovered(state, t, n - 1);
      assert t.candidates[n - 1] in Books(t.candidates);
    }
  }

  /** A step for one candidate leaves the others alone and never forgets a grab. */
  lemma {:induction false} GrabRemembered(state: SearchState, t: Tick, i: nat, n: nat, book: nat)
    requires t.Search? && WellFormed(t) && i <= n <= |t.candidates|
    requires AlreadyGrabbed(StateAfter(state, t, i), book)
    ensures AlreadyGrabbed(StateAfter(state, t, n), book)
    decreases n - i
  {
    if i < n {
      GrabRemembered(state, t, i, n - 1, book);
    }
  }

  /** A book grabbed in a tick is marked at its end. */
  lemma GrabMarks(state: SearchState, t: Tick, book: nat)
    requires WellFormed(t) && GrabsIn(state, t, book)
    ensures AlreadyGrabbed(TickState(state, t), book)
  {
    var i :| 0 <= i < |t.candidates| && GrabsAt(state, t, i, book);
    GrabRemembered(state, t, i + 1, |t.candidates|, book);
  }

  /** A tick that lists an already grabbed book neither grabs it again nor forgets it. */
  lemma MarkProtects(state: SearchState, t: Tick, book: nat)
    requires WellFormed(t) && AlreadyGrabbed(state, book)
    requires t.Search? ==> book in t.candidates
    ensures !GrabsIn(state, t, book) && AlreadyGrabbed(TickState(state, t), book)
  {
    if t.Search? {
      assert book in Books(t.candidates);
      assert AlreadyGrabbed(StateAfter(state, t, 0), book);
      forall n | 0 <= n <= |t.candidates|
        ensures AlreadyGrabbed(StateAfter(state, t, n), book)
      {
        GrabRemembered(state, t, 0, n, book);
      }
    }
  }

  // ---------- any sequence of ticks ----------

  function RunTicks(state: SearchState, ticks: seq<Tick>): SearchState
    requires forall i :: 0 <= i < |ticks| ==> WellFormed(ticks[i])
  {
    if ticks == [] then state
    else TickState(RunTicks(state, ticks[..|ticks| - 1]), ticks[|ticks| - 1])
  }

  /** While every searching tick lists the book, it stays marked. */
  lemma {:induction false} MarkPersists(state: SearchState, ticks: seq<Tick>, book: nat)
    requires forall i :: 0 <= i < |ticks| ==> WellFormed(ticks[i]) && (ticks[i].Search? ==> book in ticks[i].candidates)
    requires AlreadyGrabbed(state, book)
    ensures AlreadyGrabbed(RunTicks(state, ticks), book)
  {
    if ticks != [] {
      MarkPersists(state, ticks[..|ticks| - 1], book);
      MarkProtects(RunTicks(state, ticks[..|ticks| - 1]), ticks[|ticks| - 1], book);
    }
  }

  lemma {:induction false} RunSplit(state: SearchState, ticks: seq<Tick>, i: nat, j: nat)
    requires i <= j <= |ticks| && forall k :: 0 <= k < |ticks| ==> WellFormed(ticks[k])
    ensures RunTicks(state, ticks[..j]) == RunTicks(RunTicks(state, ticks[..i]), ticks[i..j])
    decreases j - i
  {
    if i == j {
      assert ticks[i..j] == [];
    } else {
      RunSplit(state, ticks, i, j - 1);
      assert ticks[..j][..j - 1] == ticks[..j - 1];
      assert ticks[i..j][..j - i - 1] == ticks[i..j - 1];
    }
  }

  /**
   Whatever the searches and grabs return, two scheduler grabs of one book are always
   separated by a tick that searched and did not list the book.
   */
  lemma GrabsSeparated(state: SearchState, ticks: seq<Tick>, i: nat, j: nat, book: nat)
    requires i < j < |ticks| && forall k :: 0 <= k < |ticks| ==> WellFormed(ticks[k])
    requires GrabsIn(RunTicks(state, ticks[..i]), ticks[i], book)
    requires GrabsIn(RunTicks(state, ticks[..j]), ticks[j], book)
    ensures exists k :: i < k < j && ticks[k].Search? && book !in ticks[k].candidates
  {
    if forall k :: i < k < j && ticks[k].Search? ==> book in ticks[k].candidates {
      var between := ticks[i + 1..j];
      GrabMarks(RunTicks(state, ticks[..i]), ticks[i], book);
      assert ticks[..i + 1][..i] == ticks[..i];
      assert AlreadyGrabbed(RunTicks(state, ticks[..i + 1]), book);
      MarkPersists(RunTicks(state, ticks[..i + 1]), between, book);
      RunSplit(state, ticks, i + 1, j);
      var now := RunTicks(state, ticks[..j]);
      MarkProtects(now, ticks[j], book);
    }
  }

  /**
   A book is marked after a run exactly when it was marked at the start or a release for it was
   accepted in some tick, and every searching tick since then lists it.
   */
  lemma {:induction false} MarkedIff(state: SearchState, ticks: seq<Tick>, book: nat)
    requires forall i :: 0 <= i < |ticks| ==> WellFormed(ticks[i])
    ensures Marked(RunTicks(state, ticks), book)
       <==> exists k: nat :: MarkedSince(state, ticks, book, k)
  {
    if ticks == [] {
      assert MarkedSince(state, ticks, book, 0) <==> Marked(state, book);
    } else {
      var n := |ticks| - 1;
      var before := RunTicks(state, ticks[..n]);
      MarkedIff(state, ticks[..n], book);
      if ticks[n].Search? {
        TickRecords(before, ticks[n], book);
      }
      if k: nat :| MarkedSince(state, ticks[..n], book, k) {
        assert !ticks[n].Search? || book in ticks[n].candidates ==> MarkedSince(state, ticks, book, k);
      }
      if k: nat :| MarkedSince(state, ticks, book, k) {
        assert k <= n ==> MarkedSince(state, ticks[..n], book, k);
      }
      assert AcceptedIn(ticks[n], book) ==> MarkedSince(state, ticks, book, n + 1);
    }
  }

  /** Marked at the start (`k` is 0) or by tick `k - 1`, and listed by every searching tick from `k` on. */
  ghost predicate MarkedSince(state: SearchState, ticks: seq<Tick>, book: nat, k: nat)
    requires forall i :: 0 <= i < |ticks| ==> WellFormed(ticks[i])
  {
    && k <= |ticks|
    && (if k == 0 then Marked(state, book) else AcceptedIn(ticks[k - 1], book))
    && forall m :: k <= m < |ticks| && ticks[m].Search? ==> book in ticks[m].candidates
  }

  /** A mark comes from a grab: it was there at the start, or a tick of the run grabbed the book. */
  lemma {:induction false} MarkComesFromGrab(state: SearchState, ticks: seq<Tick>, book: nat)
    requires forall i :: 0 <= i < |ticks| ==> WellFormed(ticks[i])
    requires Marked(RunTicks(state, ticks), book) && !Marked(state, book)
    ensures exists k :: 0 <= k < |ticks| && AcceptedIn(ticks[k], book) && GrabsIn(RunTicks(state, ticks[..k]), ticks[k], book)
  {
    var n := |ticks| - 1;
    var before := RunTicks(state, ticks[..n]);
    if Marked(before, book) {
      MarkComesFromGrab(state, ticks[..n], book);
      var k :| 0 <= k < n && AcceptedIn(ticks[..n][k], book) && GrabsIn(RunTicks(state, ticks[..n][..k]), ticks[..n][k], book);
      assert ticks[..n][..k] == ticks[..k];
    } else {
      TickRecords(before, ticks[n], book);
      TickGrabs(before, ticks[n], book);
    }
  }
}
