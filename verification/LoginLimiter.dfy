/**
 The sliding-window login limiter (app/auth.py) and its use by the login route
 (app/api/routes_auth.py): pruned deques shared through a dictionary, against the plain list
 of all failures since the last reset.
 */
module LoginLimiter {

  // ---------- the full history ----------

  predicate Sorted(h: seq<real>) {
    forall i, j :: 0 <= i < j < |h| ==> h[i] <= h[j]
  }

  /** How many entries are at or before `t`. */
  function UpTo(h: seq<real>, t: real): (n: nat)
    requires Sorted(h)
    ensures n <= |h| && forall k :: 0 <= k < |h| ==> (h[k] <= t <==> k < n)
  {
    if h == [] then 0
    else if h[|h| - 1] <= t then |h|
    else UpTo(h[..|h| - 1], t)
  }

  /** The failures inside `(from, to]`. */
  function CountBetween(h: seq<real>, from: real, to: real): int
    requires Sorted(h)
  {
    UpTo(h, to) - UpTo(h, from)
  }

  /** The failures a check at time `now` still counts: those later than the window's start. */
  function Counted(h: seq<real>, window: nat, now: real): seq<real>
    requires Sorted(h)
  {
    h[UpTo(h, now - window as real)..]
  }

  predicate AllowedAt(h: seq<real>, window: nat, max: nat, now: real)
    requires Sorted(h)
  {
    |Counted(h, window, now)| < max
  }

  /** A check allows when there are fewer failures, or the one `max` places from the end has expired. */
  lemma AllowedIff(h: seq<real>, window: nat, max: nat, now: real)
    requires Sorted(h) && max >= 1
    ensures AllowedAt(h, window, max, now) <==> |h| < max || h[|h| - max] <= now - window as real
  {
  }

  function Ceil(x: real): (n: int)
    ensures n as real >= x && (n - 1) as real < x
  {
    -((-x).Floor)
  }

  function AtLeastOne(n: int): int {
    if n < 1 then 1 else n
  }

  /** The whole seconds to wait until entry `e` has left the window. */
  function SecondsUntilGone(e: real, window: nat, now: real): int {
    AtLeastOne(Ceil(e + window as real - now))
  }

  /** Would a check `n` seconds from now allow, with no further failure? */
  predicate AllowedAfter(h: seq<real>, window: nat, max: nat, now: real, n: int)
    requires Sorted(h)
  {
    AllowedAt(h, window, max, now + n as real)
  }

  /**
   When blocked with `m` counted failures, waiting `n >= 1` whole seconds (without further
   failures) is enough exactly when the entry at position `m - max` has expired by then.
   */
  lemma RetryMeans(h: seq<real>, window: nat, max: nat, now: real, n: int)
    requires Sorted(h) && max >= 1 && n >= 1 && !AllowedAt(h, window, max, now)
    ensures var counted := Counted(h, window, now);
      AllowedAfter(h, window, max, now, n) <==> n >= SecondsUntilGone(counted[|counted| - max], window, now)
  {
    var counted := Counted(h, window, now);
    var e := counted[|counted| - max];
    assert e == h[|h| - max];
    assert AllowedAt(h, window, max, now + n as real) <==> e <= now + n as real - window as real;
    assert n as real >= e + window as real - now <==> n >= Ceil(e + window as real - now);
  }

  // ---------- no window ever holds more than the maximum ----------

  /** Any `max + 1` successive failures span at least the window. */
  predicate Spread(h: seq<real>, window: nat, max: nat) {
    forall i :: max <= i < |h| ==> h[i - max] <= h[i] - window as real
  }

  lemma SpreadBoundsWindows(h: seq<real>, window: nat, max: nat, to: real)
    requires Sorted(h) && Spread(h, window, max)
    ensures CountBetween(h, to - window as real, to) <= max
    ensures forall i :: max <= i < |h| && h[i] <= to ==> h[i - max] <= to - window as real
  {
    var a, b := UpTo(h, to - window as real), UpTo(h, to);
    assert max <= b - 1 ==> h[b - 1 - max] <= h[b - 1] - window as real;
  }

  /** A failure recorded after a check that allowed (the clock may have advanced in between). */
  lemma RecordKeepsSpread(h: seq<real>, window: nat, max: nat, now: real, later: real)
    requires Sorted(h) && Spread(h, window, max) && AllowedAt(h, window, max, now) && now <= later
    ensures Spread(h + [later], window, max)
  {
    var t := h + [later];
    forall i | max <= i < |t|
      ensures t[i - max] <= t[i] - window as real
    {
      if i == |h| && max > 0 {
        assert h[i - max] <= now - window as real;
      }
    }
  }

  // ---------- the limiter ----------

  /** A `deque[float]`. */
  class AttemptLog {
    var times: seq<real>

    constructor ()
      ensures times == []
    {
      times := [];
    }
  }

  /** A deque holds the history without entries that had left the window by `now`. */
  ghost predicate Represents(stored: seq<real>, full: seq<real>, window: nat, now: real) {
    && Sorted(full) && (forall k :: 0 <= k < |full| ==> full[k] <= now)
    && |stored| <= |full| && stored == full[|full| - |stored|..]
    && forall k :: 0 <= k < |full| - |stored| ==> full[k] <= now - window as real
  }

  lemma RepresentsLater(stored: seq<real>, full: seq<real>, window: nat, earlier: real, now: real)
    requires Represents(stored, full, window, earlier) && earlier <= now
    ensures Represents(stored, full, window, now)
  {
  }

  lemma RepresentsPopped(stored: seq<real>, full: seq<real>, window: nat, now: real)
    requires Represents(stored, full, window, now) && stored != [] && stored[0] <= now - window as real
    ensures Represents(stored[1..], full, window, now)
  {
  }

  lemma RepresentsPruned(stored: seq<real>, full: seq<real>, window: nat, now: real)
    requires Represents(stored, full, window, now) && (stored != [] ==> stored[0] > now - window as real)
    ensures Sorted(full) && stored == Counted(full, window, now)
  {
    var n := UpTo(full, now - window as real);
    var d := |full| - |stored|;
    assert stored != [] ==> stored[0] == full[d];
    assert d > 0 ==> full[d - 1] <= now - window as real;
    assert n == d;
  }

  lemma RepresentsRecorded(stored: seq<real>, full: seq<real>, window: nat, now: real)
    requires Represents(stored, full, window, now)
    ensures Represents(stored + [now], full + [now], window, now)
  {
  }

  lemma RepresentsNothing(window: nat, now: real)
    ensures Represents([], [], window, now)
  {
  }

  /** The failures of one client since its last reset. */
  function FailuresOf(history: map<string, seq<real>>, ip: string): seq<real> {
    if ip in history then history[ip] else []
  }

  class LoginRateLimiter {
    const maxAttempts: nat
    const windowSeconds: nat
    var failures: map<string, AttemptLog>
    /** All failures by client since its last reset, and the latest time seen. */
    ghost var history: map<string, seq<real>>
    ghost var clock: real

    ghost function History(ip: string): seq<real>
      reads this
    {
      FailuresOf(history, ip)
    }

    ghost function Stored(ip: string): seq<real>
      reads this, failures.Values
    {
      if ip in failures then failures[ip].times else []
    }

    ghost predicate Valid()
      reads this, failures.Values
    {
      && maxAttempts >= 1
      && (forall a, b :: a in failures && b in failures && a != b ==> failures[a] != failures[b])
      && (forall ip :: Represents(Stored(ip), History(ip), windowSeconds, clock))
    }

    constructor (maxAttempts: nat, windowSeconds: nat)
      requires maxAttempts >= 1
      ensures Valid() && forall ip :: History(ip) == []
      ensures this.maxAttempts == maxAttempts && this.windowSeconds == windowSeconds
    {
      this.maxAttempts, this.windowSeconds := maxAttempts, windowSeconds;
      failures, history, clock := map[], map[], 0.0;
    }

    /** Drops expired entries; the returned deque is no longer in the dictionary when empty. */
    method Prune(ip: string, now: real) returns (attempts: AttemptLog)
      requires Valid() && clock <= now
      modifies this, failures.Values
      ensures Valid() && clock == now && history == old(history)
      ensures Sorted(History(ip)) && attempts.times == Counted(History(ip), windowSeconds, now)
      ensures Represents(attempts.times, History(ip), windowSeconds, now)
      ensures fresh(failures.Values - old(failures.Values)) && (fresh(attempts) || attempts in old(failures.Values))
      ensures if attempts.times == [] then ip !in failures else ip in failures && failures[ip] == attempts
      ensures forall other :: other in failures && other != ip ==> failures[other] != attempts
    {
      hide Represents, Counted, Sorted;
      ghost var full := History(ip);
      assert Represents(Stored(ip), full, windowSeconds, clock);
      if ip in failures {
        attempts := failures[ip];
      } else {
        attempts := new AttemptLog();
        failures := failures[ip := attempts];
      }
      RepresentsLater(attempts.times, full, windowSeconds, clock, now);
      DropExpired(attempts, now - windowSeconds as real, full, now);
      RepresentsPruned(attempts.times, full, windowSeconds, now);
      if attempts.times == [] {
        failures := failures - {ip};
      }
      clock := now;
      forall ip'
        ensures Represents(Stored(ip'), History(ip'), windowSeconds, clock)
      {
        if ip' != ip {
          assert Stored(ip') == old(Stored(ip'));
          RepresentsLater(Stored(ip'), History(ip'), windowSeconds, old(clock), now);
        }
      }
    }

    /** Expired entries leave at the front of the deque. */
    method DropExpired(attempts: AttemptLog, cutoff: real, ghost full: seq<real>, ghost now: real)
      requires cutoff == now - windowSeconds as real && Represents(attempts.times, full, windowSeconds, now)
      modifies attempts
      ensures Represents(attempts.times, full, windowSeconds, now)
      ensures attempts.times != [] ==> attempts.times[0] > cutoff
    {
      hide Represents;
      while attempts.times != [] && attempts.times[0] <= cutoff
        invariant Represents(attempts.times, full, windowSeconds, now)
        decreases |attempts.times|
      {
        RepresentsPopped(attempts.times, full, windowSeconds, now);
        attempts.times := attempts.times[1..];
      }
    }

    /** `(allowed, retry_after)` at time `now`. */
    method Check(ip: string, now: real) returns (allowed: bool, retryAfter: int)
      requires Valid() && clock <= now
      modifies this, failures.Values
      ensures Valid() && clock == now && history == old(history)
      ensures fresh(failures.Values - old(failures.Values))
      ensures Sorted(History(ip))
      ensures allowed <==> AllowedAt(History(ip), windowSeconds, maxAttempts, now)
      ensures var h := History(ip);
        allowed <==> |h| < maxAttempts || h[|h| - maxAttempts] <= now - windowSeconds as real
      ensures if allowed then retryAfter == 0
              else retryAfter == SecondsUntilGone(Counted(History(ip), windowSeconds, now)[0], windowSeconds, now)
    {
      hide Represents, Counted, Sorted, Ceil;
      var attempts := Prune(ip, now);
      AllowedIff(History(ip), windowSeconds, maxAttempts, now);
      if |attempts.times| < maxAttempts {
        return true, 0;
      }
      var wait := Ceil(attempts.times[0] + windowSeconds as real - now);
      return false, if wait < 1 then 1 else wait;
    }

    method RecordFailure(ip: string, now: real)
      requires Valid() && clock <= now
      modifies this, failures.Values
      ensures Valid() && clock == now
      ensures fresh(failures.Values - old(failures.Values))
      ensures history == old(history)[ip := old(History(ip)) + [now]]
    {
      hide Represents, Counted, Sorted;
      var attempts := Prune(ip, now);
      label Pruned:
      RepresentsRecorded(attempts.times, History(ip), windowSeconds, now);
      attempts.times := attempts.times + [now];
      failures := failures[ip := attempts];
      history := history[ip := History(ip) + [now]];
      forall ip'
        ensures Represents(Stored(ip'), History(ip'), windowSeconds, clock)
      {
        if ip' != ip {
          assert Stored(ip') == old@Pruned(Stored(ip')) && History(ip') == old@Pruned(History(ip'));
        }
      }
    }

    method Reset(ip: string)
      requires Valid()
      modifies this
      ensures Valid() && clock == old(clock)
      ensures failures.Values <= old(failures.Values)
      ensures history == old(history) - {ip}
    {
      hide Represents;
      failures := failures - {ip};
      history := history - {ip};
      forall ip'
        ensures Represents(Stored(ip'), History(ip'), windowSeconds, clock)
      {
        if ip' != ip {
          assert Stored(ip') == old(Stored(ip')) && History(ip') == old(History(ip'));
        } else {
          RepresentsNothing(windowSeconds, clock);
        }
      }
    }
  }

  // ---------- the login route ----------

  datatype LoginOutcome = Accepted | Rejected | TooMany(retryAfter: int)

  /** No client's failures are denser than the limit, in any window of its history. */
  ghost predicate Guarded(history: map<string, seq<real>>, window: nat, max: nat) {
    forall ip :: Spread(FailuresOf(history, ip), window, max)
  }

  lemma GuardedUpdates(history: map<string, seq<real>>, window: nat, max: nat, ip: string, now: real, later: real)
    requires now <= later
    requires Guarded(history, window, max) && Sorted(FailuresOf(history, ip))
    requires AllowedAt(FailuresOf(history, ip), window, max, now)
    ensures Guarded(history - {ip}, window, max)
    ensures Guarded(history[ip := FailuresOf(history, ip) + [later]], window, max)
  {
    RecordKeepsSpread(FailuresOf(history, ip), window, max, now, later);
    hide AllowedAt;
    var recorded := history[ip := FailuresOf(history, ip) + [later]];
    forall other
      ensures Spread(FailuresOf(recorded, other), window, max) && Spread(FailuresOf(history - {ip}, other), window, max)
    {
      assert Spread(FailuresOf(history, other), window, max);
    }
  }

  lemma HistorySorted(limiter: LoginRateLimiter, ip: string)
    requires limiter.Valid()
    ensures Sorted(limiter.History(ip))
    ensures forall k :: 0 <= k < |limiter.History(ip)| ==> limiter.History(ip)[k] <= limiter.clock
  {
    assert Represents(limiter.Stored(ip), limiter.History(ip), limiter.windowSeconds, limiter.clock);
  }

  /**
   Check at time `now`, then record a failure at time `later` or reset on success. Under this use every window of every
   client's history holds at most the maximum (`SpreadBoundsWindows`), and a blocked client is
   told the least whole number of seconds, at least 1, after which a check allows again.
   */
  method Login(limiter: LoginRateLimiter, ip: string, now: real, later: real, credentialsOk: bool)
    returns (outcome: LoginOutcome)
    requires limiter.Valid() && limiter.clock <= now <= later
    requires Guarded(limiter.history, limiter.windowSeconds, limiter.maxAttempts)
    modifies limiter, limiter.failures.Values
    ensures limiter.Valid() && limiter.clock == if outcome.Rejected? then later else now
    ensures Guarded(limiter.history, limiter.windowSeconds, limiter.maxAttempts)
    ensures Sorted(old(limiter.History(ip)))
    ensures outcome.TooMany? <==>
      !AllowedAt(old(limiter.History(ip)), limiter.windowSeconds, limiter.maxAttempts, now)
    ensures outcome.Accepted? ==> credentialsOk && limiter.history == old(limiter.history) - {ip}
    ensures outcome.Rejected? ==>
      !credentialsOk && limiter.history == old(limiter.history)[ip := old(limiter.History(ip)) + [later]]
    ensures outcome.TooMany? ==> limiter.history == old(limiter.history) && outcome.retryAfter >= 1
    ensures outcome.TooMany? ==> forall n :: n >= 1 ==>
      (AllowedAfter(old(limiter.History(ip)), limiter.windowSeconds, limiter.maxAttempts, now, n)
       <==> n >= outcome.retryAfter)
    ensures var h, max, window := old(limiter.History(ip)), limiter.maxAttempts, limiter.windowSeconds as real;
      outcome.TooMany? <==> |h| >= max && h[|h| - max] > now - window
    ensures var h, max, window := old(limiter.History(ip)), limiter.maxAttempts, limiter.windowSeconds as real;
      outcome.TooMany? ==>
        && h[|h| - max] <= now + outcome.retryAfter as real - window
        && (outcome.retryAfter > 1 ==> h[|h| - max] > now + (outcome.retryAfter - 1) as real - window)
  {
    ghost var full := limiter.History(ip);
    var window, max := limiter.windowSeconds, limiter.maxAttempts;
    HistorySorted(limiter, ip);
    assert Spread(full, window, max);
    hide Represents, Sorted, Spread, Counted, SecondsUntilGone, AllowedAt, Guarded, FailuresOf, AllowedAfter;
    AllowedIff(full, window, max, now);
    var allowed, retryAfter := limiter.Check(ip, now);
    assert limiter.history == old(limiter.history);
    if !allowed {
      RetryLeast(full, window, max, now);
      AllowedLater(full, window, max, now, retryAfter);
      AllowedLater(full, window, max, now, retryAfter - 1);
      return TooMany(retryAfter);
    }
    GuardedUpdates(limiter.history, window, max, ip, now, later);
    if !credentialsOk {
      limiter.RecordFailure(ip, later);
      return Rejected;
    }
    limiter.Reset(ip);
    return Accepted;
  }

  lemma AllowedLater(h: seq<real>, window: nat, max: nat, now: real, n: int)
    requires Sorted(h) && max >= 1 && |h| >= max
    ensures AllowedAfter(h, window, max, now, n) <==> h[|h| - max] <= now + n as real - window as real
  {
    AllowedIff(h, window, max, now + n as real);
    hide AllowedAt;
  }

  /** In a guarded history, a blocking window holds exactly the maximum. */
  lemma RetryLeast(h: seq<real>, window: nat, max: nat, now: real)
    requires Sorted(h) && Spread(h, window, max) && max >= 1 && (forall k :: 0 <= k < |h| ==> h[k] <= now)
    requires !AllowedAt(h, window, max, now)
    ensures |Counted(h, window, now)| == max
    ensures forall n :: n >= 1 ==>
      (AllowedAfter(h, window, max, now, n) <==> n >= SecondsUntilGone(Counted(h, window, now)[0], window, now))
    ensures SecondsUntilGone(Counted(h, window, now)[0], window, now) >= 1
  {
    ExactlyMax(h, window, max, now);
    hide AllowedAfter, Counted, SecondsUntilGone, Spread, Sorted;
    forall n | n >= 1
      ensures AllowedAfter(h, window, max, now, n) <==> n >= SecondsUntilGone(Counted(h, window, now)[0], window, now)
    {
      RetryMeans(h, window, max, now, n);
    }
  }

  /** Guarded histories never count more than the maximum. */
  lemma ExactlyMax(h: seq<real>, window: nat, max: nat, now: real)
    requires Sorted(h) && Spread(h, window, max) && (forall k :: 0 <= k < |h| ==> h[k] <= now)
    ensures |Counted(h, window, now)| <= max
  {
    SpreadBoundsWindows(h, window, max, now);
    assert UpTo(h, now) == |h|;
  }

  /**
   Without the route's check first, more than `max` failures can be counted, and then the
   oldest entry leaving is not enough: two failures at 0.0 and 5.0 with a limit of one are
   told to retry after 5 seconds, when a check still refuses. The login route, the only caller
   that records failures, always checks first: this is a property of the class alone.
   */
  lemma RetryTooShortWhenUnchecked()
    ensures var h := [0.0, 5.0];
      && Sorted(h) && !AllowedAt(h, 10, 1, 5.0) && Counted(h, 10, 5.0) == h
      && SecondsUntilGone(Counted(h, 10, 5.0)[0], 10, 5.0) == 5
      && !AllowedAt(h, 10, 1, 5.0 + 5 as real)
  {
    var h := [0.0, 5.0];
    assert UpTo(h, -5.0) == 0 by {
      assert !(h[0] <= -5.0);
    }
    assert UpTo(h, 0.0) == 1 by {
      assert h[0] <= 0.0 && !(h[1] <= 0.0);
    }
    assert Ceil(5.0) == 5;
  }
}
