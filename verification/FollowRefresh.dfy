/** A refresh in closed form: what it leaves behind, and that repeating it changes nothing. */
module FollowRefresh {
  import opened Options
  import opened Follows
  import opened FollowRuns

  // ---------- a step for every row ----------

  /** Outside restore and deletion a row keeps its link, stays excluded, stays added while linked. */
  predicate RowStep(c: Candidate, d: Candidate) {
    && SameRow(c, d)
    && (c.bookId.Some? ==> c.status.Added? ==> d.bookId == c.bookId && d.status.Added?)
    && (c.status.Excluded? ==> d.status.Excluded?)
    && (c.status.Added? ==> d.status.Added? || c.bookId.None?)
  }

  ghost predicate RowSteps(s: Store, t: Store) {
    |s.candidates| <= |t.candidates| && forall i :: 0 <= i < |s.candidates| ==> RowStep(s.candidates[i], t.candidates[i])
  }

  /** What every follow operation but restore keeps, step by step. */
  ghost predicate Kept(s: Store, t: Store) {
    && Consistent(t) && Grown(s, t) && s.nextCandidate <= t.nextCandidate
    && RowSteps(s, t) && OwnersKept(s, t)
  }

  lemma KeptTransitive(s: Store, t: Store, u: Store)
    requires Kept(s, t) && Kept(t, u)
    ensures Kept(s, u)
  {
    OwnersKeptTransitive(s, t, u);
    hide OwnersKept, Consistent;
    forall i | 0 <= i < |s.candidates|
      ensures RowStep(s.candidates[i], u.candidates[i])
    {
      assert RowStep(s.candidates[i], t.candidates[i]) && RowStep(t.candidates[i], u.candidates[i]);
    }
  }

  lemma ReconcileKept(s: Store, scope: Option<nat>, today: int)
    requires Consistent(s)
    ensures Kept(s, Reconciled(s, scope, today))
  {
    ReconcileKeeps(s, scope, today);
    NoChangeKeepsOwners(s, Reconciled(s, scope, today));
    hide OwnersKept, Consistent, Owned;
  }

  lemma CreateKept(s: Store, i: nat, locale: string)
    requires Consistent(s) && i < |s.candidates| && Owned(s, s.candidates[i]).None?
    requires s.candidates[i].status.Pending()
    ensures Kept(s, CreateBook(s, i, locale))
  {
    CreateKeeps(s, i, locale);
    CreateKeepsOwners(s, i, locale);
    assert s.candidates[i].bookId.None? by {
      assert Linked(s, s.candidates[i]);
    }
    hide OwnersKept, Consistent, Owned;
  }

  // ---------- materialising future candidates ----------

  /** A row of the first pass is unchanged or a future one turned into a book. */
  predicate MaterialRow(c: Candidate, d: Candidate, followId: nat) {
    d == c || (c.followId == followId && c.status.Future? && d.bookId.Some? && d == c.(status := Added, bookId := d.bookId))
  }

  ghost predicate FutureOwned(s: Store, followId: nat, k: nat)
    requires k <= |s.candidates|
  {
    forall i :: 0 <= i < k && s.candidates[i].followId == followId && s.candidates[i].status.Future? ==>
      Owned(s, s.candidates[i]).Some?
  }

  lemma KeptFutureOwned(s: Store, t: Store, followId: nat, k: nat)
    requires Grown(s, t) && k <= |s.candidates| == |t.candidates| && FutureOwned(s, followId, k)
    requires forall i :: 0 <= i < k ==> t.candidates[i] == s.candidates[i]
    ensures FutureOwned(t, followId, k)
  {
    hide Owned, OwnedBookId;
    forall i | 0 <= i < k && t.candidates[i].followId == followId && t.candidates[i].status.Future?
      ensures Owned(t, t.candidates[i]).Some?
    {
      OwnedPersists(s, t, t.candidates[i]);
    }
  }

  lemma OwnedPersists(s: Store, t: Store, c: Candidate)
    requires Grown(s, t) && Owned(s, c).Some?
    ensures Owned(t, c).Some?
  {
    OwnedStays(s, t, c.provider, c.providerBookId);
  }

  /** After materialising, every remaining future candidate of the follow is already owned. */
  lemma {:induction false} MaterializedMeans(s: Store, followId: nat, locale: string, k: nat)
    requires Consistent(s) && k <= |s.candidates|
    ensures var t := Materialized(s, followId, locale, k);
      && Kept(s, t) && t.nextCandidate == s.nextCandidate && t.follows == s.follows
      && (forall i :: 0 <= i < |s.candidates| ==> MaterialRow(s.candidates[i], t.candidates[i], followId))
      && (forall i :: k <= i < |s.candidates| ==> t.candidates[i] == s.candidates[i])
      && FutureOwned(t, followId, k)
  {
    hide OwnersKept, Consistent, Owned;
    if k == 0 {
      NoChangeKeepsOwners(s, s);
    } else {
      MaterializedMeans(s, followId, locale, k - 1);
      var before := Materialized(s, followId, locale, k - 1);
      if NeedsBook(before, k - 1, followId) {
        CreateKept(before, k - 1, locale);
        var t := CreateBook(before, k - 1, locale);
        KeptTransitive(s, before, t);
        KeptFutureOwned(before, t, followId, k - 1);
      }
    }
  }

  lemma {:induction false} MaterializedIdle(s: Store, followId: nat, locale: string, k: nat)
    requires k <= |s.candidates| && FutureOwned(s, followId, |s.candidates|)
    ensures Materialized(s, followId, locale, k) == s
  {
    hide Owned;
    if k > 0 {
      MaterializedIdle(s, followId, locale, k - 1);
    }
  }

  // ---------- upserting hits ----------

  /** The metadata of the last hit for a key. */
  function LastMeta(hits: seq<Hit>, provider: string, providerBookId: string): Option<Meta> {
    if hits == [] then None
    else
      var h := hits[|hits| - 1];
      if HitId(h) != "" && h.provider == provider && HitId(h) == providerBookId then Some(h.meta)
      else LastMeta(hits[..|hits| - 1], provider, providerBookId)
  }

  /** A row after all the hits: the last one for its key decides. */
  function Settle(c: Candidate, followId: nat, hits: seq<Hit>, today: int): Candidate {
    var last := LastMeta(hits, c.provider, c.providerBookId);
    if c.followId == followId && last.Some? then Refreshed(c, last.value, today) else c
  }

  ghost predicate HasRow(rows: seq<Candidate>, followId: nat, h: Hit) {
    exists i :: 0 <= i < |rows| && SameKey(rows[i], followId, h.provider, HitId(h))
  }

  /** A row inserted by the hits: pending, unlinked, with a hit for it, and already settled. */
  ghost predicate Inserted(c: Candidate, followId: nat, hits: seq<Hit>, today: int) {
    && c.followId == followId && c.status.Pending() && c.bookId.None?
    && LastMeta(hits, c.provider, c.providerBookId).Some?
    && Settle(c, followId, hits, today) == c
  }

  ghost predicate UpsertResult(s: Store, t: Store, followId: nat, hits: seq<Hit>, today: int) {
    && t == s.(candidates := t.candidates, nextCandidate := t.nextCandidate)
    && |s.candidates| <= |t.candidates| && t.nextCandidate == s.nextCandidate + (|t.candidates| - |s.candidates|)
    && (forall i :: 0 <= i < |s.candidates| ==> t.candidates[i] == Settle(s.candidates[i], followId, hits, today))
    && (forall i :: |s.candidates| <= i < |t.candidates| ==>
      Inserted(t.candidates[i], followId, hits, today) && t.candidates[i].id == s.nextCandidate + (i - |s.candidates|))
    && UniqueKeys(t.candidates)
    && (forall n :: 0 <= n < |hits| && HitId(hits[n]) != "" ==> HasRow(t.candidates, followId, hits[n]))
  }

  lemma SettleOneMore(c: Candidate, followId: nat, hits: seq<Hit>, h: Hit, today: int)
    ensures Settle(c, followId, hits + [h], today)
         == if HitId(h) != "" && SameKey(c, followId, h.provider, HitId(h))
            then Refreshed(Settle(c, followId, hits, today), h.meta, today) else Settle(c, followId, hits, today)
  {
    assert (hits + [h])[..|hits|] == hits;
  }

  lemma UpsertRowAt(t: Store, followId: nat, h: Hit, today: int, i: nat)
    requires UniqueKeys(t.candidates) && i < |t.candidates|
    ensures var u := Upserted(t, followId, h, today);
      && i < |u.candidates|
      && u.candidates[i] == if HitId(h) != "" && SameKey(t.candidates[i], followId, h.provider, HitId(h))
                            then Refreshed(t.candidates[i], h.meta, today) else t.candidates[i]
  {
    var found := FindKey(t.candidates, followId, h.provider, HitId(h));
    if found.Some? && found.value != i {
      var a, b := if found.value < i then found.value else i, if found.value < i then i else found.value;
      assert !SameKey(t.candidates[b], t.candidates[a].followId, t.candidates[a].provider, t.candidates[a].providerBookId);
    }
  }

  lemma UpsertShape(t: Store, followId: nat, h: Hit, today: int)
    requires UniqueKeys(t.candidates)
    ensures var u := Upserted(t, followId, h, today);
      && UniqueKeys(u.candidates) && (HitId(h) != "" ==> HasRow(u.candidates, followId, h))
      && |t.candidates| <= |u.candidates| <= |t.candidates| + 1
      && u == t.(candidates := u.candidates, nextCandidate := t.nextCandidate + (|u.candidates| - |t.candidates|))
      && (|u.candidates| > |t.candidates| ==>
        && HitId(h) != "" && !HasRow(t.candidates, followId, h)
        && u.candidates[|t.candidates|] == Candidate(t.nextCandidate, followId, h.provider, HitId(h), h.meta,
                                                     Classify(h.meta.released, today), None))
  {
    var u := Upserted(t, followId, h, today);
    var found := FindKey(t.candidates, followId, h.provider, HitId(h));
    hide HitId;
    if HitId(h) != "" {
      if found.None? {
        assert SameKey(u.candidates[|t.candidates|], followId, h.provider, HitId(h));
      } else {
        assert SameKey(u.candidates[found.value], followId, h.provider, HitId(h));
      }
    }
  }

  lemma HasRowKept(s: Store, t: Store, followId: nat, h: Hit)
    requires |s.candidates| <= |t.candidates| && HasRow(s.candidates, followId, h)
    requires forall i :: 0 <= i < |s.candidates| ==> SameRow(s.candidates[i], t.candidates[i])
    ensures HasRow(t.candidates, followId, h)
  {
    var i :| 0 <= i < |s.candidates| && SameKey(s.candidates[i], followId, h.provider, HitId(h));
    assert SameRow(s.candidates[i], t.candidates[i]);
  }

  lemma UpsertStep(s: Store, t: Store, followId: nat, hits: seq<Hit>, h: Hit, today: int)
    requires UpsertResult(s, t, followId, hits, today)
    ensures UpsertResult(s, Upserted(t, followId, h, today), followId, hits + [h], today)
  {
    var u := Upserted(t, followId, h, today);
    UpsertShape(t, followId, h, today);
    hide Upserted, UniqueKeys, Settle, HitId;
    forall i | 0 <= i < |t.candidates|
      ensures SameRow(t.candidates[i], u.candidates[i])
      ensures i < |s.candidates| ==> u.candidates[i] == Settle(s.candidates[i], followId, hits + [h], today)
      ensures i >= |s.candidates| ==> Inserted(u.candidates[i], followId, hits + [h], today)
    {
      UpsertRowAt(t, followId, h, today, i);
      if i < |s.candidates| {
        SettleKeepsKey(s.candidates[i], followId, hits, today);
        SettleOneMore(s.candidates[i], followId, hits, h, today);
      } else {
        InsertedStays(t.candidates[i], u.candidates[i], followId, hits, h, today);
      }
    }
    if |u.candidates| > |t.candidates| {
      NewRowSettled(u.candidates[|t.candidates|], followId, hits, h, today);
    }
    forall n | 0 <= n < |hits + [h]| && HitId((hits + [h])[n]) != ""
      ensures HasRow(u.candidates, followId, (hits + [h])[n])
    {
      if n < |hits| {
        HasRowKept(t, u, followId, hits[n]);
      }
    }
  }

  lemma SettleKeepsKey(c: Candidate, followId: nat, hits: seq<Hit>, today: int)
    ensures SameRow(c, Settle(c, followId, hits, today))
  {
  }

  lemma InsertedStays(c: Candidate, d: Candidate, followId: nat, hits: seq<Hit>, h: Hit, today: int)
    requires Inserted(c, followId, hits, today)
    requires d == if HitId(h) != "" && SameKey(c, followId, h.provider, HitId(h)) then Refreshed(c, h.meta, today) else c
    ensures Inserted(d, followId, hits + [h], today) && SameRow(c, d)
  {
    SettleOneMore(d, followId, hits, h, today);
  }

  lemma NewRowSettled(c: Candidate, followId: nat, hits: seq<Hit>, h: Hit, today: int)
    requires HitId(h) != "" && c.followId == followId && c.provider == h.provider && c.providerBookId == HitId(h)
    requires c.meta == h.meta && c.status == Classify(h.meta.released, today) && c.bookId.None?
    ensures Inserted(c, followId, hits + [h], today)
  {
    SettleOneMore(c, followId, hits, h, today);
  }

  /** The upsert loop in closed form, repeated hits included. */
  lemma {:induction false} UpsertedMeans(s: Store, followId: nat, hits: seq<Hit>, today: int)
    requires UniqueKeys(s.candidates)
    ensures UpsertResult(s, UpsertedAll(s, followId, hits, today), followId, hits, today)
  {
    hide Upserted, UniqueKeys;
    if hits != [] {
      var n := |hits| - 1;
      UpsertedMeans(s, followId, hits[..n], today);
      UpsertStep(s, UpsertedAll(s, followId, hits[..n], today), followId, hits[..n], hits[n], today);
      assert hits[..n] + [hits[n]] == hits;
    }
  }

  lemma {:induction false} UpsertedNoneNew(s: Store, followId: nat, hits: seq<Hit>, today: int)
    requires UniqueKeys(s.candidates)
    requires forall n :: 0 <= n < |hits| && HitId(hits[n]) != "" ==> HasRow(s.candidates, followId, hits[n])
    ensures |UpsertedAll(s, followId, hits, today).candidates| == |s.candidates|
  {
    hide Upserted, UniqueKeys, HitId;
    if hits != [] {
      var n := |hits| - 1;
      var t := UpsertedAll(s, followId, hits[..n], today);
      assert forall k :: 0 <= k < n ==> hits[..n][k] == hits[k];
      UpsertedNoneNew(s, followId, hits[..n], today);
      UpsertedMeans(s, followId, hits[..n], today);
      UpsertShape(t, followId, hits[n], today);
      if HitId(hits[n]) != "" {
        forall i | 0 <= i < |s.candidates|
          ensures SameRow(s.candidates[i], t.candidates[i])
        {
          SettleKeepsKey(s.candidates[i], followId, hits[..n], today);
        }
        HasRowKept(s, t, followId, hits[n]);
      }
    }
  }

  lemma UpsertKept(s: Store, followId: nat, hits: seq<Hit>, today: int)
    requires Consistent(s)
    ensures Kept(s, UpsertedAll(s, followId, hits, today))
  {
    var t := UpsertedAll(s, followId, hits, today);
    UpsertedMeans(s, followId, hits, today);
    NoChangeKeepsOwners(s, t);
    hide OwnersKept, UpsertedAll, Settle, Inserted, HasRow;
    forall i | 0 <= i < |t.candidates|
      ensures Linked(t, t.candidates[i])
      ensures i < |s.candidates| ==> RowStep(s.candidates[i], t.candidates[i])
    {
      UpsertRowKept(s, t, followId, hits, today, i);
    }
    forall i, j | 0 <= i < j < |t.candidates|
      ensures t.candidates[i].id != t.candidates[j].id
    {
      UpsertIdAt(s, t, followId, hits, today, i);
      UpsertIdAt(s, t, followId, hits, today, j);
    }
    hide UniqueKeys, Linked, RowStep;
  }

  lemma UpsertRowKept(s: Store, t: Store, followId: nat, hits: seq<Hit>, today: int, i: nat)
    requires Consistent(s) && UpsertResult(s, t, followId, hits, today) && i < |t.candidates|
    ensures Linked(t, t.candidates[i])
    ensures i < |s.candidates| ==> RowStep(s.candidates[i], t.candidates[i])
  {
    hide UniqueKeys, DistinctIds, HasRow;
    if i < |s.candidates| {
      assert Linked(s, s.candidates[i]);
    }
  }

  /** Surviving rows keep their id below the old counter, inserted ones count on from it. */
  lemma UpsertIdAt(s: Store, t: Store, followId: nat, hits: seq<Hit>, today: int, i: nat)
    requires Consistent(s) && UpsertResult(s, t, followId, hits, today) && i < |t.candidates|
    ensures if i < |s.candidates| then t.candidates[i].id == s.candidates[i].id < s.nextCandidate
            else t.candidates[i].id == s.nextCandidate + (i - |s.candidates|)
    ensures DistinctIds(s.candidates)
  {
    hide UniqueKeys, HasRow;
    if i < |s.candidates| {
      assert Linked(s, s.candidates[i]);
    }
  }

  // ---------- the whole refresh ----------

  /** The state a refresh leaves for its follow. */
  ghost predicate RefreshSettled(t: Store, followId: nat, hits: seq<Hit>, today: int) {
    && FutureOwned(t, followId, |t.candidates|)
    && (forall i :: 0 <= i < |t.candidates| && t.candidates[i].followId == followId && t.candidates[i].status.Added? ==>
      t.candidates[i].bookId.Some?)
    && (forall i :: 0 <= i < |t.candidates| ==> Settle(t.candidates[i], followId, hits, today) == t.candidates[i])
    && (forall n :: 0 <= n < |hits| && HitId(hits[n]) != "" ==> HasRow(t.candidates, followId, hits[n]))
  }

  lemma MaterialRowSettled(c: Candidate, d: Candidate, followId: nat, hits: seq<Hit>, today: int)
    requires Settle(c, followId, hits, today) == c && MaterialRow(c, d, followId)
    ensures Settle(d, followId, hits, today) == d && SameRow(c, d)
  {
  }

  lemma SettleTwice(c: Candidate, followId: nat, hits: seq<Hit>, today: int)
    ensures Settle(Settle(c, followId, hits, today), followId, hits, today) == Settle(c, followId, hits, today)
  {
  }

  lemma UpsertedSettled(s: Store, followId: nat, hits: seq<Hit>, today: int)
    requires UniqueKeys(s.candidates)
    requires forall i :: 0 <= i < |s.candidates| && s.candidates[i].followId == followId && s.candidates[i].status.Added? ==>
      s.candidates[i].bookId.Some?
    ensures var t := UpsertedAll(s, followId, hits, today);
      && (forall i :: 0 <= i < |t.candidates| ==> Settle(t.candidates[i], followId, hits, today) == t.candidates[i])
      && (forall i :: 0 <= i < |t.candidates| && t.candidates[i].followId == followId && t.candidates[i].status.Added? ==>
        t.candidates[i].bookId.Some?)
  {
    var t := UpsertedAll(s, followId, hits, today);
    UpsertedMeans(s, followId, hits, today);
    hide UpsertedAll, UniqueKeys, LastMeta;
    forall i | 0 <= i < |t.candidates|
      ensures Settle(t.candidates[i], followId, hits, today) == t.candidates[i]
    {
      if i < |s.candidates| {
        SettleTwice(s.candidates[i], followId, hits, today);
      }
    }
    forall i | 0 <= i < |t.candidates| && t.candidates[i].followId == followId && t.candidates[i].status.Added?
      ensures t.candidates[i].bookId.Some?
    {
      if i < |s.candidates| {
        assert t.candidates[i].status == s.candidates[i].status && t.candidates[i].bookId == s.candidates[i].bookId;
      }
    }
  }

  /**
   After any refresh every remaining future candidate of the follow is owned, every added one
   is linked to a live book, and the table keeps its invariant and its owners.
   */
  lemma RefreshMeans(s: Store, followId: nat, hits: seq<Hit>, today: int, locale: string)
    requires Consistent(s) && followId in s.follows
    ensures var t := RefreshedStore(s, followId, hits, today, locale);
      && Kept(s, t) && t.follows == s.follows
      && RefreshSettled(t, followId, hits, today)
      && forall i :: 0 <= i < |t.candidates| && t.candidates[i].followId == followId && t.candidates[i].status.Added? ==>
        t.candidates[i].bookId.Some? && Live(t.books, t.candidates[i].bookId.value)
  {
    var r := Reconciled(s, Some(followId), today);
    ReconcileKeeps(s, Some(followId), today);
    ReconcileKept(s, Some(followId), today);
    var u := UpsertedAll(r, followId, hits, today);
    UpsertKept(r, followId, hits, today);
    UpsertedMeans(r, followId, hits, today);
    UpsertedSettled(r, followId, hits, today);
    KeptTransitive(s, r, u);
    var t := Materialized(u, followId, locale, |u.candidates|);
    MaterializedMeans(u, followId, locale, |u.candidates|);
    KeptTransitive(s, u, t);
    hide OwnersKept, UpsertedAll, Materialized, Settle, UniqueKeys, Reconciled, Owned, RowSteps, HitId;
    forall i | 0 <= i < |t.candidates|
      ensures Settle(t.candidates[i], followId, hits, today) == t.candidates[i]
      ensures SameRow(u.candidates[i], t.candidates[i]) && Linked(t, t.candidates[i])
      ensures t.candidates[i].followId == followId && t.candidates[i].status.Added? ==> t.candidates[i].bookId.Some?
    {
      MaterialRowSettled(u.candidates[i], t.candidates[i], followId, hits, today);
    }
    forall n | 0 <= n < |hits| && HitId(hits[n]) != ""
      ensures HasRow(t.candidates, followId, hits[n])
    {
      HasRowKept(u, t, followId, hits[n]);
    }
  }

  /** In a settled store reconcile, upsert and materialise all find nothing to do. */
  lemma SettledIdle(t: Store, followId: nat, hits: seq<Hit>, today: int, locale: string)
    requires Consistent(t) && RefreshSettled(t, followId, hits, today)
    ensures RefreshedStore(t, followId, hits, today, locale) == t
  {
    if followId in t.follows {
      hide Owned, Settle, HitId;
      var r := Reconciled(t, Some(followId), today);
      assert r.candidates == t.candidates;
      assert r == t;
      UpsertedMeans(t, followId, hits, today);
      UpsertedNoneNew(t, followId, hits, today);
      var u := UpsertedAll(t, followId, hits, today);
      assert u.candidates == t.candidates;
      assert u == t;
      MaterializedIdle(t, followId, locale, |t.candidates|);
    }
  }

  /**
   Refreshing again with the same response on the same day changes nothing: no candidate,
   no book, no status, even with repeated hits in the response.
   */
  lemma RefreshIdempotent(s: Store, followId: nat, hits: seq<Hit>, today: int, locale: string)
    requires Consistent(s)
    ensures var t := RefreshedStore(s, followId, hits, today, locale);
      RefreshedStore(t, followId, hits, today, locale) == t
  {
    if followId in s.follows {
      RefreshMeans(s, followId, hits, today, locale);
      SettledIdle(RefreshedStore(s, followId, hits, today, locale), followId, hits, today, locale);
    }
  }
}
