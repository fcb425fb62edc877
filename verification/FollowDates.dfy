/**
 What a row's own release date decides (app/api/routes_follows.py): where a refresh, a restore
 and the repair of rows without a book leave it, on the fields of the row alone.
 */
module FollowDates {
  import opened Options
  import opened Follows
  import opened FollowRuns
  import opened FollowRefresh
  import opened FollowHistory
  import opened FollowAnswers

  /** Released strictly after today; an unknown date is not. */
  predicate Upcoming(c: Candidate, today: int) {
    c.meta.released.Some? && c.meta.released.value > today
  }

  /** The row is for this hit: the same provider, and the ASIN, or else the uid, as its id. */
  predicate HitFor(h: Hit, c: Candidate) {
    && h.provider == c.provider && c.providerBookId != ""
    && c.providerBookId == if h.asin != "" then h.asin else h.uid
  }

  /** The last hit for the row is hit `n`. */
  predicate LastHit(hits: seq<Hit>, c: Candidate, n: nat) {
    n < |hits| && HitFor(hits[n], c) && forall m :: n < m < |hits| ==> !HitFor(hits[m], c)
  }

  predicate NoHit(hits: seq<Hit>, c: Candidate) {
    forall m :: 0 <= m < |hits| ==> !HitFor(hits[m], c)
  }

  /** A book created since the store `s`. */
  predicate NewBook(s: Store, c: Candidate) {
    c.bookId.Some? && c.bookId.value >= s.nextBook
  }

  predicate LostBook(c: Candidate) {
    c.status.Added? && c.bookId.None?
  }

  // ---------- repairing rows without a book ----------

  /** Linked to a copy of its id when there is one, otherwise pending by its own date. */
  ghost predicate Repaired(s: Store, today: int, c: Candidate, d: Candidate) {
    && d == c.(status := d.status, bookId := d.bookId)
    && if exists b :: Copy(s, b, c.provider, c.providerBookId)
       then d.status.Added? && d.bookId.Some? && Copy(s, d.bookId.value, c.provider, c.providerBookId)
       else d.bookId.None? && if Upcoming(c, today) then d.status.Future? else d.status.Backlog?
  }

  lemma OwnedIsCopied(s: Store, c: Candidate)
    ensures Owned(s, c).Some? <==> exists b :: Copy(s, b, c.provider, c.providerBookId)
    ensures Owned(s, c).Some? ==> Copy(s, Owned(s, c).value, c.provider, c.providerBookId)
  {
    OwnedMeans(s, c.provider, c.providerBookId);
    AttributedMeans(s.books, s.attributions, c.provider, c.providerBookId);
    ByAsinMeans(s.books, c.providerBookId);
    if HasAsin(s, c.providerBookId) {
      var i :| 0 <= i < |s.books| && s.books[i].asin == Some(c.providerBookId);
      assert HoldsAsin(s.books, s.books[i].id, c.providerBookId);
    }
    if Owned(s, c).Some? {
      assert Copy(s, Owned(s, c).value, c.provider, c.providerBookId);
    }
    if b :| Copy(s, b, c.provider, c.providerBookId) {
      UnownedHasNoCopyOf(s, c, b);
    }
  }

  lemma UnownedHasNoCopyOf(s: Store, c: Candidate, b: nat)
    requires Copy(s, b, c.provider, c.providerBookId)
    ensures Owned(s, c).Some?
  {
    if Owned(s, c).None? {
      UnownedHasNoCopy(s, c.provider, c.providerBookId, b);
    }
  }

  /** Reconciling repairs exactly the added rows of its scope that lost their book. */
  lemma ReconciledMeans(s: Store, scope: Option<nat>, today: int, i: nat)
    requires i < |s.candidates|
    ensures var c, t := s.candidates[i], Reconciled(s, scope, today);
      && |t.candidates| == |s.candidates| && t == s.(candidates := t.candidates)
      && if LostBook(c) && (scope.None? || c.followId == scope.value) then Repaired(s, today, c, t.candidates[i])
         else t.candidates[i] == c
  {
    hide Owned, Copy;
    OwnedIsCopied(s, s.candidates[i]);
  }

  // ---------- the last hit for a row ----------

  lemma {:induction false} LastMetaIs(hits: seq<Hit>, c: Candidate)
    ensures NoHit(hits, c) <==> LastMeta(hits, c.provider, c.providerBookId).None?
    ensures forall n: nat :: LastHit(hits, c, n) ==> LastMeta(hits, c.provider, c.providerBookId) == Some(hits[n].meta)
  {
    if hits != [] {
      var m := |hits| - 1;
      LastMetaIs(hits[..m], c);
      LastMetaStep(hits, c);
      NoHitStep(hits, c);
      hide LastMeta, NoHit, HitFor, LastHit;
      forall n: nat | LastHit(hits, c, n)
        ensures LastMeta(hits, c.provider, c.providerBookId) == Some(hits[n].meta)
      {
        LastHitStep(hits, c, n);
        hide *;
      }
    }
  }

  lemma LastMetaStep(hits: seq<Hit>, c: Candidate)
    requires hits != []
    ensures var h, before := hits[|hits| - 1], hits[..|hits| - 1];
      LastMeta(hits, c.provider, c.providerBookId)
      == if HitFor(h, c) then Some(h.meta) else LastMeta(before, c.provider, c.providerBookId)
  {
  }

  lemma NoHitStep(hits: seq<Hit>, c: Candidate)
    requires hits != []
    ensures NoHit(hits, c) <==> NoHit(hits[..|hits| - 1], c) && !HitFor(hits[|hits| - 1], c)
  {
    hide HitFor;
    assert hits == hits[..|hits| - 1] + [hits[|hits| - 1]];
  }

  lemma LastHitStep(hits: seq<Hit>, c: Candidate, n: nat)
    requires hits != [] && LastHit(hits, c, n)
    ensures n < |hits| && (n == |hits| - 1 <==> HitFor(hits[|hits| - 1], c))
    ensures n < |hits| - 1 ==> LastHit(hits[..|hits| - 1], c, n) && hits[..|hits| - 1][n] == hits[n]
  {
    hide HitFor;
  }

  // ---------- books for upcoming rows ----------

  /** A future row of the follow, of which there was no copy, was given a new book. */
  ghost predicate GivenBook(s: Store, t: Store, c: Candidate, d: Candidate, followId: nat) {
    && c.followId == followId && c.status.Future? && Owned(s, c).None?
    && d == c.(status := Added, bookId := d.bookId) && NewBook(s, d) && d.bookId.value < t.nextBook
  }

  /** Books created for other keys leave a key without a copy. */
  lemma {:induction false} StillUnowned(s: Store, followId: nat, locale: string, k: nat, c: Candidate)
    requires Consistent(s) && k <= |s.candidates| && c.followId == followId && Owned(s, c).None?
    requires forall j :: 0 <= j < k ==> !SameKey(s.candidates[j], c.followId, c.provider, c.providerBookId)
    ensures Owned(Materialized(s, followId, locale, k), c).None?
  {
    hide Owned, OwnersKept, Consistent;
    if k > 0 {
      StillUnowned(s, followId, locale, k - 1, c);
      MaterializedMeans(s, followId, locale, k - 1);
      var before := Materialized(s, followId, locale, k - 1);
      if NeedsBook(before, k - 1, followId) {
        UnownedAfterCreate(before, k - 1, locale, c);
      }
    }
  }

  lemma UnownedAfterCreate(s: Store, i: nat, locale: string, c: Candidate)
    requires Consistent(s) && i < |s.candidates| && Owned(s, c).None?
    requires s.candidates[i].provider != c.provider || s.candidates[i].providerBookId != c.providerBookId
    ensures Owned(CreateBook(s, i, locale), c).None?
  {
    hide Owned, Consistent, CreateBook, Owner, HoldsAsin;
    OwnedIsCopied(s, c);
    OwnedIsCopied(CreateBook(s, i, locale), c);
    forall b
      ensures Copy(CreateBook(s, i, locale), b, c.provider, c.providerBookId) <==> Copy(s, b, c.provider, c.providerBookId)
    {
      CreateOwnersAt(s, i, locale, b, c.provider, c.providerBookId);
      CreateAsinsAt(s, i, locale, b, c.providerBookId);
    }
  }

  /** Exactly the future rows of the follow without a copy are given a book, each its own. */
  lemma {:induction false} MaterializedGives(s: Store, followId: nat, locale: string, k: nat)
    requires Consistent(s) && k <= |s.candidates|
    ensures var t := Materialized(s, followId, locale, k);
      && s.nextBook <= t.nextBook && Grown(s, t)
      && forall i :: 0 <= i < |s.candidates| ==>
        if i < k && s.candidates[i].followId == followId && s.candidates[i].status.Future? && Owned(s, s.candidates[i]).None?
        then GivenBook(s, t, s.candidates[i], t.candidates[i], followId)
        else t.candidates[i] == s.candidates[i]
  {
    hide Owned, OwnersKept, Consistent;
    if k > 0 {
      MaterializedGives(s, followId, locale, k - 1);
      MaterializedMeans(s, followId, locale, k - 1);
      var before := Materialized(s, followId, locale, k - 1);
      var c := s.candidates[k - 1];
      if Owned(s, c).Some? {
        OwnedPersists(s, before, c);
      } else if c.followId == followId {
        OwnKey(s, k - 1);
        StillUnowned(s, followId, locale, k - 1, c);
      }
    }
  }

  lemma OwnKey(s: Store, i: nat)
    requires Consistent(s) && i < |s.candidates|
    ensures var c := s.candidates[i];
      forall j :: 0 <= j < i ==> !SameKey(s.candidates[j], c.followId, c.provider, c.providerBookId)
  {
  }

  // ---------- refresh ----------

  /** Row `i` before the last pass of a refresh: repaired and settled, or inserted. */
  lemma RefreshRow(s: Store, followId: nat, hits: seq<Hit>, today: int, locale: string, i: nat) returns (u: Store)
    requires Consistent(s) && followId in s.follows
    requires i < |RefreshedStore(s, followId, hits, today, locale).candidates|
    ensures u == UpsertedAll(Reconciled(s, Some(followId), today), followId, hits, today)
    ensures u.nextBook == s.nextBook && u.books == s.books && u.attributions == s.attributions
    ensures i < |u.candidates| && Consistent(u)
    ensures if i < |s.candidates|
      then u.candidates[i] == Settle(ReconcileRow(s, Some(followId), today, s.candidates[i]), followId, hits, today)
      else Inserted(u.candidates[i], followId, hits, today)
    ensures var t := RefreshedStore(s, followId, hits, today, locale);
      && FutureOwned(t, followId, |t.candidates|)
      && if u.candidates[i].followId == followId && u.candidates[i].status.Future? && Owned(s, u.candidates[i]).None?
         then GivenBook(u, t, u.candidates[i], t.candidates[i], followId)
         else t.candidates[i] == u.candidates[i]
  {
    var r := Reconciled(s, Some(followId), today);
    ReconcileKept(s, Some(followId), today);
    u := UpsertedAll(r, followId, hits, today);
    UpsertKept(r, followId, hits, today);
    UpsertedMeans(r, followId, hits, today);
    MaterializedGives(u, followId, locale, |u.candidates|);
    MaterializedMeans(u, followId, locale, |u.candidates|);
    SameOwner(s, u, u.candidates[i]);
    hide OwnersKept, UpsertedAll, Materialized, Settle, Inserted, UniqueKeys, ReconcileRow, FutureOwned, GivenBook, Linked,
      RowSteps, DistinctIds, Owned;
  }

  /** Settling a row for which there was a hit. */
  lemma SettledByDate(c: Candidate, d: Candidate, followId: nat, hits: seq<Hit>, today: int)
    requires d == Settle(c, followId, hits, today) && c.followId == followId
    requires LastMeta(hits, c.provider, c.providerBookId).Some?
    ensures d == c.(meta := d.meta, status := d.status)
    ensures LastMeta(hits, c.provider, c.providerBookId) == Some(d.meta)
    ensures if c.status.Pending() then (if Upcoming(d, today) then d.status.Future? else d.status.Backlog?)
            else d.status == c.status
  {
  }

  /**
   Every row of the follow with a hit in the response takes the metadata of its last hit, and
   that date decides: `backlog` only without a date after today, `future` or a new book only
   with one, and the book exactly when there was no copy. Excluded rows stay excluded, linked
   rows keep their book, and no other row becomes either.
   */
  lemma RefreshDates(s: Store, followId: nat, hits: seq<Hit>, today: int, locale: string, i: nat, n: nat)
    requires Consistent(s) && followId in s.follows
    requires i < |RefreshedStore(s, followId, hits, today, locale).candidates|
    requires var d := RefreshedStore(s, followId, hits, today, locale).candidates[i];
      d.followId == followId && LastHit(hits, d, n)
    ensures var d := RefreshedStore(s, followId, hits, today, locale).candidates[i];
      && d.meta == hits[n].meta
      && (d.status.Backlog? ==> d.meta.released.None? || d.meta.released.value <= today)
      && (d.status.Future? || (d.bookId.Some? && d.bookId.value >= s.nextBook) ==>
        d.meta.released.Some? && d.meta.released.value > today)
      && (d.status.Excluded? <==> i < |s.candidates| && s.candidates[i].status.Excluded?)
      && (i < |s.candidates| && s.candidates[i].bookId.Some? ==> d.status.Added? && d.bookId == s.candidates[i].bookId)
      && (d.status.Added? ==> d.bookId.Some?)
      && (d.status.Added? && d.bookId.value < s.nextBook ==> i < |s.candidates| && s.candidates[i].status.Added?)
      && (d.status.Future? ==> exists b :: Copy(s, b, d.provider, d.providerBookId))
      && (d.bookId.Some? && d.bookId.value >= s.nextBook ==> !exists b :: Copy(s, b, d.provider, d.providerBookId))
  {
    var u := RefreshRow(s, followId, hits, today, locale, i);
    var c, d := u.candidates[i], RefreshedStore(s, followId, hits, today, locale).candidates[i];
    RefreshMeans(s, followId, hits, today, locale);
    LastMetaIs(hits, d);
    LiveBelowNext(s);
    OwnedIsCopied(s, d);
    SameOwner(s, u, c);
    hide RefreshedStore, UpsertedAll, LastMeta, Kept, Owned, Consistent, RefreshSettled, FutureOwned, Live, Copy;
    if i < |s.candidates| {
      var b := s.candidates[i];
      LinkedRow(s, i);
      ReconciledRow(s, followId, today, b);
      SettledByDate(ReconcileRow(s, Some(followId), today, b), c, followId, hits, today);
    } else {
      SettledByDate(c, c, followId, hits, today);
    }
  }

  lemma LinkedRow(s: Store, i: nat)
    requires Consistent(s) && i < |s.candidates|
    ensures Linked(s, s.candidates[i])
  {
  }

  lemma LiveBelowNext(s: Store)
    requires Consistent(s)
    ensures forall b: nat :: Live(s.books, b) ==> b < s.nextBook
  {
  }

  lemma ReconciledRow(s: Store, followId: nat, today: int, c: Candidate)
    ensures var d := ReconcileRow(s, Some(followId), today, c);
      && d == c.(status := d.status, bookId := d.bookId)
      && (!(LostBook(c) && c.followId == followId) ==> d == c)
      && (LostBook(c) && c.followId == followId ==>
        if d.status.Added? then
          d.bookId.Some? && Live(s.books, d.bookId.value) && Copy(s, d.bookId.value, c.provider, c.providerBookId)
        else d.bookId.None? && (forall b :: !Copy(s, b, c.provider, c.providerBookId))
             && if Upcoming(c, today) then d.status.Future? else d.status.Backlog?)
  {
    hide Owned, Copy, Live;
    OwnedIsCopied(s, c);
    OwnerLive(s, c);
  }

  /** A row left alone by the response, or repaired, and given a new book when that makes it future. */
  ghost predicate OnlyRepaired(s: Store, today: int, c: Candidate, d: Candidate) {
    && d.meta == c.meta
    && (c.status.Excluded? || c.status.Backlog? || c.bookId.Some? ==> d == c)
    && (c.status.Future? ==> d == c || (d.status.Added? && NewBook(s, d)))
    && (LostBook(c) ==>
      if exists b :: Copy(s, b, c.provider, c.providerBookId)
      then d.status.Added? && d.bookId.Some? && Copy(s, d.bookId.value, c.provider, c.providerBookId)
      else if Upcoming(c, today) then d.status.Added? && NewBook(s, d)
      else d.status.Backlog? && d.bookId.None?)
  }

  /** A refresh touches no row of another follow, and no row without a hit beyond its repair. */
  lemma RefreshOthers(s: Store, followId: nat, hits: seq<Hit>, today: int, locale: string, i: nat)
    requires Consistent(s) && followId in s.follows && i < |s.candidates|
    ensures var c, t := s.candidates[i], RefreshedStore(s, followId, hits, today, locale);
      && i < |t.candidates|
      && (c.followId != followId ==> t.candidates[i] == c)
      && (c.followId == followId && NoHit(hits, c) ==> OnlyRepaired(s, today, c, t.candidates[i]))
  {
    RefreshMeans(s, followId, hits, today, locale);
    hide RefreshedStore, LastMeta, Kept, Owned, Consistent, RefreshSettled, Live, Copy;
    assert i < |RefreshedStore(s, followId, hits, today, locale).candidates| by {
      KeptRows(s, RefreshedStore(s, followId, hits, today, locale));
    }
    var u := RefreshRow(s, followId, hits, today, locale, i);
    var c, t := s.candidates[i], RefreshedStore(s, followId, hits, today, locale);
    LastMetaIs(hits, c);
    LinkedRow(s, i);
    ReconciledRow(s, followId, today, c);
    hide UpsertedAll;
    OwnedIsCopied(s, c);
  }

  /** The response is covered: each usable hit has a row, and each new row a hit. */
  lemma RefreshCovers(s: Store, followId: nat, hits: seq<Hit>, today: int, locale: string)
    requires Consistent(s) && followId in s.follows
    ensures var t := RefreshedStore(s, followId, hits, today, locale);
      && (forall n :: 0 <= n < |hits| && (hits[n].asin != "" || hits[n].uid != "") ==>
        exists i :: 0 <= i < |t.candidates| && t.candidates[i].followId == followId && HitFor(hits[n], t.candidates[i]))
      && (forall i :: |s.candidates| <= i < |t.candidates| ==>
        t.candidates[i].followId == followId && exists n :: 0 <= n < |hits| && HitFor(hits[n], t.candidates[i]))
  {
    var t := RefreshedStore(s, followId, hits, today, locale);
    RefreshMeans(s, followId, hits, today, locale);
    hide RefreshedStore, Kept, Owned, Consistent, FutureOwned, Live, Settle;
    forall n | 0 <= n < |hits| && (hits[n].asin != "" || hits[n].uid != "")
      ensures exists i :: 0 <= i < |t.candidates| && t.candidates[i].followId == followId && HitFor(hits[n], t.candidates[i])
    {
      assert HasRow(t.candidates, followId, hits[n]);
      var i :| 0 <= i < |t.candidates| && SameKey(t.candidates[i], followId, hits[n].provider, HitId(hits[n]));
      assert HitFor(hits[n], t.candidates[i]);
    }
    forall i | |s.candidates| <= i < |t.candidates|
      ensures t.candidates[i].followId == followId && exists n :: 0 <= n < |hits| && HitFor(hits[n], t.candidates[i])
    {
      var u := RefreshRow(s, followId, hits, today, locale, i);
      LastMetaIs(hits, t.candidates[i]);
    }
  }

  // ---------- restore ----------

  /**
   A selected excluded row comes back by its own date: `backlog` without a date after today,
   otherwise `future` when there is a copy, and with a new book when there is none.
   */
  lemma RestoredDates(s: Store, followId: nat, ids: seq<nat>, today: int, locale: string, i: nat)
    requires Consistent(s) && followId in s.follows && i < |s.candidates|
    requires var c := s.candidates[i]; c.followId == followId && c.status.Excluded?
    ensures var c, t := s.candidates[i], RestoredStore(s, followId, ids, today, locale);
      && i < |t.candidates|
      && var d := t.candidates[i];
         if c.id !in ids then d == c
         else
           && d == c.(status := d.status, bookId := d.bookId)
           && if !Upcoming(c, today) then d.status.Backlog? && d.bookId == c.bookId
              else if exists b :: Copy(s, b, c.provider, c.providerBookId) then d.status.Future? && d.bookId == c.bookId
              else d.status.Added? && NewBook(s, d)
  {
    var c := s.candidates[i];
    var r := Reconciled(s, Some(followId), today);
    ReconcileKept(s, Some(followId), today);
    var rows := RestoreRows(r.candidates, followId, ids, today);
    var q := r.(candidates := rows);
    RestoreRowsConsistent(r, followId, ids, today);
    MaterializedGives(q, followId, locale, |rows|);
    SameOwner(s, q, rows[i]);
    OwnedIsCopied(s, c);
    assert c.id in ids ==> rows[i] != r.candidates[i];
    hide Materialized, Kept, Consistent, Owned, Copy;
  }

  lemma RestoreRowsConsistent(r: Store, followId: nat, ids: seq<nat>, today: int)
    requires Consistent(r)
    ensures Consistent(r.(candidates := RestoreRows(r.candidates, followId, ids, today)))
  {
    var t := r.(candidates := RestoreRows(r.candidates, followId, ids, today));
    forall i | 0 <= i < |r.candidates|
      ensures SameRow(r.candidates[i], t.candidates[i])
      ensures t.candidates[i].bookId.Some? ==> t.candidates[i].status.Added? && Live(t.books, t.candidates[i].bookId.value)
    {
      assert Linked(r, r.candidates[i]);
    }
    UpdateConsistent(r, t);
  }

  // ---------- exclude and add ----------

  /** Excluding takes the selected pending rows, repaired ones included, and touches no other. */
  lemma ExcludedMeans(s: Store, followId: nat, ids: seq<nat>, today: int, i: nat)
    requires Consistent(s) && followId in s.follows && i < |s.candidates|
    ensures var c, t := s.candidates[i], ExcludedStore(s, followId, ids, today);
      && |t.candidates| == |s.candidates| && t == s.(candidates := t.candidates)
      && var d := t.candidates[i];
         if c.followId != followId then d == c
         else if c.id in ids && (c.status.Future? || c.status.Backlog?) then d == c.(status := Excluded)
         else if c.id in ids && LostBook(c) && !exists b :: Copy(s, b, c.provider, c.providerBookId) then
           d == c.(status := Excluded)
         else if LostBook(c) then Repaired(s, today, c, d)
         else d == c
  {
    hide Copy;
    ReconciledMeans(s, Some(followId), today, i);
  }

  /** A row of the follow that is added on request: in the backlog, named, and without a copy. */
  ghost predicate Addable(s: Store, c: Candidate, followId: nat, ids: seq<nat>) {
    c.followId == followId && c.id in ids && c.status.Backlog? && Owned(s, c).None?
  }

  ghost predicate AddedRow(s: Store, t: Store, c: Candidate, d: Candidate, followId: nat, ids: seq<nat>) {
    if Addable(s, c, followId, ids) then d == c.(status := Added, bookId := d.bookId) && NewBook(s, d)
    else d == c && (c.followId == followId && Owned(s, c).None? ==> Owned(t, c).None?)
  }

  lemma {:induction false} AddAllGives(s: Store, followId: nat, ids: seq<nat>, locale: string)
    requires Consistent(s)
    ensures var t := AddAll(s, followId, ids, locale);
      && Grown(s, t) && |t.candidates| == |s.candidates|
      && forall i :: 0 <= i < |s.candidates| ==> AddedRow(s, t, s.candidates[i], t.candidates[i], followId, ids)
  {
    if ids == [] {
      hide Owned, Consistent;
    } else {
      var n := |ids| - 1;
      AddAllKept(s, followId, ids[..n], locale);
      AddAllGives(s, followId, ids[..n], locale);
      var before, t := AddAll(s, followId, ids[..n], locale), AddAll(s, followId, ids, locale);
      hide Owned, Consistent, AddAll, OwnersKept, CreateBook, AddedRow;
      assert ids == ids[..n] + [ids[n]];
      AddOneShape(before, followId, ids[n], locale);
      assert t == AddOne(before, followId, ids[n], locale) by {
        AddAllLast(s, followId, ids, locale);
      }
      forall i | 0 <= i < |s.candidates|
        ensures AddedRow(s, t, s.candidates[i], t.candidates[i], followId, ids)
      {
        AddedOneMore(s, before, followId, ids[..n], ids[n], locale, i);
      }
    }
  }

  lemma AddAllLast(s: Store, followId: nat, ids: seq<nat>, locale: string)
    requires ids != []
    ensures AddAll(s, followId, ids, locale)
         == AddOne(AddAll(s, followId, ids[..|ids| - 1], locale), followId, ids[|ids| - 1], locale)
  {
    hide AddOne;
  }

  lemma AddOneShape(s: Store, followId: nat, id: nat, locale: string)
    requires Consistent(s)
    ensures var t := AddOne(s, followId, id, locale); Grown(s, t) && |t.candidates| == |s.candidates|
  {
    hide Owned;
  }

  lemma AddedOneMore(s: Store, before: Store, followId: nat, ids: seq<nat>, id: nat, locale: string, i: nat)
    requires Consistent(s) && Consistent(before) && Grown(s, before)
    requires i < |s.candidates| == |before.candidates|
    requires forall k :: 0 <= k < |s.candidates| ==> AddedRow(s, before, s.candidates[k], before.candidates[k], followId, ids)
    ensures AddedRow(s, AddOne(before, followId, id, locale), s.candidates[i],
                     AddOne(before, followId, id, locale).candidates[i], followId, ids + [id])
  {
    hide Owned;
    var t := AddOne(before, followId, id, locale);
    var found := FindId(before.candidates, id, followId);
    var c, e := s.candidates[i], before.candidates[i];
    assert AddedRow(s, before, c, e, followId, ids);
    if e.followId == followId && e.id == id {
      FoundIs(before.candidates, followId, i);
    }
    if Owned(s, c).Some? {
      OwnedPersists(s, before, c);
    }
    if found.Some? && found.value != i && e == c && c.followId == followId && Owned(before, c).None? {
      OtherKey(before, found.value, i);
      if t != before {
        UnownedAfterCreate(before, found.value, locale, c);
      }
    }
  }

  lemma OtherKey(s: Store, i: nat, j: nat)
    requires Consistent(s) && i < |s.candidates| && j < |s.candidates| && i != j
    requires s.candidates[i].followId == s.candidates[j].followId
    ensures s.candidates[i].provider != s.candidates[j].provider
         || s.candidates[i].providerBookId != s.candidates[j].providerBookId
  {
    var a, b := if i < j then i else j, if i < j then j else i;
    assert !SameKey(s.candidates[b], s.candidates[a].followId, s.candidates[a].provider, s.candidates[a].providerBookId);
  }

  /**
   Adding gives a book to exactly the named backlog rows of the follow without a copy, those
   returned to the backlog by the repair included; every other row is at most repaired.
   */
  lemma AddedMeans(s: Store, followId: nat, ids: seq<nat>, today: int, locale: string, i: nat)
    requires Consistent(s) && followId in s.follows && i < |s.candidates|
    ensures var c, t := s.candidates[i], AddedStore(s, followId, ids, today, locale);
      && |t.candidates| == |s.candidates|
      && var d := t.candidates[i];
         var wanted := c.followId == followId && c.id in ids && !exists b :: Copy(s, b, c.provider, c.providerBookId);
         if wanted && (c.status.Backlog? || (LostBook(c) && !Upcoming(c, today))) then
           d == c.(status := Added, bookId := d.bookId) && NewBook(s, d)
         else if c.followId == followId && LostBook(c) then Repaired(s, today, c, d)
         else d == c
  {
    var c, r := s.candidates[i], Reconciled(s, Some(followId), today);
    ReconcileKept(s, Some(followId), today);
    ReconciledMeans(s, Some(followId), today, i);
    AddAllGives(r, followId, Distinct(ids), locale);
    SameOwner(s, r, r.candidates[i]);
    OwnedIsCopied(s, c);
    hide AddAll, Kept, Consistent, Owned, Copy, Reconciled, Distinct;
    assert AddedRow(r, AddAll(r, followId, Distinct(ids), locale), r.candidates[i],
                    AddAll(r, followId, Distinct(ids), locale).candidates[i], followId, Distinct(ids));
  }

  lemma KeptRows(s: Store, t: Store)
    requires Kept(s, t)
    ensures |s.candidates| <= |t.candidates| && Grown(s, t) && OwnersKept(s, t)
  {
    hide OwnersKept;
  }

  lemma SameOwner(s: Store, u: Store, c: Candidate)
    requires u.books == s.books && u.attributions == s.attributions
    ensures Owned(u, c) == Owned(s, c)
  {
  }
}
