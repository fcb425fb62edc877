/** Runs of refresh, exclude, restore, add, list, book deletion and follow deletion. */
module FollowHistory {
  import opened Options
  import opened Follows
  import opened FollowRuns
  import opened FollowRefresh

  datatype Op =
    | CreateFollow(followId: nat)
    | DeleteFollow(followId: nat)
    | Refresh(followId: nat, hits: seq<Hit>, today: int, locale: string)
    | Exclude(followId: nat, ids: seq<nat>, today: int)
    | Restore(followId: nat, ids: seq<nat>, today: int, locale: string)
    | Add(followId: nat, ids: seq<nat>, today: int, locale: string)
    | List(scope: Option<nat>, today: int)
    | DeleteBook(book: nat)

  function Apply(s: Store, op: Op): Store {
    match op
    case CreateFollow(f) => s.(follows := s.follows + {f})
    case DeleteFollow(f) => FollowDeleted(s, f)
    case Refresh(f, hits, today, locale) => RefreshedStore(s, f, hits, today, locale)
    case Exclude(f, ids, today) => ExcludedStore(s, f, ids, today)
    case Restore(f, ids, today, locale) => RestoredStore(s, f, ids, today, locale)
    case Add(f, ids, today, locale) => AddedStore(s, f, ids, today, locale)
    case List(scope, today) => Reconciled(s, scope, today)
    case DeleteBook(b) => BookDeleted(s, b)
  }

  function Run(s: Store, ops: seq<Op>): Store {
    if ops == [] then s else Apply(Run(s, ops[..|ops| - 1]), ops[|ops| - 1])
  }

  // ---------- what one operation does to one row ----------

  predicate Restores(op: Op, c: Candidate) {
    op.Restore? && Selected(c, op.followId, op.ids)
  }

  /** The transition a surviving row can make. */
  predicate Transition(op: Op, c: Candidate, d: Candidate) {
    && SameRow(c, d)
    && (c.status.Excluded? && !d.status.Excluded? ==> Restores(op, c))
    && (c.status.Added? && !d.status.Added? ==> c.bookId.None?)
    && (c.bookId.Some? && d.bookId != c.bookId ==> op == DeleteBook(c.bookId.value) && d == c.(bookId := None))
  }

  ghost predicate Transitions(op: Op, s: Store, t: Store) {
    && |s.candidates| <= |t.candidates|
    && forall i :: 0 <= i < |s.candidates| ==> Transition(op, s.candidates[i], t.candidates[i])
  }

  lemma KeptTransitions(op: Op, s: Store, t: Store)
    requires Consistent(s) && Kept(s, t)
    ensures Transitions(op, s, t)
  {
    forall i | 0 <= i < |s.candidates|
      ensures Transition(op, s.candidates[i], t.candidates[i])
    {
      assert Linked(s, s.candidates[i]) && RowStep(s.candidates[i], t.candidates[i]);
    }
  }

  // ---------- exclude, restore, add ----------

  lemma ExcludeKept(s: Store, followId: nat, ids: seq<nat>, today: int)
    requires Consistent(s)
    ensures Kept(s, ExcludedStore(s, followId, ids, today))
  {
    NoChangeKeepsOwners(s, s);
    if followId in s.follows {
      var r := Reconciled(s, Some(followId), today);
      ReconcileKeeps(s, Some(followId), today);
      ReconcileKept(s, Some(followId), today);
      var t := ExcludedStore(s, followId, ids, today);
      NoChangeKeepsOwners(r, t);
      hide OwnersKept, Reconciled;
      forall i | 0 <= i < |r.candidates|
        ensures RowStep(r.candidates[i], t.candidates[i])
        ensures t.candidates[i].bookId.Some? ==> t.candidates[i].status.Added? && Live(t.books, t.candidates[i].bookId.value)
      {
        assert Linked(r, r.candidates[i]);
      }
      UpdateConsistent(r, t);
      KeptTransitive(s, r, t);
    } else {
      hide OwnersKept;
    }
  }

  lemma {:induction false} AddAllKept(s: Store, followId: nat, ids: seq<nat>, locale: string)
    requires Consistent(s)
    ensures Kept(s, AddAll(s, followId, ids, locale))
  {
    hide OwnersKept, Consistent, Owned;
    if ids == [] {
      NoChangeKeepsOwners(s, s);
    } else {
      var before := AddAll(s, followId, ids[..|ids| - 1], locale);
      AddAllKept(s, followId, ids[..|ids| - 1], locale);
      var found := FindId(before.candidates, ids[|ids| - 1], followId);
      if found.Some? && before.candidates[found.value].status.Backlog? && Owned(before, before.candidates[found.value]).None? {
        CreateKept(before, found.value, locale);
        KeptTransitive(s, before, CreateBook(before, found.value, locale));
      }
    }
  }

  /** Restore steps: a selected excluded row is reclassified, every other row is kept. */
  predicate RestoreStep(c: Candidate, d: Candidate, followId: nat, ids: seq<nat>) {
    if Selected(c, followId, ids) && c.status.Excluded? then SameRow(c, d) else RowStep(c, d)
  }

  /** What restoring keeps. */
  ghost predicate RestoreKept(s: Store, t: Store, followId: nat, ids: seq<nat>) {
    && Consistent(t) && Grown(s, t) && s.nextCandidate <= t.nextCandidate && OwnersKept(s, t)
    && |s.candidates| <= |t.candidates|
    && forall i :: 0 <= i < |s.candidates| ==> RestoreStep(s.candidates[i], t.candidates[i], followId, ids)
  }

  lemma RestoreRowsKept(r: Store, followId: nat, ids: seq<nat>, today: int)
    requires Consistent(r)
    ensures RestoreKept(r, r.(candidates := RestoreRows(r.candidates, followId, ids, today)), followId, ids)
  {
    var t := r.(candidates := RestoreRows(r.candidates, followId, ids, today));
    NoChangeKeepsOwners(r, t);
    hide OwnersKept;
    forall i | 0 <= i < |r.candidates|
      ensures RestoreStep(r.candidates[i], t.candidates[i], followId, ids) && SameRow(r.candidates[i], t.candidates[i])
      ensures t.candidates[i].bookId.Some? ==> t.candidates[i].status.Added? && Live(t.books, t.candidates[i].bookId.value)
    {
      assert Linked(r, r.candidates[i]);
    }
    UpdateConsistent(r, t);
  }

  lemma RestoreChain(s: Store, r: Store, q: Store, t: Store, followId: nat, ids: seq<nat>)
    requires Consistent(s) && Kept(s, r) && RestoreKept(r, q, followId, ids) && Kept(q, t)
    ensures RestoreKept(s, t, followId, ids)
  {
    OwnersKeptTransitive(s, r, q);
    OwnersKeptTransitive(s, q, t);
    hide OwnersKept;
    forall i | 0 <= i < |s.candidates|
      ensures RestoreStep(s.candidates[i], t.candidates[i], followId, ids)
    {
      var c, d, e, f := s.candidates[i], r.candidates[i], q.candidates[i], t.candidates[i];
      assert RowStep(c, d) && RestoreStep(d, e, followId, ids) && RowStep(e, f);
      assert Linked(s, c) && Linked(r, d) && Linked(q, e);
    }
  }

  lemma RestoredKept(s: Store, followId: nat, ids: seq<nat>, today: int, locale: string)
    requires Consistent(s)
    ensures RestoreKept(s, RestoredStore(s, followId, ids, today, locale), followId, ids)
  {
    hide OwnersKept, RestoreKept, Kept, Materialized, Reconciled;
    KeptReflexive(s);
    if followId in s.follows {
      var r := Reconciled(s, Some(followId), today);
      ReconcileKept(s, Some(followId), today);
      KeptConsistent(s, r);
      var q := r.(candidates := RestoreRows(r.candidates, followId, ids, today));
      RestoreRowsKept(r, followId, ids, today);
      RestoreKeptConsistent(r, q, followId, ids);
      KeptReflexive(q);
      if q.candidates == r.candidates {
        assert q == r;
        RestoreChain(s, r, q, r, followId, ids);
      } else {
        MaterializedMeans(q, followId, locale, |q.candidates|);
        RestoreChain(s, r, q, Materialized(q, followId, locale, |q.candidates|), followId, ids);
      }
    } else {
      RestoreNothing(s, followId, ids);
    }
  }

  lemma KeptReflexive(s: Store)
    requires Consistent(s)
    ensures Kept(s, s)
  {
    NoChangeKeepsOwners(s, s);
    hide OwnersKept;
  }

  lemma KeptConsistent(s: Store, t: Store)
    requires Kept(s, t)
    ensures Consistent(t)
  {
  }

  lemma RestoreKeptConsistent(s: Store, t: Store, followId: nat, ids: seq<nat>)
    requires RestoreKept(s, t, followId, ids)
    ensures Consistent(t)
  {
  }

  lemma RestoreNothing(s: Store, followId: nat, ids: seq<nat>)
    requires Consistent(s)
    ensures RestoreKept(s, s, followId, ids)
  {
    NoChangeKeepsOwners(s, s);
    hide OwnersKept;
  }

  // ---------- deletions ----------

  lemma {:induction false} WithoutBookMeans(books: seq<Book>, id: nat)
    ensures forall b :: Live(WithoutBook(books, id), b) <==> Live(books, b) && b != id
    ensures forall i :: 0 <= i < |WithoutBook(books, id)| ==> WithoutBook(books, id)[i] in books
  {
    if books != [] {
      var n := |books| - 1;
      WithoutBookMeans(books[..n], id);
      forall b
        ensures Live(books, b) <==> Live(books[..n], b) || books[n].id == b
        ensures Live(WithoutBook(books, id), b)
          <==> Live(WithoutBook(books[..n], id), b) || (books[n].id == b && b != id)
      {
        LiveAppend(books[..n], books[n], b);
        assert books[..n] + [books[n]] == books;
        LiveAppend(WithoutBook(books[..n], id), books[n], b);
        assert WithoutBook(books[..n], id) + [] == WithoutBook(books[..n], id);
      }
    }
  }

  lemma LiveAppend(books: seq<Book>, x: Book, b: nat)
    ensures Live(books + [x], b) <==> Live(books, b) || x.id == b
  {
    if Live(books, b) {
      var i :| 0 <= i < |books| && books[i].id == b;
      assert (books + [x])[i] == books[i];
    }
    assert (books + [x])[|books|] == x;
  }

  /** The book and nothing else is gone, the rows linked to it are unlinked, the invariant holds. */
  lemma BookDeletedKeeps(s: Store, book: nat)
    requires Consistent(s)
    ensures var t := BookDeleted(s, book);
      && Consistent(t) && |t.candidates| == |s.candidates| && Transitions(DeleteBook(book), s, t)
      && t.attributions == s.attributions
      && forall b :: Live(t.books, b) <==> Live(s.books, b) && b != book
  {
    var t := BookDeleted(s, book);
    WithoutBookMeans(s.books, book);
    assert RowsKept(s, t);
    KeysKept(s, t);
    forall i | 0 <= i < |t.candidates|
      ensures Linked(t, t.candidates[i]) && Transition(DeleteBook(book), s.candidates[i], t.candidates[i])
    {
      assert Linked(s, s.candidates[i]);
    }
    forall i | 0 <= i < |t.books|
      ensures t.books[i].id < t.nextBook
    {
      assert t.books[i] in s.books;
    }
  }

  /** `rows` is `all` without some of its rows, in order. */
  lemma {:induction false} OtherFollowsMeans(all: seq<Candidate>, followId: nat)
    requires DistinctIds(all) && UniqueKeys(all)
    ensures DistinctIds(OtherFollows(all, followId)) && UniqueKeys(OtherFollows(all, followId))
    ensures forall c :: c in OtherFollows(all, followId) <==> c in all && c.followId != followId
  {
    if all != [] {
      var n := |all| - 1;
      OtherFollowsMeans(all[..n], followId);
      var before := OtherFollows(all[..n], followId);
      forall i | 0 <= i < |before|
        ensures before[i].id != all[n].id
        ensures !SameKey(all[n], before[i].followId, before[i].provider, before[i].providerBookId)
      {
        assert before[i] in all[..n];
        var k :| 0 <= k < n && all[k] == before[i];
      }
      assert forall c :: c in all <==> c in all[..n] || c == all[n];
    }
  }

  /**
   The follow goes with exactly its own candidates, the other rows are untouched, the books
   created from it stay, and the invariant holds.
   */
  lemma FollowDeletedKeeps(s: Store, followId: nat)
    requires Consistent(s)
    ensures var t := FollowDeleted(s, followId);
      && Consistent(t) && followId !in t.follows && t.books == s.books && t.attributions == s.attributions
      && (followId !in s.follows ==> t == s)
      && (followId in s.follows ==> forall c :: HasCandidate(t, c) <==> HasCandidate(s, c) && c.followId != followId)
      && forall f :: f != followId ==> (f in t.follows <==> f in s.follows)
  {
    OtherFollowsMeans(s.candidates, followId);
    var t := FollowDeleted(s, followId);
    assert forall c :: HasCandidate(t, c) <==> c in t.candidates;
    assert forall c :: HasCandidate(s, c) <==> c in s.candidates;
    forall i | 0 <= i < |t.candidates|
      ensures Linked(t, t.candidates[i])
    {
      assert t.candidates[i] in s.candidates;
    }
  }

  // ---------- every operation ----------

  lemma AddedKept(s: Store, followId: nat, ids: seq<nat>, today: int, locale: string)
    requires Consistent(s)
    ensures Kept(s, AddedStore(s, followId, ids, today, locale))
  {
    KeptReflexive(s);
    if followId in s.follows {
      hide Kept, Reconciled;
      var r := Reconciled(s, Some(followId), today);
      ReconcileKept(s, Some(followId), today);
      KeptConsistent(s, r);
      AddAllKept(r, followId, Distinct(ids), locale);
      KeptTransitive(s, r, AddAll(r, followId, Distinct(ids), locale));
    }
  }

  lemma RefreshKept(s: Store, followId: nat, hits: seq<Hit>, today: int, locale: string)
    requires Consistent(s)
    ensures Kept(s, RefreshedStore(s, followId, hits, today, locale))
  {
    KeptReflexive(s);
    if followId in s.follows {
      RefreshMeans(s, followId, hits, today, locale);
    }
  }

  /**
   One operation: the table invariant is kept, candidate keys stay unique per follow, rows
   make only the allowed transitions, and no operation but book deletion changes who owns an
   already owned provider id or gives an unowned one two owners.
   */
  lemma ApplyKeeps(s: Store, op: Op)
    requires Consistent(s)
    ensures Consistent(Apply(s, op)) && s.nextCandidate <= Apply(s, op).nextCandidate
    ensures !op.DeleteFollow? ==> Transitions(op, s, Apply(s, op))
    ensures !op.DeleteBook? ==> OwnersKept(s, Apply(s, op))
  {
    var t := Apply(s, op);
    match op {
      case CreateFollow(f) =>
        NoChangeKeepsOwners(s, t);
        hide OwnersKept;
        assert Kept(s, t);
        KeptTransitions(op, s, t);
      case DeleteFollow(f) =>
        FollowDeletedKeeps(s, f);
        NoChangeKeepsOwners(s, t);
      case Refresh(f, hits, today, locale) =>
        RefreshKept(s, f, hits, today, locale);
        KeptTransitions(op, s, t);
      case Exclude(f, ids, today) =>
        ExcludeKept(s, f, ids, today);
        KeptTransitions(op, s, t);
      case Restore(f, ids, today, locale) =>
        RestoredKept(s, f, ids, today, locale);
        RestoreTransitions(op, s, t);
      case Add(f, ids, today, locale) =>
        AddedKept(s, f, ids, today, locale);
        KeptTransitions(op, s, t);
      case List(scope, today) =>
        ReconcileKept(s, scope, today);
        KeptTransitions(op, s, t);
      case DeleteBook(b) =>
        BookDeletedKeeps(s, b);
    }
  }

  lemma RestoreTransitions(op: Op, s: Store, t: Store)
    requires op.Restore? && Consistent(s) && RestoreKept(s, t, op.followId, op.ids)
    ensures Transitions(op, s, t)
  {
    hide OwnersKept;
    forall i | 0 <= i < |s.candidates|
      ensures Transition(op, s.candidates[i], t.candidates[i])
    {
      assert Linked(s, s.candidates[i]);
      assert RestoreStep(s.candidates[i], t.candidates[i], op.followId, op.ids);
    }
  }

  // ---------- whole runs ----------

  const EMPTY := Store({}, [], [], [], 0, 0)

  lemma {:induction false} RunConsistent(s: Store, ops: seq<Op>)
    requires Consistent(s)
    ensures Consistent(Run(s, ops))
  {
    hide Apply, Consistent;
    if ops != [] {
      RunConsistent(s, ops[..|ops| - 1]);
      ApplyKeeps(Run(s, ops[..|ops| - 1]), ops[|ops| - 1]);
    }
  }

  /** Of one provider id: at most one live copy in `t`, or only copies there were in `s`. */
  ghost predicate NoSecondCopy(s: Store, t: Store, provider: string, providerId: string) {
    || (forall a, b :: Copy(t, a, provider, providerId) && Copy(t, b, provider, providerId) ==> a == b)
    || (forall b :: Copy(t, b, provider, providerId) ==> Copy(s, b, provider, providerId))
  }

  lemma DeletionRemovesCopies(s: Store, book: nat, b: nat, provider: string, providerId: string)
    requires Copy(BookDeleted(s, book), b, provider, providerId)
    ensures Copy(s, b, provider, providerId)
  {
    WithoutBookMeans(s.books, book);
    var t := BookDeleted(s, book);
    if HoldsAsin(t.books, b, providerId) {
      var i :| 0 <= i < |t.books| && t.books[i].id == b && t.books[i].asin == Some(providerId);
      assert t.books[i] in s.books;
    }
  }

  lemma NoSecondCopyStep(s: Store, t: Store, op: Op, provider: string, providerId: string)
    requires Consistent(t) && NoSecondCopy(s, t, provider, providerId)
    ensures NoSecondCopy(s, Apply(t, op), provider, providerId)
  {
    ApplyKeeps(t, op);
    var u := Apply(t, op);
    if op.DeleteBook? {
      forall b | Copy(u, b, provider, providerId)
        ensures Copy(t, b, provider, providerId)
      {
        DeletionRemovesCopies(t, op.book, b, provider, providerId);
      }
      hide Copy;
    } else {
      hide Apply, Copy, Owner, Consistent, Transitions;
      assert OwnersKeptFor(t, u, provider, providerId);
    }
  }

  /**
   From any consistent library, with imported books and ASINs, no run of follow operations and
   deletions creates a second live copy of a provider id.
   */
  lemma {:induction false} RunNoSecondCopy(s: Store, ops: seq<Op>, provider: string, providerId: string)
    requires Consistent(s)
    ensures NoSecondCopy(s, Run(s, ops), provider, providerId)
  {
    hide Apply, NoSecondCopy, Consistent;
    if ops == [] {
      NothingNew(s, provider, providerId);
    } else {
      var before := ops[..|ops| - 1];
      RunNoSecondCopy(s, before, provider, providerId);
      RunConsistent(s, before);
      NoSecondCopyStep(s, Run(s, before), ops[|ops| - 1], provider, providerId);
    }
  }

  lemma NothingNew(s: Store, provider: string, providerId: string)
    ensures NoSecondCopy(s, s, provider, providerId)
  {
  }

  /** No provider id has two live books attributed to it. */
  ghost predicate SingleOwners(s: Store) {
    forall a, b, provider, providerId :: Owner(s, a, provider, providerId) && Owner(s, b, provider, providerId) ==> a == b
  }

  lemma DeletionKeepsSingleOwners(s: Store, book: nat)
    requires SingleOwners(s)
    ensures SingleOwners(BookDeleted(s, book))
  {
    WithoutBookMeans(s.books, book);
    var t := BookDeleted(s, book);
    forall a, b, provider, providerId | Owner(t, a, provider, providerId) && Owner(t, b, provider, providerId)
      ensures a == b
    {
      assert Owner(s, a, provider, providerId) && Owner(s, b, provider, providerId);
    }
  }

  lemma OwnersKeptSingle(s: Store, t: Store)
    requires SingleOwners(s) && OwnersKept(s, t)
    ensures SingleOwners(t)
  {
    hide Owner, HoldsAsin;
    forall a, b, provider, providerId | Owner(t, a, provider, providerId) && Owner(t, b, provider, providerId)
      ensures a == b
    {
      assert OwnersKeptFor(s, t, provider, providerId);
      assert Copy(t, a, provider, providerId) && Copy(t, b, provider, providerId);
    }
  }

  /**
   From any consistent library in which each provider id is attributed to one live book at
   most, every run of follow operations and deletions keeps it so.
   */
  lemma {:induction false} RunSingleOwners(s: Store, ops: seq<Op>)
    requires Consistent(s) && SingleOwners(s)
    ensures Consistent(Run(s, ops)) && SingleOwners(Run(s, ops))
  {
    if ops != [] {
      var n := |ops| - 1;
      RunSingleOwners(s, ops[..n]);
      var t := Run(s, ops[..n]);
      ApplyKeeps(t, ops[n]);
      if ops[n].DeleteBook? {
        DeletionKeepsSingleOwners(t, ops[n].book);
      } else {
        hide Apply, SingleOwners, OwnersKept, Consistent;
        OwnersKeptSingle(t, Apply(t, ops[n]));
      }
    }
  }

  /** In particular from an empty library. */
  lemma RunFromEmpty(ops: seq<Op>)
    ensures Consistent(Run(EMPTY, ops)) && SingleOwners(Run(EMPTY, ops))
  {
    RunSingleOwners(EMPTY, ops);
  }

  ghost predicate HasCandidate(s: Store, c: Candidate) {
    exists i :: 0 <= i < |s.candidates| && s.candidates[i] == c
  }

  /** A row seen after an operation is the successor of the row with its id before. */
  lemma Successor(s: Store, op: Op, c: Candidate, d: Candidate)
    requires Consistent(s) && HasCandidate(s, c) && HasCandidate(Apply(s, op), d) && d.id == c.id
    ensures if op.DeleteFollow? then d == c else Transition(op, c, d)
  {
    ApplyKeeps(s, op);
    var t := Apply(s, op);
    hide Apply;
    var i :| 0 <= i < |s.candidates| && s.candidates[i] == c;
    var j :| 0 <= j < |t.candidates| && t.candidates[j] == d;
    if op.DeleteFollow? {
      DeletedRows(s, op.followId, d);
      var k :| 0 <= k < |s.candidates| && s.candidates[k] == d;
      assert k == i;
    } else {
      assert Transition(op, s.candidates[i], t.candidates[i]);
      assert i == j;
    }
  }

  lemma DeletedRows(s: Store, followId: nat, d: Candidate)
    requires Consistent(s) && HasCandidate(Apply(s, DeleteFollow(followId)), d)
    ensures HasCandidate(s, d)
  {
    OtherFollowsMeans(s.candidates, followId);
    assert d in s.candidates;
  }

  /** A row with an old id was there before the operation: ids are not reused. */
  lemma Survives(s: Store, op: Op, d: Candidate)
    requires Consistent(s) && HasCandidate(Apply(s, op), d) && d.id < s.nextCandidate
    ensures exists c :: HasCandidate(s, c) && c.id == d.id
  {
    if op.DeleteFollow? {
      DeletedRows(s, op.followId, d);
    } else {
      ApplyNewIds(s, op);
      ApplyKeeps(s, op);
      var t := Apply(s, op);
      hide Apply;
      var j :| 0 <= j < |t.candidates| && t.candidates[j] == d;
      assert Transition(op, s.candidates[j], t.candidates[j]);
      assert HasCandidate(s, s.candidates[j]);
    }
  }

  lemma ApplyNewIds(s: Store, op: Op)
    requires Consistent(s) && !op.DeleteFollow?
    ensures forall j :: |s.candidates| <= j < |Apply(s, op).candidates| ==> Apply(s, op).candidates[j].id >= s.nextCandidate
  {
    match op {
      case Refresh(f, hits, today, locale) =>
        if f in s.follows {
          var r := Reconciled(s, Some(f), today);
          ReconcileKeeps(s, Some(f), today);
          var u := UpsertedAll(r, f, hits, today);
          UpsertedMeans(r, f, hits, today);
          UpsertKept(r, f, hits, today);
          var t := Materialized(u, f, locale, |u.candidates|);
          MaterializedMeans(u, f, locale, |u.candidates|);
          hide UpsertedAll, Materialized, Consistent, OwnersKept;
          forall j | |s.candidates| <= j < |t.candidates|
            ensures t.candidates[j].id >= s.nextCandidate
          {
            assert MaterialRow(u.candidates[j], t.candidates[j], f);
          }
        }
      case Add(f, ids, today, locale) =>
        AddCount(Reconciled(s, Some(f), today), f, Distinct(ids), locale);
      case _ =>
    }
  }

  lemma {:induction false} AddCount(s: Store, followId: nat, ids: seq<nat>, locale: string)
    ensures |AddAll(s, followId, ids, locale).candidates| == |s.candidates|
  {
    hide Owned;
    if ids != [] {
      AddCount(s, followId, ids[..|ids| - 1], locale);
    }
  }

  lemma {:induction false} RunIdsGrow(s: Store, ops: seq<Op>)
    requires Consistent(s)
    ensures s.nextCandidate <= Run(s, ops).nextCandidate
  {
    hide Apply, Consistent;
    if ops != [] {
      RunIdsGrow(s, ops[..|ops| - 1]);
      RunConsistent(s, ops[..|ops| - 1]);
      ApplyKeeps(Run(s, ops[..|ops| - 1]), ops[|ops| - 1]);
    }
  }

  /** The same row one operation before the end of the run, and what that operation did to it. */
  lemma BeforeLast(s: Store, ops: seq<Op>, c: Candidate, d: Candidate) returns (e: Candidate)
    requires Consistent(s) && ops != []
    requires HasCandidate(s, c) && HasCandidate(Run(s, ops), d) && d.id == c.id
    ensures e.id == c.id && HasCandidate(Run(s, ops[..|ops| - 1]), e)
    ensures var op := ops[|ops| - 1]; if op.DeleteFollow? then d == e else Transition(op, e, d)
  {
    var n := |ops| - 1;
    var mid := Run(s, ops[..n]);
    RunConsistent(s, ops[..n]);
    RunIdsGrow(s, ops[..n]);
    assert c.id < s.nextCandidate by {
      var i :| 0 <= i < |s.candidates| && s.candidates[i] == c;
      assert Linked(s, c);
    }
    hide Apply, Consistent;
    Survives(mid, ops[n], d);
    e :| HasCandidate(mid, e) && e.id == d.id;
    Successor(mid, ops[n], e, d);
  }

  /**
   Over any run, a candidate that was excluded and no longer is was selected by a restore of
   its own follow in between.
   */
  lemma {:induction false} ExcludedUntilRestored(s: Store, ops: seq<Op>, c: Candidate, d: Candidate)
    requires Consistent(s) && HasCandidate(s, c) && HasCandidate(Run(s, ops), d) && d.id == c.id
    ensures SameRow(c, d)
    ensures c.status.Excluded? && !d.status.Excluded? ==> exists k :: 0 <= k < |ops| && Restores(ops[k], c)
  {
    if ops == [] {
      OneRow(s, c, d);
    } else {
      var n := |ops| - 1;
      var e := BeforeLast(s, ops, c, d);
      hide Apply, Consistent;
      ExcludedUntilRestored(s, ops[..n], c, e);
      if c.status.Excluded? && !d.status.Excluded? {
        if e.status.Excluded? {
          assert Restores(ops[n], c);
        } else {
          var k :| 0 <= k < n && Restores(ops[..n][k], c);
          assert Restores(ops[k], c);
        }
      }
    }
  }

  /**
   Over any run, a linked candidate that has lost its link, and so an added one that is no
   longer added, had that very book deleted in between.
   */
  lemma {:induction false} AddedUntilBookDeleted(s: Store, ops: seq<Op>, c: Candidate, d: Candidate)
    requires Consistent(s) && HasCandidate(s, c) && HasCandidate(Run(s, ops), d) && d.id == c.id
    requires c.bookId.Some? && (d.bookId != c.bookId || !d.status.Added?)
    ensures exists k :: 0 <= k < |ops| && ops[k] == DeleteBook(c.bookId.value)
  {
    RunConsistent(s, ops);
    assert d.bookId != c.bookId by {
      StillAdded(Run(s, ops), d);
    }
    if ops == [] {
      OneRow(s, c, d);
    } else {
      var n := |ops| - 1;
      var e := BeforeLast(s, ops, c, d);
      hide Apply, Consistent;
      if e.bookId == c.bookId {
        assert ops[n] == DeleteBook(c.bookId.value);
      } else {
        AddedUntilBookDeleted(s, ops[..n], c, e);
        var k :| 0 <= k < n && ops[..n][k] == DeleteBook(c.bookId.value);
        assert ops[k] == DeleteBook(c.bookId.value);
      }
    }
  }

  lemma StillAdded(s: Store, d: Candidate)
    requires Consistent(s) && HasCandidate(s, d)
    ensures d.bookId.Some? ==> d.status.Added? && Live(s.books, d.bookId.value)
  {
    var i :| 0 <= i < |s.candidates| && s.candidates[i] == d;
    assert Linked(s, d);
  }

  lemma OneRow(s: Store, c: Candidate, d: Candidate)
    requires Consistent(s) && HasCandidate(s, c) && HasCandidate(s, d) && d.id == c.id
    ensures d == c
  {
  }
}
