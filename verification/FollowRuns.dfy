/** What every follow operation keeps, and what holds over whole runs. */
module FollowRuns {
  import opened Options
  import opened Follows

  // ---------- the table invariant ----------

  ghost predicate UniqueKeys(rows: seq<Candidate>) {
    forall i, j :: 0 <= i < j < |rows| ==>
      !SameKey(rows[j], rows[i].followId, rows[i].provider, rows[i].providerBookId)
  }

  ghost predicate Linked(s: Store, c: Candidate) {
    && c.id < s.nextCandidate
    && (c.bookId.Some? ==> c.status.Added? && Live(s.books, c.bookId.value))
  }

  /** Unique candidate ids and keys, no reused book id, and a link only to a live book. */
  ghost predicate Consistent(s: Store) {
    && DistinctIds(s.candidates) && UniqueKeys(s.candidates)
    && (forall i :: 0 <= i < |s.candidates| ==> Linked(s, s.candidates[i]))
    && (forall i :: 0 <= i < |s.books| ==> s.books[i].id < s.nextBook)
    && (forall i :: 0 <= i < |s.attributions| ==> s.attributions[i].bookId < s.nextBook)
  }

  // ---------- ownership ----------

  ghost predicate Attributed(rows: seq<Attribution>, book: nat, provider: string, providerId: string) {
    exists i :: 0 <= i < |rows| && rows[i].bookId == book && rows[i].provider == provider && rows[i].providerId == providerId
  }

  ghost predicate Owner(s: Store, book: nat, provider: string, providerId: string) {
    Live(s.books, book) && Attributed(s.attributions, book, provider, providerId)
  }

  lemma {:induction false} AttributedMeans(books: seq<Book>, rows: seq<Attribution>, provider: string, providerId: string)
    ensures var r := AttributedBook(books, rows, provider, providerId);
      if r.Some? then Live(books, r.value) && Attributed(rows, r.value, provider, providerId)
      else forall b :: Attributed(rows, b, provider, providerId) ==> !Live(books, b)
  {
    if rows != [] {
      AttributedMeans(books, rows[1..], provider, providerId);
      var matches := rows[0].provider == provider && rows[0].providerId == providerId;
      forall b
        ensures Attributed(rows, b, provider, providerId)
          <==> Attributed(rows[1..], b, provider, providerId) || (matches && rows[0].bookId == b)
      {
        if Attributed(rows[1..], b, provider, providerId) {
          var i :| 0 <= i < |rows[1..]| && rows[1..][i].bookId == b
                && rows[1..][i].provider == provider && rows[1..][i].providerId == providerId;
          assert rows[i + 1] == rows[1..][i];
        }
        assert forall i :: 1 <= i < |rows| ==> rows[i] == rows[1..][i - 1];
      }
    }
  }

  lemma {:induction false} ByAsinMeans(books: seq<Book>, asin: string)
    ensures var r := BookByAsin(books, asin);
      if r.Some? then exists i :: 0 <= i < |books| && books[i].id == r.value && books[i].asin == Some(asin)
      else forall i :: 0 <= i < |books| ==> books[i].asin != Some(asin)
  {
    if books != [] {
      ByAsinMeans(books[1..], asin);
      assert forall i :: 1 <= i < |books| ==> books[i] == books[1..][i - 1];
      var r := BookByAsin(books, asin);
      if r.Some? && books[0].asin != Some(asin) {
        var i :| 0 <= i < |books[1..]| && books[1..][i].id == r.value && books[1..][i].asin == Some(asin);
        assert books[i + 1] == books[1..][i];
      }
    }
  }

  ghost predicate HasAsin(s: Store, asin: string) {
    exists i :: 0 <= i < |s.books| && s.books[i].asin == Some(asin)
  }

  /** A provider id is owned exactly when a live attributed book or a book with that ASIN exists. */
  lemma OwnedMeans(s: Store, provider: string, providerId: string)
    ensures OwnedBookId(s, provider, providerId).Some?
       <==> (exists b :: Owner(s, b, provider, providerId)) || HasAsin(s, providerId)
    ensures OwnedBookId(s, provider, providerId).Some? ==> Live(s.books, OwnedBookId(s, provider, providerId).value)
    ensures (exists b :: Owner(s, b, provider, providerId)) ==>
      Owner(s, OwnedBookId(s, provider, providerId).value, provider, providerId)
  {
    AttributedMeans(s.books, s.attributions, provider, providerId);
    ByAsinMeans(s.books, providerId);
    var r := AttributedBook(s.books, s.attributions, provider, providerId);
    if r.Some? {
      assert Owner(s, r.value, provider, providerId);
    }
  }

  /** The library only grew between two stores. */
  ghost predicate Grown(s: Store, t: Store) {
    s.books <= t.books && s.attributions <= t.attributions && s.nextBook <= t.nextBook
  }

  lemma OwnedStays(s: Store, t: Store, provider: string, providerId: string)
    requires Grown(s, t) && OwnedBookId(s, provider, providerId).Some?
    ensures OwnedBookId(t, provider, providerId).Some?
  {
    OwnedMeans(s, provider, providerId);
    OwnedMeans(t, provider, providerId);
    LiveStays(s, t);
    if b :| Owner(s, b, provider, providerId) {
      AttributedStays(s, t, b, provider, providerId);
      assert Owner(t, b, provider, providerId);
    } else {
      var i :| 0 <= i < |s.books| && s.books[i].asin == Some(providerId);
      assert t.books[i] == s.books[i];
    }
  }

  lemma AttributedStays(s: Store, t: Store, b: nat, provider: string, providerId: string)
    requires Grown(s, t) && Attributed(s.attributions, b, provider, providerId)
    ensures Attributed(t.attributions, b, provider, providerId)
  {
    var i :| 0 <= i < |s.attributions| && s.attributions[i].bookId == b
          && s.attributions[i].provider == provider && s.attributions[i].providerId == providerId;
    assert t.attributions[i] == s.attributions[i];
  }

  lemma LiveStays(s: Store, t: Store)
    requires Grown(s, t)
    ensures forall b :: Live(s.books, b) ==> Live(t.books, b)
  {
    forall b | Live(s.books, b)
      ensures Live(t.books, b)
    {
      var i :| 0 <= i < |s.books| && s.books[i].id == b;
      assert t.books[i] == s.books[i];
    }
  }

  // ---------- row transitions ----------

  /** The same row: id, follow and key never change. */
  predicate SameRow(c: Candidate, d: Candidate) {
    d.id == c.id && SameKey(d, c.followId, c.provider, c.providerBookId)
  }

  /** Rows are updated in place and appended, never removed or reordered. */
  ghost predicate RowsKept(s: Store, t: Store) {
    && |s.candidates| <= |t.candidates| && s.nextCandidate <= t.nextCandidate
    && forall i :: 0 <= i < |s.candidates| ==> SameRow(s.candidates[i], t.candidates[i])
  }

  lemma KeysKept(s: Store, t: Store)
    requires RowsKept(s, t) && |s.candidates| == |t.candidates|
    requires DistinctIds(s.candidates) && UniqueKeys(s.candidates)
    ensures DistinctIds(t.candidates) && UniqueKeys(t.candidates)
  {
  }

  lemma UpdateConsistent(s: Store, t: Store)
    requires Consistent(s) && RowsKept(s, t) && |s.candidates| == |t.candidates|
    requires t.books == s.books && t.attributions == s.attributions && t.nextBook == s.nextBook
    requires forall i :: 0 <= i < |t.candidates| ==>
      t.candidates[i].bookId.Some? ==> t.candidates[i].status.Added? && Live(t.books, t.candidates[i].bookId.value)
    ensures Consistent(t)
  {
    KeysKept(s, t);
  }

  // ---------- reconcile ----------

  lemma ReconcileKeeps(s: Store, scope: Option<nat>, today: int)
    requires Consistent(s)
    ensures var t := Reconciled(s, scope, today);
      && Consistent(t) && Grown(s, t) && RowsKept(s, t) && |t.candidates| == |s.candidates|
      && forall i :: 0 <= i < |t.candidates| && (scope.None? || t.candidates[i].followId == scope.value) ==>
        t.candidates[i].status.Added? ==> t.candidates[i].bookId.Some?
  {
    var t := Reconciled(s, scope, today);
    hide Owned, OwnedBookId, Live;
    forall i | 0 <= i < |t.candidates|
      ensures SameRow(s.candidates[i], t.candidates[i])
      ensures t.candidates[i].bookId.Some? ==> t.candidates[i].status.Added? && Live(t.books, t.candidates[i].bookId.value)
    {
      assert Linked(s, s.candidates[i]);
      OwnerLive(s, s.candidates[i]);
    }
    UpdateConsistent(s, t);
  }

  lemma OwnerLive(s: Store, c: Candidate)
    ensures Owned(s, c).Some? ==> Live(s.books, Owned(s, c).value)
  {
    OwnedMeans(s, c.provider, c.providerBookId);
  }

  // ---------- creating books ----------

  lemma CreateKeeps(s: Store, i: nat, locale: string)
    requires Consistent(s) && i < |s.candidates|
    ensures var t := CreateBook(s, i, locale);
      Consistent(t) && Grown(s, t) && RowsKept(s, t) && |t.candidates| == |s.candidates|
  {
    var t := CreateBook(s, i, locale);
    assert Grown(s, t);
    LiveStays(s, t);
    assert Live(t.books, s.nextBook) by {
      assert t.books[|s.books|].id == s.nextBook;
    }
    KeysKept(s, t);
    forall k | 0 <= k < |t.candidates|
      ensures Linked(t, t.candidates[k])
    {
      assert Linked(s, s.candidates[k]);
    }
  }

  /** A created book becomes the one owner of its candidate's provider id. */
  lemma CreateOwns(s: Store, i: nat, locale: string)
    requires Consistent(s) && i < |s.candidates|
    requires s.candidates[i].provider != "" && s.candidates[i].providerBookId != ""
    ensures var c := s.candidates[i];
      && Owner(CreateBook(s, i, locale), s.nextBook, c.provider, c.providerBookId)
      && Attribution(s.nextBook, c.provider, c.providerBookId, locale) in CreateBook(s, i, locale).attributions
  {
    var c, t := s.candidates[i], CreateBook(s, i, locale);
    var row := Attribution(s.nextBook, c.provider, c.providerBookId, locale);
    assert row !in s.attributions;
    assert t.attributions[|s.attributions|] == row;
    assert t.books[|s.books|].id == s.nextBook;
  }

  ghost predicate HoldsAsin(books: seq<Book>, book: nat, asin: string) {
    exists i :: 0 <= i < |books| && books[i].id == book && books[i].asin == Some(asin)
  }

  /** The live books that count as the copy of a provider id: attributed to it, or with that ASIN. */
  ghost predicate Copy(s: Store, book: nat, provider: string, providerId: string) {
    Owner(s, book, provider, providerId) || HoldsAsin(s.books, book, providerId)
  }

  ghost predicate OwnersKeptFor(s: Store, t: Store, provider: string, providerId: string) {
    if exists b :: Copy(s, b, provider, providerId)
    then
      && (forall b :: Owner(t, b, provider, providerId) <==> Owner(s, b, provider, providerId))
      && (forall b :: Copy(t, b, provider, providerId) <==> Copy(s, b, provider, providerId))
    else forall a, b :: Copy(t, a, provider, providerId) && Copy(t, b, provider, providerId) ==> a == b
  }

  /** A provider id with a copy keeps exactly its copies and owners; one without gets at most one. */
  ghost predicate OwnersKept(s: Store, t: Store) {
    forall provider, providerId :: OwnersKeptFor(s, t, provider, providerId)
  }

  lemma NoChangeKeepsOwners(s: Store, t: Store)
    requires t.books == s.books && t.attributions == s.attributions
    ensures OwnersKept(s, t)
  {
    forall provider, providerId
      ensures OwnersKeptFor(s, t, provider, providerId)
    {
      assert forall b :: Owner(t, b, provider, providerId) <==> Owner(s, b, provider, providerId);
      assert forall b :: Copy(t, b, provider, providerId) <==> Copy(s, b, provider, providerId);
    }
  }

  lemma OwnersKeptTransitive(s: Store, t: Store, u: Store)
    requires OwnersKept(s, t) && OwnersKept(t, u)
    ensures OwnersKept(s, u)
  {
    hide Owner, Copy;
    forall provider, providerId
      ensures OwnersKeptFor(s, u, provider, providerId)
    {
      assert OwnersKeptFor(s, t, provider, providerId) && OwnersKeptFor(t, u, provider, providerId);
    }
  }

  /** The new book owns its candidate's provider id, unless that has an empty half. */
  ghost predicate NewOwner(s: Store, i: nat, b: nat, provider: string, providerId: string)
    requires i < |s.candidates|
  {
    var c := s.candidates[i];
    && b == s.nextBook && provider == c.provider && providerId == c.providerBookId
    && provider != "" && providerId != ""
  }

  lemma CreateOwnersAt(s: Store, i: nat, locale: string, b: nat, provider: string, providerId: string)
    requires Consistent(s) && i < |s.candidates|
    ensures var before, after := Owner(s, b, provider, providerId), Owner(CreateBook(s, i, locale), b, provider, providerId);
      after <==> before || NewOwner(s, i, b, provider, providerId)
  {
    var c, t := s.candidates[i], CreateBook(s, i, locale);
    if NewOwner(s, i, b, provider, providerId) {
      CreateOwns(s, i, locale);
    }
    if Owner(s, b, provider, providerId) {
      AttributedStays(s, t, b, provider, providerId);
      LiveStays(s, t);
    }
    if Owner(t, b, provider, providerId) {
      var k :| 0 <= k < |t.attributions| && t.attributions[k].bookId == b
            && t.attributions[k].provider == provider && t.attributions[k].providerId == providerId;
      var m :| 0 <= m < |t.books| && t.books[m].id == b;
      if k < |s.attributions| {
        assert s.attributions[k] == t.attributions[k];
        assert m < |s.books| && s.books[m] == t.books[m];
        assert Owner(s, b, provider, providerId);
      }
    }
  }

  /** A created book has no ASIN. */
  lemma CreateAsinsAt(s: Store, i: nat, locale: string, b: nat, asin: string)
    requires i < |s.candidates|
    ensures HoldsAsin(CreateBook(s, i, locale).books, b, asin) <==> HoldsAsin(s.books, b, asin)
  {
    var t := CreateBook(s, i, locale);
    assert forall k :: 0 <= k < |s.books| ==> t.books[k] == s.books[k];
  }

  lemma AsinHolder(s: Store, b: nat, asin: string)
    requires HoldsAsin(s.books, b, asin)
    ensures HasAsin(s, asin)
  {
  }

  /** Nobody holds a copy of an id that is not owned. */
  lemma UnownedHasNoCopy(s: Store, provider: string, providerId: string, b: nat)
    requires OwnedBookId(s, provider, providerId).None?
    ensures !Copy(s, b, provider, providerId)
  {
    OwnedMeans(s, provider, providerId);
    if HoldsAsin(s.books, b, providerId) {
      AsinHolder(s, b, providerId);
    }
  }

  /** A book is created only for an id without a copy, so no second copy appears. */
  lemma CreateKeepsOwners(s: Store, i: nat, locale: string)
    requires Consistent(s) && i < |s.candidates| && Owned(s, s.candidates[i]).None?
    ensures OwnersKept(s, CreateBook(s, i, locale))
  {
    var c, t := s.candidates[i], CreateBook(s, i, locale);
    hide Owner, CreateBook, Consistent, OwnedBookId, HoldsAsin;
    forall provider, providerId
      ensures OwnersKeptFor(s, t, provider, providerId)
    {
      forall b
        ensures Owner(t, b, provider, providerId)
          <==> Owner(s, b, provider, providerId) || NewOwner(s, i, b, provider, providerId)
        ensures Copy(t, b, provider, providerId)
          <==> Copy(s, b, provider, providerId) || NewOwner(s, i, b, provider, providerId)
        ensures provider == c.provider && providerId == c.providerBookId ==> !Copy(s, b, provider, providerId)
      {
        CreateOwnersAt(s, i, locale, b, provider, providerId);
        CreateAsinsAt(s, i, locale, b, providerId);
        if provider == c.provider && providerId == c.providerBookId {
          UnownedHasNoCopy(s, provider, providerId, b);
        }
      }
      hide Copy;
    }
  }
}
