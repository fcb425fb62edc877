/**
 Author and series follows (app/api/routes_follows.py) over the tables they read and write.
 The functions on `Store` say what each operation does to the tables; the class performs
 the operations row by row.
 */
module Follows {
  import opened Options

  datatype Status = Future | Backlog | Excluded | Added {
    predicate Pending() {
      Future? || Backlog?
    }
  }

  /** Provider metadata; `released` is the parsed release date as a day number. */
  datatype Meta = Meta(details: string, released: Option<int>)

  datatype Candidate = Candidate(
    id: nat,
    followId: nat,
    provider: string,
    providerBookId: string,
    meta: Meta,
    status: Status,
    bookId: Option<nat>)

  datatype Book = Book(id: nat, asin: Option<string>)

  /** A `provider_ids` row of a book; rows outlive the book. */
  datatype Attribution = Attribution(bookId: nat, provider: string, providerId: string, locale: string)

  datatype Hit = Hit(provider: string, asin: string, uid: string, meta: Meta)

  /** Table rows in id order; ids are never reused. */
  datatype Store = Store(
    follows: set<nat>,
    candidates: seq<Candidate>,
    books: seq<Book>,
    attributions: seq<Attribution>,
    nextCandidate: nat,
    nextBook: nat)

  // ---------- queries ----------

  /** `future` only for a known date strictly after today. */
  function Classify(released: Option<int>, today: int): Status {
    if released.Some? && released.value > today then Future else Backlog
  }

  predicate Live(books: seq<Book>, id: nat) {
    exists i :: 0 <= i < |books| && books[i].id == id
  }

  function AttributedBook(books: seq<Book>, rows: seq<Attribution>, provider: string, providerId: string): Option<nat> {
    if rows == [] then None
    else if rows[0].provider == provider && rows[0].providerId == providerId && Live(books, rows[0].bookId) then
      Some(rows[0].bookId)
    else AttributedBook(books, rows[1..], provider, providerId)
  }

  function BookByAsin(books: seq<Book>, asin: string): Option<nat> {
    if books == [] then None
    else if books[0].asin == Some(asin) then Some(books[0].id)
    else BookByAsin(books[1..], asin)
  }

  /** The library book for a provider id: by attribution first, by ASIN second. */
  function OwnedBookId(s: Store, provider: string, providerId: string): Option<nat> {
    var attributed := AttributedBook(s.books, s.attributions, provider, providerId);
    if attributed.Some? then attributed else BookByAsin(s.books, providerId)
  }

  function Owned(s: Store, c: Candidate): Option<nat> {
    OwnedBookId(s, c.provider, c.providerBookId)
  }

  predicate SameKey(c: Candidate, followId: nat, provider: string, providerBookId: string) {
    c.followId == followId && c.provider == provider && c.providerBookId == providerBookId
  }

  function FindKey(rows: seq<Candidate>, followId: nat, provider: string, providerBookId: string): (r: Option<nat>)
    ensures r.Some? ==> r.value < |rows| && SameKey(rows[r.value], followId, provider, providerBookId)
    ensures r.None? ==> forall i :: 0 <= i < |rows| ==> !SameKey(rows[i], followId, provider, providerBookId)
  {
    if rows == [] then None
    else
      var before := FindKey(rows[..|rows| - 1], followId, provider, providerBookId);
      if before.Some? then before
      else if SameKey(rows[|rows| - 1], followId, provider, providerBookId) then Some(|rows| - 1)
      else None
  }

  function FindId(rows: seq<Candidate>, id: nat, followId: nat): (r: Option<nat>)
    ensures r.Some? ==> r.value < |rows| && rows[r.value].id == id && rows[r.value].followId == followId
    ensures r.None? ==> forall i :: 0 <= i < |rows| ==> !(rows[i].id == id && rows[i].followId == followId)
  {
    if rows == [] then None
    else
      var before := FindId(rows[..|rows| - 1], id, followId);
      if before.Some? then before
      else if rows[|rows| - 1].id == id && rows[|rows| - 1].followId == followId then Some(|rows| - 1)
      else None
  }

  /** The row of the follow for this hit, with its metadata; while pending, its date decides. */
  predicate HoldsHit(c: Candidate, followId: nat, h: Hit, today: int) {
    && c.followId == followId && c.provider == h.provider && c.providerBookId == (if h.asin != "" then h.asin else h.uid)
    && c.meta == h.meta
    && (c.status == Future ==> h.meta.released.Some? && h.meta.released.value > today)
    && (c.status == Backlog ==> h.meta.released.None? || h.meta.released.value <= today)
  }

  // ---------- what the operations do ----------

  /** An `added` candidate whose book is gone is linked to another owner or reclassified. */
  function ReconcileRow(s: Store, scope: Option<nat>, today: int, c: Candidate): Candidate {
    if c.status.Added? && c.bookId.None? && (scope.None? || c.followId == scope.value) then
      var owner := Owned(s, c);
      if owner.Some? then c.(bookId := owner) else c.(status := Classify(c.meta.released, today))
    else c
  }

  function ReconcileRows(s: Store, scope: Option<nat>, today: int): (rows: seq<Candidate>)
    ensures |rows| == |s.candidates|
    ensures forall i :: 0 <= i < |rows| ==> rows[i] == ReconcileRow(s, scope, today, s.candidates[i])
  {
    seq(|s.candidates|, i requires 0 <= i < |s.candidates| => ReconcileRow(s, scope, today, s.candidates[i]))
  }

  function Reconciled(s: Store, scope: Option<nat>, today: int): Store {
    s.(candidates := ReconcileRows(s, scope, today))
  }

  /** A new book for row `i`, attributed unless the provider or id is empty. */
  function CreateBook(s: Store, i: nat, locale: string): Store
    requires i < |s.candidates|
  {
    var c := s.candidates[i];
    var row := Attribution(s.nextBook, c.provider, c.providerBookId, locale);
    s.(
      books := s.books + [Book(s.nextBook, None)],
      attributions := if c.provider == "" || c.providerBookId == "" || row in s.attributions
                      then s.attributions else s.attributions + [row],
      candidates := s.candidates[i := c.(status := Added, bookId := Some(s.nextBook))],
      nextBook := s.nextBook + 1)
  }

  predicate NeedsBook(s: Store, i: nat, followId: nat)
    requires i < |s.candidates|
  {
    var c := s.candidates[i];
    c.followId == followId && c.status.Future? && Owned(s, c).None?
  }

  /** Books created for the not yet owned `future` rows among the first `k`. */
  function Materialized(s: Store, followId: nat, locale: string, k: nat): (r: Store)
    requires k <= |s.candidates|
    ensures |r.candidates| == |s.candidates|
  {
    if k == 0 then s
    else
      var before := Materialized(s, followId, locale, k - 1);
      if NeedsBook(before, k - 1, followId) then CreateBook(before, k - 1, locale) else before
  }

  function HitId(h: Hit): string {
    if h.asin != "" then h.asin else h.uid
  }

  function Refreshed(c: Candidate, meta: Meta, today: int): Candidate {
    c.(meta := meta, status := if c.status.Pending() then Classify(meta.released, today) else c.status)
  }

  function Upserted(s: Store, followId: nat, h: Hit, today: int): Store {
    var id := HitId(h);
    var found := FindKey(s.candidates, followId, h.provider, id);
    if id == "" then s
    else if found.Some? then
      s.(candidates := s.candidates[found.value := Refreshed(s.candidates[found.value], h.meta, today)])
    else
      s.(
        candidates := s.candidates
          + [Candidate(s.nextCandidate, followId, h.provider, id, h.meta, Classify(h.meta.released, today), None)],
        nextCandidate := s.nextCandidate + 1)
  }

  function UpsertedAll(s: Store, followId: nat, hits: seq<Hit>, today: int): Store {
    if hits == [] then s
    else Upserted(UpsertedAll(s, followId, hits[..|hits| - 1], today), followId, hits[|hits| - 1], today)
  }

  function RefreshedStore(s: Store, followId: nat, hits: seq<Hit>, today: int, locale: string): Store {
    if followId !in s.follows then s
    else
      var upserted := UpsertedAll(Reconciled(s, Some(followId), today), followId, hits, today);
      Materialized(upserted, followId, locale, |upserted.candidates|)
  }

  predicate Selected(c: Candidate, followId: nat, ids: seq<nat>) {
    c.followId == followId && c.id in ids
  }

  function ExcludeRow(c: Candidate, followId: nat, ids: seq<nat>): Candidate {
    if Selected(c, followId, ids) && c.status.Pending() then c.(status := Excluded) else c
  }

  function ExcludeRows(rows: seq<Candidate>, followId: nat, ids: seq<nat>): (r: seq<Candidate>)
    ensures |r| == |rows| && forall i :: 0 <= i < |r| ==> r[i] == ExcludeRow(rows[i], followId, ids)
  {
    seq(|rows|, i requires 0 <= i < |rows| => ExcludeRow(rows[i], followId, ids))
  }

  function ExcludedStore(s: Store, followId: nat, ids: seq<nat>, today: int): Store {
    if followId !in s.follows then s
    else
      var r := Reconciled(s, Some(followId), today);
      r.(candidates := ExcludeRows(r.candidates, followId, ids))
  }

  function RestoreRow(c: Candidate, followId: nat, ids: seq<nat>, today: int): Candidate {
    if Selected(c, followId, ids) && c.status.Excluded? then c.(status := Classify(c.meta.released, today)) else c
  }

  function RestoreRows(rows: seq<Candidate>, followId: nat, ids: seq<nat>, today: int): (r: seq<Candidate>)
    ensures |r| == |rows| && forall i :: 0 <= i < |r| ==> r[i] == RestoreRow(rows[i], followId, ids, today)
  {
    seq(|rows|, i requires 0 <= i < |rows| => RestoreRow(rows[i], followId, ids, today))
  }

  function RestoredStore(s: Store, followId: nat, ids: seq<nat>, today: int, locale: string): Store {
    if followId !in s.follows then s
    else
      var r := Reconciled(s, Some(followId), today);
      var rows := RestoreRows(r.candidates, followId, ids, today);
      if rows == r.candidates then r
      else Materialized(r.(candidates := rows), followId, locale, |rows|)
  }

  function AddOne(s: Store, followId: nat, id: nat, locale: string): Store {
    var found := FindId(s.candidates, id, followId);
    if found.Some? && s.candidates[found.value].status.Backlog? && Owned(s, s.candidates[found.value]).None? then
      CreateBook(s, found.value, locale)
    else s
  }

  function AddAll(s: Store, followId: nat, ids: seq<nat>, locale: string): Store {
    if ids == [] then s else AddOne(AddAll(s, followId, ids[..|ids| - 1], locale), followId, ids[|ids| - 1], locale)
  }

  function AddedStore(s: Store, followId: nat, ids: seq<nat>, today: int, locale: string): Store {
    if followId !in s.follows then s
    else AddAll(Reconciled(s, Some(followId), today), followId, Distinct(ids), locale)
  }

  /** `dict.fromkeys(ids)` */
  function Distinct(ids: seq<nat>): (r: seq<nat>)
    ensures forall x :: x in r <==> x in ids
  {
    if ids == [] then []
    else
      var before := Distinct(ids[..|ids| - 1]);
      var last := ids[|ids| - 1];
      assert forall x :: x in ids <==> x in ids[..|ids| - 1] || x == last;
      if last in before then before else before + [last]
  }

  // ---------- what the selecting operations answer ----------

  datatype SkipReason = NotFound | HasStatus(status: Status) | AlreadyOwned

  datatype Verdict = Change | Skip(reason: SkipReason)

  datatype ActionOut = ActionOut(changed: seq<nat>, skipped: seq<(nat, SkipReason)>)

  function ExcludeVerdict(rows: seq<Candidate>, followId: nat, id: nat): Verdict {
    var found := FindId(rows, id, followId);
    if found.None? then Skip(NotFound)
    else if !rows[found.value].status.Pending() then Skip(HasStatus(rows[found.value].status))
    else Change
  }

  function RestoreVerdict(rows: seq<Candidate>, followId: nat, id: nat): Verdict {
    var found := FindId(rows, id, followId);
    if found.None? then Skip(NotFound)
    else if !rows[found.value].status.Excluded? then Skip(HasStatus(rows[found.value].status))
    else Change
  }

  function AddVerdict(s: Store, followId: nat, id: nat): Verdict {
    var found := FindId(s.candidates, id, followId);
    if found.None? then Skip(NotFound)
    else if !s.candidates[found.value].status.Backlog? then Skip(HasStatus(s.candidates[found.value].status))
    else if Owned(s, s.candidates[found.value]).Some? then Skip(AlreadyOwned)
    else Change
  }

  function Answered(out: ActionOut, id: nat, verdict: Verdict): ActionOut {
    if verdict.Change? then out.(changed := out.changed + [id])
    else out.(skipped := out.skipped + [(id, verdict.reason)])
  }

  function ExcludeAnswer(rows: seq<Candidate>, followId: nat, ids: seq<nat>): ActionOut {
    if ids == [] then ActionOut([], [])
    else
      var n := |ids| - 1;
      Answered(ExcludeAnswer(rows, followId, ids[..n]), ids[n], ExcludeVerdict(rows, followId, ids[n]))
  }

  function RestoreAnswer(rows: seq<Candidate>, followId: nat, ids: seq<nat>): ActionOut {
    if ids == [] then ActionOut([], [])
    else
      var n := |ids| - 1;
      Answered(RestoreAnswer(rows, followId, ids[..n]), ids[n], RestoreVerdict(rows, followId, ids[n]))
  }

  /** Each id is judged after the books for the ids before it were created. */
  function AddAnswer(s: Store, followId: nat, ids: seq<nat>, locale: string): ActionOut {
    if ids == [] then ActionOut([], [])
    else
      var n := |ids| - 1;
      Answered(AddAnswer(s, followId, ids[..n], locale), ids[n], AddVerdict(AddAll(s, followId, ids[..n], locale), followId, ids[n]))
  }

  // ---------- deletions ----------

  function UnlinkRow(c: Candidate, book: nat): Candidate {
    if c.bookId == Some(book) then c.(bookId := None) else c
  }

  function UnlinkRows(rows: seq<Candidate>, book: nat): (r: seq<Candidate>)
    ensures |r| == |rows| && forall i :: 0 <= i < |r| ==> r[i] == UnlinkRow(rows[i], book)
  {
    seq(|rows|, i requires 0 <= i < |rows| => UnlinkRow(rows[i], book))
  }

  function WithoutBook(books: seq<Book>, id: nat): seq<Book> {
    if books == [] then []
    else WithoutBook(books[..|books| - 1], id) + if books[|books| - 1].id == id then [] else [books[|books| - 1]]
  }

  /** `DELETE FROM books`, with `ON DELETE SET NULL` on the candidates. */
  function BookDeleted(s: Store, book: nat): Store {
    s.(books := WithoutBook(s.books, book), candidates := UnlinkRows(s.candidates, book))
  }

  function OtherFollows(rows: seq<Candidate>, followId: nat): seq<Candidate> {
    if rows == [] then []
    else OtherFollows(rows[..|rows| - 1], followId) + if rows[|rows| - 1].followId == followId then [] else [rows[|rows| - 1]]
  }

  /** `DELETE FROM follows`, with `ON DELETE CASCADE` on the candidates; refused for a missing follow. */
  function FollowDeleted(s: Store, followId: nat): Store {
    if followId !in s.follows then s
    else s.(follows := s.follows - {followId}, candidates := OtherFollows(s.candidates, followId))
  }

  // ---------- the operations, row by row ----------

  class FollowStore {
    var follows: set<nat>
    var candidates: seq<Candidate>
    var books: seq<Book>
    var attributions: seq<Attribution>
    var nextCandidate: nat
    var nextBook: nat

    function Now(): Store
      reads this
    {
      Store(follows, candidates, books, attributions, nextCandidate, nextBook)
    }

    constructor ()
      ensures Now() == Store({}, [], [], [], 0, 0)
    {
      follows, candidates, books, attributions := {}, [], [], [];
      nextCandidate, nextBook := 0, 0;
    }

    method ReconcileAdded(scope: Option<nat>, today: int)
      modifies this`candidates
      ensures Now() == Reconciled(old(Now()), scope, today)
    {
      hide OwnedBookId;
      ghost var start := Now();
      var rows := candidates;
      for i := 0 to |rows|
        invariant Now() == start.(candidates := candidates) && |candidates| == |rows|
        invariant forall k :: 0 <= k < i ==> candidates[k] == ReconcileRow(start, scope, today, rows[k])
        invariant forall k :: i <= k < |rows| ==> candidates[k] == rows[k]
      {
        var c := rows[i];
        if c.status.Added? && c.bookId.None? && (scope.None? || c.followId == scope.value) {
          OwnershipIgnoresCandidates(Now(), start, c);
          var owner := Owned(Now(), c);
          if owner.Some? {
            candidates := candidates[i := c.(bookId := owner)];
          } else {
            candidates := candidates[i := c.(status := Classify(c.meta.released, today))];
          }
        }
      }
      assert candidates == ReconcileRows(start, scope, today);
    }

    /** `create_book` and the candidate's own update. */
    method CreateCandidateBook(i: nat, locale: string)
      requires i < |candidates|
      modifies this
      ensures Now() == CreateBook(old(Now()), i, locale)
    {
      var c := candidates[i];
      var id := nextBook;
      books := books + [Book(id, None)];
      nextBook := nextBook + 1;
      AddProviderId(id, c.provider, c.providerBookId, locale);
      candidates := candidates[i := c.(status := Added, bookId := Some(id))];
    }

    /** `INSERT OR IGNORE`, skipped for an empty provider or id. */
    method AddProviderId(bookId: nat, provider: string, providerId: string, locale: string)
      modifies this`attributions
      ensures var row := Attribution(bookId, provider, providerId, locale);
        attributions == if provider == "" || providerId == "" || row in old(attributions)
                        then old(attributions) else old(attributions) + [row]
    {
      if provider == "" || providerId == "" {
        return;
      }
      var row := Attribution(bookId, provider, providerId, locale);
      if row !in attributions {
        attributions := attributions + [row];
      }
    }

    method MaterializeFuture(followId: nat, locale: string) returns (created: nat)
      modifies this
      ensures Now() == Materialized(old(Now()), followId, locale, |old(candidates)|)
      ensures created == |books| - |old(books)|
    {
      hide OwnedBookId, CreateBook;
      created := 0;
      ghost var start := Now();
      for i := 0 to |candidates|
        invariant |candidates| == |start.candidates|
        invariant Now() == Materialized(start, followId, locale, i)
        invariant created == |books| - |start.books|
      {
        var c := candidates[i];
        if c.followId == followId && c.status.Future? {
          var owner := Owned(Now(), c);
          if owner.None? {
            CreateBookGrows(Now(), i, locale);
            CreateCandidateBook(i, locale);
            created := created + 1;
          }
        }
      }
    }

    method UpsertCandidate(followId: nat, h: Hit, today: int) returns (inserted: bool)
      requires HitId(h) != ""
      modifies this
      ensures Now() == Upserted(old(Now()), followId, h, today)
      ensures |candidates| == |old(candidates)| + if inserted then 1 else 0
      ensures exists i :: 0 <= i < |candidates| && HoldsHit(candidates[i], followId, h, today)
      ensures forall i :: 0 <= i < |old(candidates)| && old(candidates)[i].status in {Excluded, Added} ==>
        candidates[i].status == old(candidates)[i].status
    {
      var id := HitId(h);
      var existing := FindKey(candidates, followId, h.provider, id);
      if existing.None? {
        candidates := candidates
          + [Candidate(nextCandidate, followId, h.provider, id, h.meta, Classify(h.meta.released, today), None)];
        nextCandidate := nextCandidate + 1;
        assert HoldsHit(candidates[|candidates| - 1], followId, h, today);
        return true;
      }
      var i := existing.value;
      var c := candidates[i].(meta := h.meta);
      if c.status.Pending() {
        c := c.(status := Classify(h.meta.released, today));
      }
      candidates := candidates[i := c];
      assert HoldsHit(candidates[i], followId, h, today);
      return false;
    }

    /** The writing half of a refresh, after the provider answered. */
    method Refresh(followId: nat, hits: seq<Hit>, today: int, locale: string) returns (ok: bool, inserted: nat, created: nat)
      modifies this
      ensures ok <==> followId in old(follows)
      ensures Now() == RefreshedStore(old(Now()), followId, hits, today, locale)
      ensures inserted == |candidates| - |old(candidates)| && created == |books| - |old(books)|
    {
      hide Upserted, Materialized, ReconcileRows, HitId;
      inserted, created := 0, 0;
      if followId !in follows {
        return false, 0, 0;
      }
      ReconcileAdded(Some(followId), today);
      ghost var start := Now();
      for n := 0 to |hits|
        invariant Now() == UpsertedAll(start, followId, hits[..n], today)
        invariant inserted == |candidates| - |start.candidates| && books == start.books
      {
        assert hits[..n + 1][..n] == hits[..n];
        if HitId(hits[n]) != "" {
          UpsertKeepsBooks(Now(), followId, hits[n], today);
          var isNew := UpsertCandidate(followId, hits[n], today);
          if isNew {
            inserted := inserted + 1;
          }
        } else {
          UpsertNothing(Now(), followId, hits[n], today);
        }
      }
      assert hits[..|hits|] == hits;
      created := MaterializeFuture(followId, locale);
      ok := true;
    }

    /** The rows are selected first, as they are after reconciling; the answer lists each id once. */
    method Exclude(followId: nat, ids: seq<nat>, today: int) returns (ok: bool, out: ActionOut)
      requires DistinctIds(candidates)
      modifies this`candidates
      ensures ok <==> followId in old(follows)
      ensures Now() == ExcludedStore(old(Now()), followId, ids, today)
      ensures ok ==> out == ExcludeAnswer(Reconciled(old(Now()), Some(followId), today).candidates, followId, Distinct(ids))
    {
      hide Reconciled, ExcludeRows, FindId, Distinct, DistinctIds;
      out := ActionOut([], []);
      if followId !in follows {
        return false, out;
      }
      ReconciledIds(Now(), Some(followId), today);
      ReconcileAdded(Some(followId), today);
      ghost var start := Now();
      var rows, selected := candidates, Distinct(ids);
      ExcludeDistinct(rows, followId, ids);
      for n := 0 to |selected|
        invariant Now() == start.(candidates := candidates)
        invariant candidates == ExcludeRows(rows, followId, selected[..n])
        invariant out == ExcludeAnswer(rows, followId, selected[..n])
      {
        assert selected[..n + 1][..n] == selected[..n];
        assert selected[..n + 1] == selected[..n] + [selected[n]];
        var found := FindId(rows, selected[n], followId);
        ghost var before := candidates;
        if found.None? {
          out := out.(skipped := out.skipped + [(selected[n], NotFound)]);
        } else if !rows[found.value].status.Pending() {
          out := out.(skipped := out.skipped + [(selected[n], HasStatus(rows[found.value].status))]);
        } else {
          candidates := candidates[found.value := candidates[found.value].(status := Excluded)];
          out := out.(changed := out.changed + [selected[n]]);
        }
        ExcludeOneMore(rows, before, candidates, followId, selected[..n], selected[n]);
      }
      assert selected[..|selected|] == selected;
      ok := true;
    }

    method Restore(followId: nat, ids: seq<nat>, today: int, locale: string) returns (ok: bool, out: ActionOut)
      requires DistinctIds(candidates)
      modifies this
      ensures ok <==> followId in old(follows)
      ensures Now() == RestoredStore(old(Now()), followId, ids, today, locale)
      ensures ok ==> out == RestoreAnswer(Reconciled(old(Now()), Some(followId), today).candidates, followId, Distinct(ids))
    {
      hide Materialized, Reconciled, RestoreRows, FindId, Distinct, DistinctIds;
      out := ActionOut([], []);
      if followId !in follows {
        return false, out;
      }
      ReconciledIds(Now(), Some(followId), today);
      ReconcileAdded(Some(followId), today);
      ghost var start := Now();
      var rows, selected := candidates, Distinct(ids);
      RestoreDistinct(rows, followId, ids, today);
      for n := 0 to |selected|
        invariant Now() == start.(candidates := candidates)
        invariant candidates == RestoreRows(rows, followId, selected[..n], today)
        invariant out == RestoreAnswer(rows, followId, selected[..n])
        invariant out.changed != [] <==> candidates != rows
      {
        assert selected[..n + 1][..n] == selected[..n];
        assert selected[..n + 1] == selected[..n] + [selected[n]];
        var found := FindId(rows, selected[n], followId);
        ghost var before := candidates;
        if found.None? {
          out := out.(skipped := out.skipped + [(selected[n], NotFound)]);
        } else if !rows[found.value].status.Excluded? {
          out := out.(skipped := out.skipped + [(selected[n], HasStatus(rows[found.value].status))]);
        } else {
          var status := Classify(rows[found.value].meta.released, today);
          candidates := candidates[found.value := candidates[found.value].(status := status)];
          out := out.(changed := out.changed + [selected[n]]);
          assert candidates[found.value].status != rows[found.value].status;
        }
        RestoreOneMore(rows, before, candidates, followId, selected[..n], selected[n], today);
      }
      assert selected[..|selected|] == selected;
      if out.changed != [] {
        var created := MaterializeFuture(followId, locale);
      }
      ok := true;
    }

    method Add(followId: nat, ids: seq<nat>, today: int, locale: string) returns (ok: bool, out: ActionOut)
      modifies this
      ensures ok <==> followId in old(follows)
      ensures Now() == AddedStore(old(Now()), followId, ids, today, locale)
      ensures ok ==> out == AddAnswer(Reconciled(old(Now()), Some(followId), today), followId, Distinct(ids), locale)
    {
      hide OwnedBookId, CreateBook, Reconciled, Distinct;
      out := ActionOut([], []);
      if followId !in follows {
        return false, out;
      }
      ReconcileAdded(Some(followId), today);
      ghost var start := Now();
      var selected := Distinct(ids);
      for n := 0 to |selected|
        invariant Now() == AddAll(start, followId, selected[..n], locale)
        invariant out == AddAnswer(start, followId, selected[..n], locale)
      {
        assert selected[..n + 1][..n] == selected[..n];
        var found := FindId(candidates, selected[n], followId);
        if found.None? {
          out := out.(skipped := out.skipped + [(selected[n], NotFound)]);
        } else if !candidates[found.value].status.Backlog? {
          out := out.(skipped := out.skipped + [(selected[n], HasStatus(candidates[found.value].status))]);
        } else {
          var owner := Owned(Now(), candidates[found.value]);
          if owner.Some? {
            out := out.(skipped := out.skipped + [(selected[n], AlreadyOwned)]);
          } else {
            CreateCandidateBook(found.value, locale);
            out := out.(changed := out.changed + [selected[n]]);
          }
        }
      }
      assert selected[..|selected|] == selected;
      ok := true;
    }

    /** `delete_book`: says whether there was such a book. */
    method DeleteBook(id: nat) returns (ok: bool)
      modifies this
      ensures ok <==> Live(old(books), id)
      ensures Now() == BookDeleted(old(Now()), id)
    {
      ok := exists i :: 0 <= i < |books| && books[i].id == id;
      books := WithoutBook(books, id);
      candidates := UnlinkRows(candidates, id);
    }

    method DeleteFollow(id: nat) returns (ok: bool)
      modifies this
      ensures ok <==> id in old(follows)
      ensures Now() == FollowDeleted(old(Now()), id)
    {
      if id !in follows {
        return false;
      }
      follows := follows - {id};
      candidates := OtherFollows(candidates, id);
      ok := true;
    }
  }

  // ---------- lemmas the row loops need ----------

  lemma OwnershipIgnoresCandidates(a: Store, b: Store, c: Candidate)
    requires a.books == b.books && a.attributions == b.attributions
    ensures Owned(a, c) == Owned(b, c)
  {
  }

  lemma CreateBookGrows(s: Store, i: nat, locale: string)
    requires i < |s.candidates|
    ensures |CreateBook(s, i, locale).books| == |s.books| + 1
    ensures |CreateBook(s, i, locale).candidates| == |s.candidates|
  {
  }

  lemma UpsertKeepsBooks(s: Store, followId: nat, h: Hit, today: int)
    ensures Upserted(s, followId, h, today).books == s.books
  {
  }

  lemma UpsertNothing(s: Store, followId: nat, h: Hit, today: int)
    requires HitId(h) == ""
    ensures Upserted(s, followId, h, today) == s
  {
  }

  ghost predicate DistinctIds(rows: seq<Candidate>) {
    forall i, j :: 0 <= i < j < |rows| ==> rows[i].id != rows[j].id
  }

  lemma ReconciledIds(s: Store, scope: Option<nat>, today: int)
    requires DistinctIds(s.candidates)
    ensures DistinctIds(Reconciled(s, scope, today).candidates)
  {
  }

  /** Naming a candidate twice is naming it once; naming none changes nothing. */
  lemma ExcludeDistinct(start: seq<Candidate>, followId: nat, ids: seq<nat>)
    ensures ExcludeRows(start, followId, Distinct(ids)) == ExcludeRows(start, followId, ids)
    ensures ExcludeRows(start, followId, Distinct(ids)[..0]) == start
  {
  }

  lemma RestoreDistinct(start: seq<Candidate>, followId: nat, ids: seq<nat>, today: int)
    ensures RestoreRows(start, followId, Distinct(ids), today) == RestoreRows(start, followId, ids, today)
    ensures RestoreRows(start, followId, Distinct(ids)[..0], today) == start
  {
  }

  lemma ExcludeOneMore(start: seq<Candidate>, before: seq<Candidate>, after: seq<Candidate>, followId: nat, ids: seq<nat>, id: nat)
    requires DistinctIds(start) && before == ExcludeRows(start, followId, ids)
    requires after == var found := FindId(start, id, followId);
      if found.Some? && start[found.value].status.Pending()
      then before[found.value := before[found.value].(status := Excluded)] else before
    ensures after == ExcludeRows(start, followId, ids + [id])
  {
    forall i | 0 <= i < |start|
      ensures after[i] == ExcludeRow(start[i], followId, ids + [id])
    {
      assert before[i] == ExcludeRow(start[i], followId, ids);
      var found := FindId(start, id, followId);
      if found.Some? {
        assert before[found.value] == ExcludeRow(start[found.value], followId, ids);
      }
    }
  }

  lemma RestoreOneMore(
      start: seq<Candidate>, before: seq<Candidate>, after: seq<Candidate>, followId: nat, ids: seq<nat>, id: nat, today: int)
    requires DistinctIds(start) && before == RestoreRows(start, followId, ids, today)
    requires after == var found := FindId(start, id, followId);
      if found.Some? && start[found.value].status.Excluded?
      then before[found.value := before[found.value].(status := Classify(start[found.value].meta.released, today))]
      else before
    ensures after == RestoreRows(start, followId, ids + [id], today)
  {
    forall i | 0 <= i < |start|
      ensures after[i] == RestoreRow(start[i], followId, ids + [id], today)
    {
      assert before[i] == RestoreRow(start[i], followId, ids, today);
      var found := FindId(start, id, followId);
      if found.Some? {
        assert before[found.value] == RestoreRow(start[found.value], followId, ids, today);
      }
    }
  }
}
