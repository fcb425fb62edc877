/**
 What excluding, restoring and adding candidates answers (app/api/routes_follows.py): the ids
 listed as changed are those of the rows that changed.
 */
module FollowAnswers {
  import opened Options
  import opened Follows

  predicate NoRepeats(ids: seq<nat>) {
    forall i, j :: 0 <= i < j < |ids| ==> ids[i] != ids[j]
  }

  lemma {:induction false} DistinctOnce(ids: seq<nat>)
    ensures NoRepeats(Distinct(ids))
  {
    if ids != [] {
      DistinctOnce(ids[..|ids| - 1]);
    }
  }

  ghost predicate RowChanged(before: seq<Candidate>, after: seq<Candidate>, id: nat) {
    exists i :: 0 <= i < |before| == |after| && before[i].id == id && before[i] != after[i]
  }

  /** Every id is answered for, once per mention. */
  predicate Complete(out: ActionOut, ids: seq<nat>) {
    |out.changed| + |out.skipped| == |ids|
  }

  ghost predicate Listed(out: ActionOut, id: nat, verdict: Verdict) {
    if verdict.Change? then id in out.changed else (id, verdict.reason) in out.skipped
  }

  lemma AnsweredAll(before: ActionOut, id: nat, verdict: Verdict)
    ensures var out := Answered(before, id, verdict);
      && (forall x, v :: Listed(out, x, v) <==> Listed(before, x, v) || (x == id && v == verdict))
      && |out.changed| + |out.skipped| == |before.changed| + |before.skipped| + 1
  {
  }

  lemma NothingListed(x: nat, v: Verdict)
    ensures !Listed(ActionOut([], []), x, v)
  {
  }

  lemma LastMention(ids: seq<nat>, x: nat)
    requires ids != []
    ensures x in ids <==> x in ids[..|ids| - 1] || x == ids[|ids| - 1]
  {
    assert ids == ids[..|ids| - 1] + [ids[|ids| - 1]];
  }

  /** `out` has no repeats and lists its ids in the order of their first mention in `ids`. */
  ghost predicate InOrder(out: seq<nat>, ids: seq<nat>) {
    && (forall i :: 0 <= i < |out| ==> out[i] in ids)
    && forall i, j :: 0 <= i < j < |out| ==> MentionedBefore(ids, out[i], out[j])
  }

  ghost predicate MentionedBefore(ids: seq<nat>, x: nat, y: nat) {
    exists p :: 0 <= p < |ids| && ids[p] == x && y !in ids[..p + 1]
  }

  lemma Mention(ids: seq<nat>, x: nat) returns (p: nat)
    requires x in ids
    ensures p < |ids| && ids[p] == x
  {
    p :| p < |ids| && ids[p] == x;
  }

  lemma MentionedStill(ids: seq<nat>, id: nat, x: nat, y: nat)
    ensures MentionedBefore(ids, x, y) ==> MentionedBefore(ids + [id], x, y)
    ensures x in ids && id !in ids ==> MentionedBefore(ids + [id], x, id)
  {
    var all := ids + [id];
    if p :| 0 <= p < |ids| && ids[p] == x && y !in ids[..p + 1] {
      assert all[p] == ids[p] && all[..p + 1] == ids[..p + 1];
    }
    if x in ids && id !in ids {
      var p := Mention(ids, x);
      assert all[p] == ids[p] && all[..p + 1] == ids[..p + 1];
    }
  }

  lemma InOrderMore(out: seq<nat>, ids: seq<nat>, id: nat)
    requires InOrder(out, ids)
    ensures InOrder(out, ids + [id])
    ensures id !in ids ==> InOrder(out + [id], ids + [id])
  {
    hide MentionedBefore;
    forall i, j | 0 <= i < j < |out|
      ensures MentionedBefore(ids + [id], out[i], out[j])
    {
      MentionedStill(ids, id, out[i], out[j]);
    }
    forall i | 0 <= i < |out|
      ensures id !in ids ==> MentionedBefore(ids + [id], out[i], id)
    {
      MentionedStill(ids, id, out[i], id);
    }
  }

  /** Duplicates are dropped, and the first mentions keep their order. */
  lemma {:induction false} DistinctInOrder(ids: seq<nat>)
    ensures InOrder(Distinct(ids), ids)
  {
    if ids != [] {
      var n := |ids| - 1;
      DistinctInOrder(ids[..n]);
      InOrderMore(Distinct(ids[..n]), ids[..n], ids[n]);
      assert ids == ids[..n] + [ids[n]];
    }
  }

  lemma {:induction false} ExcludedInOrder(rows: seq<Candidate>, followId: nat, ids: seq<nat>)
    requires NoRepeats(ids)
    ensures InOrder(ExcludeAnswer(rows, followId, ids).changed, ids)
  {
    hide ExcludeVerdict, InOrder;
    if ids == [] {
      NothingInOrder(ids);
    } else {
      var n := |ids| - 1;
      ExcludedInOrder(rows, followId, ids[..n]);
      InOrderMore(ExcludeAnswer(rows, followId, ids[..n]).changed, ids[..n], ids[n]);
      assert ids == ids[..n] + [ids[n]];
    }
  }

  lemma {:induction false} RestoredInOrder(rows: seq<Candidate>, followId: nat, ids: seq<nat>)
    requires NoRepeats(ids)
    ensures InOrder(RestoreAnswer(rows, followId, ids).changed, ids)
  {
    hide RestoreVerdict, InOrder;
    if ids == [] {
      NothingInOrder(ids);
    } else {
      var n := |ids| - 1;
      RestoredInOrder(rows, followId, ids[..n]);
      InOrderMore(RestoreAnswer(rows, followId, ids[..n]).changed, ids[..n], ids[n]);
      assert ids == ids[..n] + [ids[n]];
    }
  }

  lemma {:induction false} AddedInOrder(s: Store, followId: nat, ids: seq<nat>, locale: string)
    requires NoRepeats(ids)
    ensures InOrder(AddAnswer(s, followId, ids, locale).changed, ids)
  {
    hide AddVerdict, InOrder, AddAll;
    if ids == [] {
      NothingInOrder(ids);
    } else {
      var n := |ids| - 1;
      AddedInOrder(s, followId, ids[..n], locale);
      InOrderMore(AddAnswer(s, followId, ids[..n], locale).changed, ids[..n], ids[n]);
      assert ids == ids[..n] + [ids[n]];
    }
  }

  lemma NothingInOrder(ids: seq<nat>)
    ensures InOrder([], ids)
  {
  }

  // ---------- exclude and restore ----------

  lemma {:induction false} ExcludeListed(rows: seq<Candidate>, followId: nat, ids: seq<nat>)
    ensures Complete(ExcludeAnswer(rows, followId, ids), ids)
    ensures forall x, v ::
      Listed(ExcludeAnswer(rows, followId, ids), x, v) <==> x in ids && v == ExcludeVerdict(rows, followId, x)
  {
    hide Listed, ExcludeVerdict, Answered;
    if ids == [] {
      forall x, v ensures !Listed(ActionOut([], []), x, v) { NothingListed(x, v); }
    } else {
      var n := |ids| - 1;
      ExcludeListed(rows, followId, ids[..n]);
      AnsweredAll(ExcludeAnswer(rows, followId, ids[..n]), ids[n], ExcludeVerdict(rows, followId, ids[n]));
      forall x ensures x in ids <==> x in ids[..n] || x == ids[n] { LastMention(ids, x); }
    }
  }

  lemma {:induction false} RestoreListed(rows: seq<Candidate>, followId: nat, ids: seq<nat>)
    ensures Complete(RestoreAnswer(rows, followId, ids), ids)
    ensures forall x, v ::
      Listed(RestoreAnswer(rows, followId, ids), x, v) <==> x in ids && v == RestoreVerdict(rows, followId, x)
  {
    hide Listed, RestoreVerdict, Answered;
    if ids == [] {
      forall x, v ensures !Listed(ActionOut([], []), x, v) { NothingListed(x, v); }
    } else {
      var n := |ids| - 1;
      RestoreListed(rows, followId, ids[..n]);
      AnsweredAll(RestoreAnswer(rows, followId, ids[..n]), ids[n], RestoreVerdict(rows, followId, ids[n]));
      forall x ensures x in ids <==> x in ids[..n] || x == ids[n] { LastMention(ids, x); }
    }
  }

  lemma FoundIs(rows: seq<Candidate>, followId: nat, i: nat)
    requires DistinctIds(rows) && i < |rows| && rows[i].followId == followId
    ensures FindId(rows, rows[i].id, followId) == Some(i)
  {
    var found := FindId(rows, rows[i].id, followId);
  }

  /** The follow has a row with this id and this status. */
  ghost predicate RowWith(rows: seq<Candidate>, followId: nat, id: nat, status: Status) {
    exists i :: 0 <= i < |rows| && rows[i].id == id && rows[i].followId == followId && rows[i].status == status
  }

  /** Why a row is not excluded: it is missing, or excluded or added already. */
  ghost predicate NotExcludable(rows: seq<Candidate>, followId: nat, id: nat, reason: SkipReason) {
    match reason
    case NotFound => forall i :: 0 <= i < |rows| ==> !(rows[i].id == id && rows[i].followId == followId)
    case HasStatus(status) => status != Future && status != Backlog && RowWith(rows, followId, id, status)
    case AlreadyOwned => false
  }

  ghost predicate NotRestorable(rows: seq<Candidate>, followId: nat, id: nat, reason: SkipReason) {
    match reason
    case NotFound => forall i :: 0 <= i < |rows| ==> !(rows[i].id == id && rows[i].followId == followId)
    case HasStatus(status) => status != Excluded && RowWith(rows, followId, id, status)
    case AlreadyOwned => false
  }

  lemma VerdictReasons(rows: seq<Candidate>, followId: nat, id: nat, reason: SkipReason)
    requires DistinctIds(rows)
    ensures ExcludeVerdict(rows, followId, id) == Skip(reason) <==> NotExcludable(rows, followId, id, reason)
    ensures RestoreVerdict(rows, followId, id) == Skip(reason) <==> NotRestorable(rows, followId, id, reason)
  {
    var found := FindId(rows, id, followId);
    forall i | 0 <= i < |rows| && rows[i].id == id && rows[i].followId == followId
      ensures found == Some(i)
    {
      FoundIs(rows, followId, i);
    }
  }

  /**
   Excluding answers for every id once: changed exactly when a row with that id has changed,
   otherwise skipped with the reason.
   */
  lemma ExcludeAnswerMeans(rows: seq<Candidate>, followId: nat, ids: seq<nat>)
    requires DistinctIds(rows)
    ensures var out := ExcludeAnswer(rows, followId, Distinct(ids));
      && Complete(out, Distinct(ids))
      && InOrder(out.changed, Distinct(ids))
      && (forall id :: id in out.changed <==> RowChanged(rows, ExcludeRows(rows, followId, ids), id))
      && (forall id, r :: (id, r) in out.skipped <==> id in ids && NotExcludable(rows, followId, id, r))
  {
    DistinctOnce(ids);
    ExcludedInOrder(rows, followId, Distinct(ids));
    hide InOrder;
    ExcludeListed(rows, followId, Distinct(ids));
    var out := ExcludeAnswer(rows, followId, Distinct(ids));
    forall id
      ensures id in out.changed <==> RowChanged(rows, ExcludeRows(rows, followId, ids), id)
    {
      assert id in out.changed <==> Listed(out, id, Change);
      if i :| 0 <= i < |rows| && rows[i].id == id && rows[i] != ExcludeRows(rows, followId, ids)[i] {
        FoundIs(rows, followId, i);
      }
    }
    forall id, r
      ensures (id, r) in out.skipped <==> id in ids && NotExcludable(rows, followId, id, r)
    {
      VerdictReasons(rows, followId, id, r);
      assert (id, r) in out.skipped <==> Listed(out, id, Skip(r));
    }
  }

  /** Restoring likewise; a restored row is reclassified, so it has changed. */
  lemma RestoreAnswerMeans(rows: seq<Candidate>, followId: nat, ids: seq<nat>, today: int)
    requires DistinctIds(rows)
    ensures var out := RestoreAnswer(rows, followId, Distinct(ids));
      && Complete(out, Distinct(ids))
      && InOrder(out.changed, Distinct(ids))
      && (forall id :: id in out.changed <==> RowChanged(rows, RestoreRows(rows, followId, ids, today), id))
      && (forall id, r :: (id, r) in out.skipped <==> id in ids && NotRestorable(rows, followId, id, r))
  {
    DistinctOnce(ids);
    RestoredInOrder(rows, followId, Distinct(ids));
    hide InOrder;
    RestoreListed(rows, followId, Distinct(ids));
    var out := RestoreAnswer(rows, followId, Distinct(ids));
    forall id
      ensures id in out.changed <==> RowChanged(rows, RestoreRows(rows, followId, ids, today), id)
    {
      assert id in out.changed <==> Listed(out, id, Change);
      if i :| 0 <= i < |rows| && rows[i].id == id && rows[i] != RestoreRows(rows, followId, ids, today)[i] {
        FoundIs(rows, followId, i);
      }
    }
    forall id, r
      ensures (id, r) in out.skipped <==> id in ids && NotRestorable(rows, followId, id, r)
    {
      VerdictReasons(rows, followId, id, r);
      assert (id, r) in out.skipped <==> Listed(out, id, Skip(r));
    }
  }

  // ---------- add ----------

  /** The rows so far: the same ids, and different exactly where the answer says changed. */
  ghost predicate AddedSoFar(s: Store, t: Store, out: ActionOut) {
    && |t.candidates| == |s.candidates|
    && forall i :: 0 <= i < |s.candidates| ==>
      && t.candidates[i].id == s.candidates[i].id
      && (t.candidates[i] != s.candidates[i] <==> s.candidates[i].id in out.changed)
  }

  lemma AddStep(s: Store, t: Store, out: ActionOut, followId: nat, id: nat, locale: string)
    requires DistinctIds(s.candidates) && AddedSoFar(s, t, out) && id !in out.changed
    ensures AddedSoFar(s, AddOne(t, followId, id, locale), Answered(out, id, AddVerdict(t, followId, id)))
  {
    hide Owned;
    var u := AddOne(t, followId, id, locale);
    var found := FindId(t.candidates, id, followId);
    if AddVerdict(t, followId, id).Change? {
      assert t.candidates[found.value] == s.candidates[found.value];
      forall i | 0 <= i < |s.candidates|
        ensures u.candidates[i].id == s.candidates[i].id
        ensures u.candidates[i] != s.candidates[i] <==> s.candidates[i].id in out.changed + [id]
      {
        assert i != found.value ==> s.candidates[i].id != s.candidates[found.value].id;
      }
    }
  }

  /** Why a row is not added: it is missing, not in the backlog, or a backlog row with a copy. */
  ghost predicate NotAddable(rows: seq<Candidate>, followId: nat, id: nat, reason: SkipReason) {
    match reason
    case NotFound => forall i :: 0 <= i < |rows| ==> !(rows[i].id == id && rows[i].followId == followId)
    case HasStatus(status) => status != Backlog && RowWith(rows, followId, id, status)
    case AlreadyOwned => RowWith(rows, followId, id, Backlog)
  }

  lemma AddReason(s: Store, t: Store, out: ActionOut, followId: nat, id: nat)
    requires AddedSoFar(s, t, out) && id !in out.changed
    ensures var verdict := AddVerdict(t, followId, id); verdict.Skip? ==> NotAddable(s.candidates, followId, id, verdict.reason)
  {
    hide Owned;
    var found := FindId(t.candidates, id, followId);
    forall i | 0 <= i < |s.candidates| && s.candidates[i].id == id
      ensures t.candidates[i] == s.candidates[i]
    {
    }
    if found.Some? {
      assert s.candidates[found.value].id == id;
      assert t.candidates[found.value].Candidate?;
    }
  }

  lemma {:induction false} AddListed(s: Store, followId: nat, ids: seq<nat>, locale: string)
    requires DistinctIds(s.candidates) && NoRepeats(ids)
    ensures var out := AddAnswer(s, followId, ids, locale);
      && Complete(out, ids) && AddedSoFar(s, AddAll(s, followId, ids, locale), out)
      && (forall x, v :: Listed(out, x, v) ==> x in ids)
      && forall x, r :: Listed(out, x, Skip(r)) ==> NotAddable(s.candidates, followId, x, r)
  {
    hide Listed, AddVerdict, Answered, AddOne, DistinctIds, AddedSoFar, NotAddable;
    if ids == [] {
      forall x, v ensures !Listed(ActionOut([], []), x, v) { NothingListed(x, v); }
      NothingAdded(s);
    } else {
      var n := |ids| - 1;
      AddListed(s, followId, ids[..n], locale);
      var t, out := AddAll(s, followId, ids[..n], locale), AddAnswer(s, followId, ids[..n], locale);
      AnsweredAll(out, ids[n], AddVerdict(t, followId, ids[n]));
      forall x ensures x in ids <==> x in ids[..n] || x == ids[n] { LastMention(ids, x); }
      ChangedIsListed(out, ids[n]);
      AddReason(s, t, out, followId, ids[n]);
      AddStep(s, t, out, followId, ids[n], locale);
    }
  }

  lemma ChangedIsListed(out: ActionOut, id: nat)
    ensures id in out.changed <==> Listed(out, id, Change)
  {
  }

  lemma NothingAdded(s: Store)
    ensures AddedSoFar(s, s, ActionOut([], []))
  {
  }

  /** Adding answers for every id once: changed exactly when its row has changed. */
  lemma AddAnswerMeans(s: Store, followId: nat, ids: seq<nat>, locale: string)
    requires DistinctIds(s.candidates)
    ensures var out := AddAnswer(s, followId, Distinct(ids), locale);
      var t := AddAll(s, followId, Distinct(ids), locale);
      && Complete(out, Distinct(ids)) && InOrder(out.changed, Distinct(ids)) && |t.candidates| == |s.candidates|
      && (forall i :: 0 <= i < |s.candidates| ==>
        (t.candidates[i] != s.candidates[i] <==> s.candidates[i].id in out.changed))
      && (forall id :: id in out.changed ==> id in ids)
      && (forall id, r :: (id, r) in out.skipped ==> id in ids && NotAddable(s.candidates, followId, id, r))
  {
    DistinctOnce(ids);
    AddedInOrder(s, followId, Distinct(ids), locale);
    hide InOrder;
    AddListed(s, followId, Distinct(ids), locale);
    var out := AddAnswer(s, followId, Distinct(ids), locale);
    forall id | id in out.changed
      ensures id in ids
    {
      assert Listed(out, id, Change);
    }
    forall id, r | (id, r) in out.skipped
      ensures id in ids && NotAddable(s.candidates, followId, id, r)
    {
      assert Listed(out, id, Skip(r));
    }
  }
}
