/**
 The second pass of the organiser's preview (app/library/organizer.py): the verdict on each
 candidate, given what exists and where the other candidates would go.
 */
module OrganizePlan {
  import opened Paths
  import opened FileTree

  /** One `library_files` row of the book, with its probed format, codec and bitrate texts. */
  datatype FileRow = FileRow(id: nat, path: string, quality: string, codec: string, bitrate: string)

  datatype Status = Ready | Unchanged | Missing | Conflict | OutsideRoot {
    predicate Safe() {
      Ready? || Unchanged?
    }
  }

  datatype Item = Item(fileId: nat, sourcePath: string, targetPath: string, status: Status)

  datatype Candidate = Candidate(row: FileRow, source: Path, target: Path)

  // ---------- collisions ----------

  predicate Competes(c: Candidate, target: string) {
    c.source != c.target && Show(c.target) == target
  }

  /** How many candidates would be moved to `target`. */
  function Rivals(cands: seq<Candidate>, target: string): nat {
    if cands == [] then 0
    else Rivals(cands[..|cands| - 1], target) + if Competes(cands[|cands| - 1], target) then 1 else 0
  }

  function Classify(files: Files, cands: seq<Candidate>, c: Candidate): Status {
    if c.source == c.target then Unchanged
    else if Rivals(cands, Show(c.target)) > 1 then Conflict
    else if c.target in files then Conflict
    else Ready
  }

  function Classified(files: Files, all: seq<Candidate>, cands: seq<Candidate>): seq<Item> {
    if cands == [] then []
    else
      var c := cands[|cands| - 1];
      Classified(files, all, cands[..|cands| - 1])
      + [Item(c.row.id, c.row.path, Show(c.target), Classify(files, all, c))]
  }

  method CountTargets(candidates: seq<Candidate>) returns (counts: map<string, nat>)
    ensures forall t :: (if t in counts then counts[t] else 0) == Rivals(candidates, t)
  {
    counts := map[];
    for n := 0 to |candidates|
      invariant forall t :: (if t in counts then counts[t] else 0) == Rivals(candidates[..n], t)
    {
      var c := candidates[n];
      assert candidates[..n + 1][..n] == candidates[..n];
      if c.source != c.target {
        var t := Show(c.target);
        counts := counts[t := (if t in counts then counts[t] else 0) + 1];
      }
    }
    assert candidates[..|candidates|] == candidates;
  }

  // ---------- what the verdicts mean ----------

  lemma {:induction false} RivalsAtLeast(cands: seq<Candidate>, target: string, i: nat)
    requires i < |cands| && Competes(cands[i], target)
    ensures Rivals(cands, target) >= 1
  {
    if i < |cands| - 1 {
      RivalsAtLeast(cands[..|cands| - 1], target, i);
    }
  }

  lemma {:induction false} TwoRivals(cands: seq<Candidate>, target: string, i: nat, j: nat)
    requires i < j < |cands| && Competes(cands[i], target) && Competes(cands[j], target)
    ensures Rivals(cands, target) > 1
  {
    if j < |cands| - 1 {
      TwoRivals(cands[..|cands| - 1], target, i, j);
    } else {
      RivalsAtLeast(cands[..|cands| - 1], target, i);
    }
  }

  lemma {:induction false} RivalWitness(cands: seq<Candidate>, target: string) returns (i: nat)
    requires Rivals(cands, target) >= 1
    ensures i < |cands| && Competes(cands[i], target)
  {
    var n := |cands| - 1;
    if Competes(cands[n], target) {
      i := n;
    } else {
      i := RivalWitness(cands[..n], target);
    }
  }

  lemma {:induction false} RivalPair(cands: seq<Candidate>, target: string) returns (i: nat, j: nat)
    requires Rivals(cands, target) > 1
    ensures i < j < |cands| && Competes(cands[i], target) && Competes(cands[j], target)
  {
    var n := |cands| - 1;
    if Competes(cands[n], target) {
      i := RivalWitness(cands[..n], target);
      j := n;
    } else {
      i, j := RivalPair(cands[..n], target);
    }
  }

  ghost predicate HasRival(cands: seq<Candidate>, i: nat)
    requires i < |cands|
  {
    exists j :: 0 <= j < |cands| && j != i && cands[j].source != cands[j].target && cands[j].target == cands[i].target
  }

  /**
   The meaning of the second pass, for each candidate: unchanged iff already in place; in
   conflict iff its target exists or another candidate to be moved has the same target, and
   then every such candidate is in conflict; ready otherwise.
   */
  lemma ClassifyMeaning(files: Files, cands: seq<Candidate>, i: nat)
    requires i < |cands| && forall k :: 0 <= k < |cands| ==> Canonical(cands[k].target)
    ensures var c := cands[i]; var status := Classify(files, cands, c);
      && (status.Unchanged? <==> c.source == c.target)
      && (status.Conflict? <==> c.source != c.target && (c.target in files || HasRival(cands, i)))
      && (status.Ready? || status.Unchanged? || status.Conflict?)
  {
    var c := cands[i];
    var target := Show(c.target);
    if Rivals(cands, target) > 1 && c.source != c.target {
      var a, b := RivalPair(cands, target);
      var j := if a == i then b else a;
      ShowInjective(cands[j].target, c.target);
    }
    if HasRival(cands, i) {
      var j :| 0 <= j < |cands| && j != i && cands[j].source != cands[j].target && cands[j].target == c.target;
      if c.source != c.target {
        TwoRivals(cands, target, if i < j then i else j, if i < j then j else i);
      }
    }
  }

  lemma {:induction false} ClassifiedAt(files: Files, all: seq<Candidate>, cands: seq<Candidate>)
    ensures |Classified(files, all, cands)| == |cands|
    ensures forall i :: 0 <= i < |cands| ==>
      Classified(files, all, cands)[i]
      == Item(cands[i].row.id, cands[i].row.path, Show(cands[i].target), Classify(files, all, cands[i]))
  {
    if cands != [] {
      ClassifiedAt(files, all, cands[..|cands| - 1]);
    }
  }

  ghost predicate DistinctReadyTargets(items: seq<Item>) {
    forall i, j :: 0 <= i < j < |items| && items[i].status.Ready? && items[j].status.Ready? ==>
      items[i].targetPath != items[j].targetPath
  }
}
