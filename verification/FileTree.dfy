/**
 Regular files by canonical path. Every operation is one atomic step that may fail, and a
 failed step changes nothing.
 */
module FileTree {
  import opened Paths

  /** Hard links are two paths with equal nodes. */
  datatype Node = Node(inode: nat, content: string)

  type Files = map<Path, Node>

  datatype Move = Move(src: Path, dst: Path)

  /** `rename(2)`: replaces `dst`, and does nothing when both names are the same inode. */
  function Rename(files: Files, src: Path, dst: Path): Files {
    if src !in files || (dst in files && files[dst].inode == files[src].inode) then files
    else (files - {src})[dst := files[src]]
  }

  /** The files after performing `moves` in order. */
  function After(files: Files, moves: seq<Move>): Files {
    if moves == [] then files
    else
      var last := moves[|moves| - 1];
      Rename(After(files, moves[..|moves| - 1]), last.src, last.dst)
  }

  /** The files after undoing the last `|restored|` moves, newest first; a failed undo is skipped. */
  function Undone(files: Files, moves: seq<Move>, restored: seq<bool>): Files
    requires |restored| <= |moves|
    decreases |restored|
  {
    if restored == [] then files
    else
      var m := |restored|;
      var before := Undone(files, moves, restored[..m - 1]);
      var move := moves[|moves| - m];
      if restored[m - 1] then Rename(before, move.dst, move.src) else before
  }

  /** The moves whose undo failed, in the order they were made. */
  function Unrestored(moves: seq<Move>, restored: seq<bool>): seq<Move>
    requires |restored| <= |moves|
    decreases |restored|
  {
    if restored == [] then []
    else
      var m := |restored|;
      (if restored[m - 1] then [] else [moves[|moves| - m]]) + Unrestored(moves, restored[..m - 1])
  }

  /** Every move takes its own existing file to its own unused path. */
  predicate Fresh(files: Files, moves: seq<Move>) {
    && (forall i :: 0 <= i < |moves| ==> moves[i].src in files && moves[i].dst !in files)
    && (forall i, j :: 0 <= i < j < |moves| ==> moves[i].src != moves[j].src && moves[i].dst != moves[j].dst)
  }

  ghost predicate IsSource(moves: seq<Move>, p: Path) {
    exists i :: 0 <= i < |moves| && moves[i].src == p
  }

  ghost predicate IsTarget(moves: seq<Move>, p: Path) {
    exists i :: 0 <= i < |moves| && moves[i].dst == p
  }

  /** `after` is `files` with the moves made all at once. */
  ghost predicate Relocated(files: Files, moves: seq<Move>, after: Files) {
    && (forall i :: 0 <= i < |moves| ==>
      moves[i].dst in after && moves[i].src in files && after[moves[i].dst] == files[moves[i].src])
    && (forall p :: p in files && !IsSource(moves, p) ==> p in after && after[p] == files[p])
    && (forall p :: p in after && !IsTarget(moves, p) ==> p in files && !IsSource(moves, p))
  }

  lemma ExtendBy(before: seq<Move>, x: Move, p: Path)
    ensures IsSource(before + [x], p) <==> IsSource(before, p) || p == x.src
    ensures IsTarget(before + [x], p) <==> IsTarget(before, p) || p == x.dst
  {
    SkipOne(before, x, [], p);
    assert before + [x] + [] == before + [x] && before + [] == before;
  }

  lemma RelocateOneMore(files: Files, before: seq<Move>, x: Move, mid: Files)
    requires Fresh(files, before + [x]) && Relocated(files, before, mid)
    ensures x.src in mid && x.dst !in mid
    ensures Relocated(files, before + [x], (mid - {x.src})[x.dst := mid[x.src]])
  {
    hide Fresh;
    var moves, n := before + [x], |before|;
    NotInvolved(files, before, x);
    assert x.src in mid && mid[x.src] == files[x.src];
    var after := (mid - {x.src})[x.dst := mid[x.src]];
    forall i | 0 <= i < |moves|
      ensures moves[i].dst in after && moves[i].src in files && after[moves[i].dst] == files[moves[i].src]
    {
      FreshAt(files, moves, i, n);
      FreshAt(files, moves, n, i);
      assert i < n ==> moves[i] == before[i];
    }
    hide IsSource, IsTarget;
    forall p
      ensures p in files && !IsSource(moves, p) ==> p in after && after[p] == files[p]
      ensures p in after && !IsTarget(moves, p) ==> p in files && !IsSource(moves, p)
    {
      ExtendBy(before, x, p);
    }
  }

  /** The last of several fresh moves touches neither the sources nor the targets of the others. */
  lemma NotInvolved(files: Files, before: seq<Move>, x: Move)
    requires Fresh(files, before + [x])
    ensures x.src in files && x.dst !in files
    ensures !IsSource(before, x.src) && !IsTarget(before, x.src) && !IsTarget(before, x.dst)
  {
    var moves, n := before + [x], |before|;
    hide Fresh;
    FreshAt(files, moves, n, n);
    forall i | 0 <= i < n
      ensures before[i].src != x.src && before[i].dst != x.src && before[i].dst != x.dst
    {
      FreshAt(files, moves, i, n);
      assert moves[i] == before[i];
    }
  }

  lemma FreshAt(files: Files, moves: seq<Move>, i: nat, j: nat)
    requires Fresh(files, moves) && i < |moves| && j < |moves|
    ensures moves[i].src in files && moves[i].dst !in files
    ensures i != j ==> moves[i].src != moves[j].src && moves[i].dst != moves[j].dst
  {
  }

  /** One after the other, fresh moves have the effect of a simultaneous relocation. */
  lemma {:induction false} AfterFresh(files: Files, moves: seq<Move>)
    requires Fresh(files, moves)
    ensures Relocated(files, moves, After(files, moves))
  {
    if moves == [] {
    } else {
      var n := |moves| - 1;
      assert moves == moves[..n] + [moves[n]];
      FreshPrefix(files, moves, n);
      hide Fresh, Relocated;
      AfterFresh(files, moves[..n]);
      RelocateOneMore(files, moves[..n], moves[n], After(files, moves[..n]));
    }
  }

  lemma FreshPrefix(files: Files, moves: seq<Move>, n: nat)
    requires Fresh(files, moves) && n <= |moves|
    ensures Fresh(files, moves[..n])
  {
  }

  /** Two relocations of the same files by the same moves are equal. */
  lemma RelocatedUnique(files: Files, moves: seq<Move>, a: Files, b: Files)
    requires Relocated(files, moves, a) && Relocated(files, moves, b)
    ensures a == b
  {
    forall p | p in a || p in b
      ensures p in a && p in b && a[p] == b[p]
    {
      if IsTarget(moves, p) {
        var i :| 0 <= i < |moves| && moves[i].dst == p;
        assert moves[i].dst in a && moves[i].dst in b;
      }
    }
  }

  /** In fresh moves, one of them touches neither the sources nor the targets of the others. */
  lemma NotInvolvedAmong(files: Files, before: seq<Move>, x: Move, after: seq<Move>)
    requires Fresh(files, before + [x] + after)
    ensures x.src in files && x.dst !in files
    ensures !IsTarget(before + [x] + after, x.src)
    ensures !IsSource(before + after, x.src) && !IsTarget(before + after, x.src) && !IsTarget(before + after, x.dst)
  {
    var all, rest, k := before + [x] + after, before + after, |before|;
    hide Fresh;
    assert all[k] == x;
    FreshAt(files, all, k, k);
    forall i | 0 <= i < |all|
      ensures all[i].dst != x.src
    {
      FreshAt(files, all, i, i);
    }
    forall i | 0 <= i < |rest|
      ensures rest[i].src != x.src && rest[i].dst != x.src && rest[i].dst != x.dst
    {
      var j := if i < k then i else i + 1;
      FreshAt(files, all, j, k);
      assert rest[i] == all[j];
    }
  }

  lemma UnrelocateOne(files: Files, before: seq<Move>, x: Move, after: seq<Move>, full: Files)
    requires Fresh(files, before + [x] + after) && Relocated(files, before + [x] + after, full)
    ensures x.src !in full && x.dst in full
    ensures Relocated(files, before + after, (full - {x.dst})[x.src := full[x.dst]])
  {
    hide Fresh, IsSource, IsTarget;
    var all, rest, k := before + [x] + after, before + after, |before|;
    assert all[k] == x;
    NotInvolvedAmong(files, before, x, after);
    SkipOne(before, x, after, x.src);
    var undone := (full - {x.dst})[x.src := full[x.dst]];
    forall i | 0 <= i < |rest|
      ensures rest[i].dst in undone && rest[i].src in files && undone[rest[i].dst] == files[rest[i].src]
    {
      var j := if i < k then i else i + 1;
      FreshAt(files, all, j, k);
      assert rest[i] == all[j];
      FreshAt(files, all, j, j);
    }
    forall p
      ensures p in files && !IsSource(rest, p) ==> p in undone && undone[p] == files[p]
      ensures p in undone && !IsTarget(rest, p) ==> p in files && !IsSource(rest, p)
    {
      SkipOne(before, x, after, p);
    }
  }

  /** Undoing one of several fresh moves leaves exactly the others made. */
  lemma UndoOne(files: Files, before: seq<Move>, x: Move, after: seq<Move>)
    requires Fresh(files, before + [x] + after)
    ensures Rename(After(files, before + [x] + after), x.dst, x.src) == After(files, before + after)
  {
    var full := After(files, before + [x] + after);
    AfterFresh(files, before + [x] + after);
    FreshSubset(files, before, x, after);
    AfterFresh(files, before + after);
    UnrelocateOne(files, before, x, after, full);
    RelocatedUnique(files, before + after, Rename(full, x.dst, x.src), After(files, before + after));
  }

  lemma SkipOne(before: seq<Move>, x: Move, after: seq<Move>, p: Path)
    ensures IsSource(before + [x] + after, p) <==> IsSource(before + after, p) || p == x.src
    ensures IsTarget(before + [x] + after, p) <==> IsTarget(before + after, p) || p == x.dst
  {
    var all, rest := before + [x] + after, before + after;
    var k := |before|;
    assert all[k] == x;
    forall i | 0 <= i < |all|
      ensures i == k || all[i] == rest[if i < k then i else i - 1]
    {
    }
    forall i | 0 <= i < |rest|
      ensures rest[i] == all[if i < k then i else i + 1]
    {
    }
  }

  lemma FreshSubset(files: Files, before: seq<Move>, x: Move, after: seq<Move>)
    requires Fresh(files, before + [x] + after)
    ensures Fresh(files, before + after)
  {
    var all, rest := before + [x] + after, before + after;
    var k := |before|;
    assert forall i :: 0 <= i < |rest| ==> rest[i] == all[if i < k then i else i + 1];
  }

  /**
   The rollback is exact whatever subset of the undo steps succeeds: what stays displaced is
   precisely the moves reported as not restored.
   */
  lemma {:induction false} RollbackExact(files: Files, moves: seq<Move>, restored: seq<bool>)
    requires Fresh(files, moves) && |restored| <= |moves|
    ensures var left := moves[..|moves| - |restored|] + Unrestored(moves, restored);
      && Fresh(files, left)
      && Undone(After(files, moves), moves, restored) == After(files, left)
    decreases |restored|
  {
    hide Fresh, After, Rename;
    var m := |restored|;
    if m == 0 {
      assert moves[..|moves|] + [] == moves;
    } else {
      var k := |moves| - m;
      var kept := Unrestored(moves, restored[..m - 1]);
      RollbackExact(files, moves, restored[..m - 1]);
      assert moves[..k + 1] + kept == moves[..k] + [moves[k]] + kept;
      if restored[m - 1] {
        FreshSubset(files, moves[..k], moves[k], kept);
        UndoOne(files, moves[..k], moves[k], kept);
        assert Unrestored(moves, restored) == kept;
      } else {
        assert moves[..k] + [moves[k]] + kept == moves[..k] + ([moves[k]] + kept);
      }
    }
  }

  lemma {:induction false} NothingUnrestored(moves: seq<Move>, restored: seq<bool>)
    requires |restored| <= |moves| && forall i :: 0 <= i < |restored| ==> restored[i]
    ensures Unrestored(moves, restored) == []
    decreases |restored|
  {
    if restored != [] {
      NothingUnrestored(moves, restored[..|restored| - 1]);
    }
  }

  /** With every undo successful, the starting files are back, byte for byte. */
  lemma RollbackComplete(files: Files, moves: seq<Move>, restored: seq<bool>)
    requires Fresh(files, moves) && |restored| == |moves|
    requires forall i :: 0 <= i < |restored| ==> restored[i]
    ensures Undone(After(files, moves), moves, restored) == files
  {
    RollbackExact(files, moves, restored);
    NothingUnrestored(moves, restored);
    assert moves[..0] + [] == [];
  }

  class FileSystem {
    var files: Files
    var nextInode: nat

    ghost predicate Valid()
      reads this
    {
      forall p :: p in files ==> files[p].inode < nextInode
    }

    constructor ()
      ensures Valid() && files == map[]
    {
      files, nextInode := map[], 0;
    }

    /** `shutil.move`: one step that may fail for reasons of its own. */
    method Move(src: Path, dst: Path) returns (ok: bool)
      modifies this`files
      ensures ok ==> src in old(files) && files == Rename(old(files), src, dst)
      ensures !ok ==> files == old(files)
      ensures old(Valid()) ==> Valid()
    {
      ok := *;
      ok := ok && src in files;
      if ok {
        files := Rename(files, src, dst);
      }
    }

    /** `shutil.copy2`: a new inode with the same content. */
    method Copy(src: Path, dst: Path) returns (ok: bool)
      requires Valid() && dst !in files
      modifies this
      ensures Valid()
      ensures ok ==> src in old(files) && files == old(files)[dst := Node(old(nextInode), old(files)[src].content)]
      ensures !ok ==> files == old(files)
    {
      ok := *;
      ok := ok && src in files;
      if ok {
        files := files[dst := Node(nextInode, files[src].content)];
        nextInode := nextInode + 1;
      }
    }

    /** `os.link`: a second name for the same inode; refused when `dst` exists. */
    method Link(src: Path, dst: Path) returns (ok: bool)
      modifies this`files
      ensures ok ==> src in old(files) && dst !in old(files) && files == old(files)[dst := old(files)[src]]
      ensures !ok ==> files == old(files)
      ensures old(Valid()) ==> Valid()
    {
      ok := *;
      ok := ok && src in files && dst !in files;
      if ok {
        files := files[dst := files[src]];
      }
    }

    /** `Path.unlink(missing_ok=True)` */
    method Unlink(p: Path) returns (ok: bool)
      modifies this`files
      ensures ok ==> files == old(files) - {p}
      ensures !ok ==> files == old(files)
      ensures old(Valid()) ==> Valid()
    {
      ok := *;
      if ok {
        files := files - {p};
      }
    }
  }
}
