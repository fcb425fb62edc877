/** Remote path mappings (app/remote_path_mapping.py). */
module RemotePath {
  import opened Options
  import opened Text

  datatype Mapping = Mapping(remotePath: string, localPath: string, enabled: bool)

  /** `s.rstrip("/\\")`: every trailing separator goes. */
  function Stripped(s: string): (r: string) {
    RStripChars(s, {'/', '\\'})
  }

  predicate OnBoundary(path: string, remote: string) {
    path == remote || remote + "/" <= path || remote + "\\" <= path
  }

  predicate Matches(path: string, m: Mapping) {
    && m.enabled && m.remotePath != "" && m.localPath != ""
    && Stripped(m.remotePath) != ""
    && OnBoundary(path, Stripped(m.remotePath))
  }

  function Translate(path: string, m: Mapping): string
    requires Matches(path, m)
  {
    Stripped(m.localPath) + path[|Stripped(m.remotePath)|..]
  }

  /** `mappings[i]` is the first of the longest matching ones. */
  ghost predicate FirstLongest(path: string, mappings: seq<Mapping>, i: nat) {
    && i < |mappings| && Matches(path, mappings[i])
    && (forall j :: 0 <= j < |mappings| && Matches(path, mappings[j]) ==>
          |Stripped(mappings[j].remotePath)| <= |Stripped(mappings[i].remotePath)|)
    && (forall j :: 0 <= j < i && Matches(path, mappings[j]) ==>
          |Stripped(mappings[j].remotePath)| < |Stripped(mappings[i].remotePath)|)
  }

  ghost predicate ResolvesTo(path: string, mappings: seq<Mapping>, r: string) {
    if exists j :: 0 <= j < |mappings| && Matches(path, mappings[j])
    then exists i: nat :: FirstLongest(path, mappings, i) && r == Translate(path, mappings[i])
    else r == path
  }

  lemma KeepsLongest(path: string, mappings: seq<Mapping>, m: Mapping, at: nat)
    requires FirstLongest(path, mappings, at)
    ensures FirstLongest(path, mappings + [m],
              if Matches(path, m) && |Stripped(m.remotePath)| > |Stripped(mappings[at].remotePath)| then |mappings| else at)
  {
    hide Matches;
    var grown := mappings + [m];
    assert forall j :: 0 <= j < |mappings| ==> grown[j] == mappings[j];
    assert grown[|mappings|] == m;
  }

  lemma FirstMatch(path: string, mappings: seq<Mapping>, m: Mapping)
    requires Matches(path, m) && forall j :: 0 <= j < |mappings| ==> !Matches(path, mappings[j])
    ensures FirstLongest(path, mappings + [m], |mappings|)
  {
    hide Matches;
    var grown := mappings + [m];
    assert forall j :: 0 <= j < |mappings| ==> grown[j] == mappings[j];
    assert grown[|mappings|] == m;
  }

  method ResolveRemotePath(path: string, mappings: seq<Mapping>) returns (r: string)
    ensures ResolvesTo(path, mappings, r)
  {
    if path == "" {
      return path;
    }
    hide OnBoundary, FirstLongest;
    var best: Option<Mapping> := None;
    var bestLen := -1;
    ghost var at: nat := 0;
    for n := 0 to |mappings|
      invariant best.None? ==> bestLen == -1 && forall j :: 0 <= j < n ==> !Matches(path, mappings[j])
      invariant best.Some? ==> at < n && best.value == mappings[at] && bestLen == |Stripped(best.value.remotePath)|
      invariant best.Some? ==> FirstLongest(path, mappings[..n], at)
    {
      var mapping := mappings[n];
      assert mappings[..n + 1] == mappings[..n] + [mapping];
      if best.None? {
        if Matches(path, mapping) {
          FirstMatch(path, mappings[..n], mapping);
        }
      } else {
        KeepsLongest(path, mappings[..n], mapping, at);
      }
      if !mapping.enabled || mapping.remotePath == "" || mapping.localPath == "" {
        continue;
      }
      var remote := Stripped(mapping.remotePath);
      if remote == "" {
        continue;
      }
      if OnBoundary(path, remote) && |remote| > bestLen {
        best, bestLen, at := Some(mapping), |remote|, n;
      }
    }
    assert mappings[..|mappings|] == mappings;
    if best.None? {
      return path;
    }
    LongestMatches(path, mappings, at);
    RemoteIsPrefix(path, best.value);
    r := Stripped(best.value.localPath) + path[|Stripped(best.value.remotePath)|..];
  }

  lemma LongestMatches(path: string, mappings: seq<Mapping>, i: nat)
    requires FirstLongest(path, mappings, i)
    ensures i < |mappings| && Matches(path, mappings[i])
  {}

  lemma RemoteIsPrefix(path: string, m: Mapping)
    requires Matches(path, m)
    ensures Stripped(m.remotePath) <= path
  {}

  // ---------- what applies, on the characters ----------

  predicate IsSeparator(c: char) {
    c == '/' || c == '\\'
  }

  /** The first `n` characters of `s` are what is left without its trailing separators. */
  predicate Trimmed(s: string, n: nat) {
    && n <= |s| && (n > 0 ==> !IsSeparator(s[n - 1]))
    && forall k :: n <= k < |s| ==> IsSeparator(s[k])
  }

  /**
   The mapping is enabled and complete, its trimmed remote has `n` characters, and the path is
   that remote or continues with a separator: `/downloads` does not apply to `/downloads2/x`.
   */
  predicate Applies(path: string, m: Mapping, n: nat) {
    && m.enabled && m.localPath != "" && 0 < n <= |path| && Trimmed(m.remotePath, n)
    && path[..n] == m.remotePath[..n] && (n == |path| || IsSeparator(path[n]))
  }

  lemma TrimmedIs(s: string, n: nat)
    ensures Trimmed(s, n) <==> n == |Stripped(s)|
    ensures |Stripped(s)| <= |s| && Stripped(s) == s[..|Stripped(s)|]
  {
    var r := Stripped(s);
    assert r != "" ==> r[|r| - 1] == s[|r| - 1];
    assert Trimmed(s, |r|);
  }

  /** A match ends at a separator. */
  lemma MatchesIff(path: string, m: Mapping)
    ensures forall n: nat :: Applies(path, m, n) <==> Matches(path, m) && n == |Stripped(m.remotePath)|
  {
    var remote := Stripped(m.remotePath);
    hide Stripped;
    BoundaryIs(path, remote);
    forall n: nat
      ensures Applies(path, m, n) <==> Matches(path, m) && n == |remote|
    {
      TrimmedIs(m.remotePath, n);
    }
  }

  lemma BoundaryIs(path: string, remote: string)
    ensures OnBoundary(path, remote)
       <==> |remote| <= |path| && path[..|remote|] == remote && (|path| == |remote| || IsSeparator(path[|remote|]))
  {
    var n := |remote|;
    if n < |path| && path[..n] == remote {
      assert path[..n + 1] == remote + [path[n]];
    }
    assert remote + "/" <= path ==> path[..n + 1] == remote + "/" && path[n] == (remote + "/")[n];
    assert remote + "\\" <= path ==> path[..n + 1] == remote + "\\" && path[n] == (remote + "\\")[n];
    assert OnBoundary(path, remote) ==> path[..n] == remote;
  }

  /**
   The result on the characters: unchanged when no mapping applies; otherwise, for the first of
   the mappings with the longest remote, the trimmed local path and what follows the remote.
   */
  lemma ResolvedIs(path: string, mappings: seq<Mapping>, r: string)
    requires ResolvesTo(path, mappings, r)
    ensures (forall j, n: nat :: 0 <= j < |mappings| ==> !Applies(path, mappings[j], n)) ==> r == path
    ensures (exists j, n: nat :: 0 <= j < |mappings| && Applies(path, mappings[j], n)) ==>
      exists i, n: nat, k: nat ::
        && 0 <= i < |mappings| && Applies(path, mappings[i], n) && Trimmed(mappings[i].localPath, k)
        && r == mappings[i].localPath[..k] + path[n..]
        && forall j, m: nat :: 0 <= j < |mappings| && Applies(path, mappings[j], m) ==> m <= n && (m == n ==> i <= j)
  {
    hide Matches, Applies, Trimmed, Stripped;
    forall j | 0 <= j < |mappings|
      ensures forall n: nat ::
        Applies(path, mappings[j], n) <==> Matches(path, mappings[j]) && n == |Stripped(mappings[j].remotePath)|
    {
      MatchesIff(path, mappings[j]);
    }
    if j :| 0 <= j < |mappings| && Matches(path, mappings[j]) {
      var i: nat :| FirstLongest(path, mappings, i) && r == Translate(path, mappings[i]);
      var n, k := |Stripped(mappings[i].remotePath)|, |Stripped(mappings[i].localPath)|;
      TrimmedIs(mappings[i].localPath, k);
      assert Applies(path, mappings[i], n) && Trimmed(mappings[i].localPath, k);
      assert Applies(path, mappings[j], |Stripped(mappings[j].remotePath)|);
    }
  }

  /** The mappings determine the result. */
  lemma ResolvedOnce(path: string, mappings: seq<Mapping>, r: string, r': string)
    requires ResolvesTo(path, mappings, r) && ResolvesTo(path, mappings, r')
    ensures r == r'
  {
    hide Matches, Translate;
    if j :| 0 <= j < |mappings| && Matches(path, mappings[j]) {
      var i: nat :| FirstLongest(path, mappings, i) && r == Translate(path, mappings[i]);
      var k: nat :| FirstLongest(path, mappings, k) && r' == Translate(path, mappings[k]);
      assert i == k;
    }
  }

  // ---------- which mapping wins ----------

  /** Matching remotes of equal length are the same string. */
  lemma EqualLengthSameRemote(path: string, a: Mapping, b: Mapping)
    requires Matches(path, a) && Matches(path, b)
    requires |Stripped(a.remotePath)| == |Stripped(b.remotePath)|
    ensures Stripped(a.remotePath) == Stripped(b.remotePath)
  {
    assert Stripped(a.remotePath) == path[..|Stripped(a.remotePath)|];
    assert Stripped(b.remotePath) == path[..|Stripped(b.remotePath)|];
  }

  lemma {:induction false} FirstLongestExists(path: string, mappings: seq<Mapping>, j: nat) returns (i: nat)
    requires j < |mappings| && Matches(path, mappings[j])
    ensures FirstLongest(path, mappings, i)
  {
    hide Matches;
    var n := |mappings| - 1;
    assert forall k :: 0 <= k < n ==> mappings[k] == mappings[..n][k];
    if k :| 0 <= k < n && Matches(path, mappings[k]) {
      i := FirstLongestExists(path, mappings[..n], k);
      if Matches(path, mappings[n]) && |Stripped(mappings[n].remotePath)| > |Stripped(mappings[i].remotePath)| {
        i := n;
      }
    } else {
      i := n;
    }
  }

  ghost predicate Longest(path: string, mappings: seq<Mapping>, m: Mapping) {
    && m in mappings && Matches(path, m)
    && forall o :: o in mappings && Matches(path, o) ==> |Stripped(o.remotePath)| <= |Stripped(m.remotePath)|
  }

  /** Longest matching mappings, which share their remote, also share their local path. */
  ghost predicate LocalsAgree(path: string, mappings: seq<Mapping>) {
    forall a, b :: Longest(path, mappings, a) && Longest(path, mappings, b) ==>
      Stripped(a.localPath) == Stripped(b.localPath)
  }

  ghost predicate SameInAnyOrder(path: string, mappings: seq<Mapping>) {
    forall other, r, r' ::
      multiset(other) == multiset(mappings) && ResolvesTo(path, mappings, r) && ResolvesTo(path, other, r') ==> r == r'
  }

  lemma FirstIsLongest(path: string, mappings: seq<Mapping>, i: nat)
    requires FirstLongest(path, mappings, i)
    ensures Longest(path, mappings, mappings[i])
  {
    hide Matches;
  }

  /** A longest mapping moved to the front is the one applied. */
  lemma FrontWins(path: string, mappings: seq<Mapping>, m: Mapping) returns (other: seq<Mapping>)
    requires Longest(path, mappings, m)
    ensures multiset(other) == multiset(mappings) && ResolvesTo(path, other, Translate(path, m))
  {
    hide Matches;
    var k :| 0 <= k < |mappings| && mappings[k] == m;
    other := [m] + mappings[..k] + mappings[k + 1..];
    assert mappings == mappings[..k] + [m] + mappings[k + 1..];
    assert forall j :: 0 <= j < |other| ==> other[j] in mappings;
    assert FirstLongest(path, other, 0);
    assert other[0] == m;
  }

  /**
   Reordering the mappings can change the result exactly when the longest matching remote is
   configured twice with different local paths.
   */
  lemma OrderIndependentIff(path: string, mappings: seq<Mapping>)
    ensures SameInAnyOrder(path, mappings) <==> LocalsAgree(path, mappings)
  {
    hide Matches, Translate, FirstLongest;
    if LocalsAgree(path, mappings) {
      forall other, r, r' |
        multiset(other) == multiset(mappings) && ResolvesTo(path, mappings, r) && ResolvesTo(path, other, r')
        ensures r == r'
      {
        SameResult(path, mappings, other, r, r');
      }
    } else {
      var a, b :| Longest(path, mappings, a) && Longest(path, mappings, b)
               && Stripped(a.localPath) != Stripped(b.localPath);
      DifferentTranslations(path, a, b);
      var first := FrontWins(path, mappings, a);
      var second := FrontWins(path, mappings, b);
      ResultExists(path, mappings);
    }
  }

  lemma ResultExists(path: string, mappings: seq<Mapping>)
    ensures exists r :: ResolvesTo(path, mappings, r)
  {
    hide Matches, FirstLongest;
    if j :| 0 <= j < |mappings| && Matches(path, mappings[j]) {
      var i := FirstLongestExists(path, mappings, j);
      LongestMatches(path, mappings, i);
      assert ResolvesTo(path, mappings, Translate(path, mappings[i]));
    } else {
      assert ResolvesTo(path, mappings, path);
    }
  }

  lemma DifferentTranslations(path: string, a: Mapping, b: Mapping)
    requires Matches(path, a) && Matches(path, b)
    requires |Stripped(a.remotePath)| == |Stripped(b.remotePath)|
    ensures Translate(path, a) == Translate(path, b) <==> Stripped(a.localPath) == Stripped(b.localPath)
  {
    EqualLengthSameRemote(path, a, b);
    SameBeforeRest(Stripped(a.localPath), Stripped(b.localPath), path[|Stripped(a.remotePath)|..]);
  }

  lemma SameBeforeRest(x: string, y: string, rest: string)
    ensures x + rest == y + rest <==> x == y
  {
    if x + rest == y + rest {
      assert |x| == |y|;
      assert x == (x + rest)[..|x|];
    }
  }

  lemma SameResult(path: string, mappings: seq<Mapping>, other: seq<Mapping>, r: string, r': string)
    requires multiset(other) == multiset(mappings) && LocalsAgree(path, mappings)
    requires ResolvesTo(path, mappings, r) && ResolvesTo(path, other, r')
    ensures r == r'
  {
    hide Matches, Translate;
    assert forall m :: m in other <==> m in multiset(other);
    assert forall m :: m in mappings <==> m in multiset(mappings);
    if exists j :: 0 <= j < |mappings| && Matches(path, mappings[j]) {
      var j :| 0 <= j < |mappings| && Matches(path, mappings[j]);
      assert mappings[j] in other;
      var i: nat :| FirstLongest(path, mappings, i) && r == Translate(path, mappings[i]);
      var k: nat :| FirstLongest(path, other, k) && r' == Translate(path, other[k]);
      FirstIsLongest(path, mappings, i);
      FirstIsLongest(path, other, k);
      assert Longest(path, mappings, other[k]);
      DifferentTranslations(path, mappings[i], other[k]);
    } else {
      assert forall k :: 0 <= k < |other| ==> other[k] in mappings;
    }
  }

  // ---------- there and back ----------

  function Reversed(m: Mapping): Mapping {
    Mapping(m.localPath, m.remotePath, m.enabled)
  }

  lemma SingleResult(path: string, m: Mapping, r: string)
    ensures ResolvesTo(path, [m], r) <==> r == if Matches(path, m) then Translate(path, m) else path
  {
    assert [m][0] == m;
    assert Matches(path, m) ==> FirstLongest(path, [m], 0);
  }

  /** What follows a match starts at a separator, so it follows any other prefix as well. */
  lemma BoundaryMoves(path: string, remote: string, local: string)
    requires OnBoundary(path, remote)
    ensures remote <= path && OnBoundary(local + path[|remote|..], local)
    ensures (local + path[|remote|..])[|local|..] == path[|remote|..]
    ensures remote + path[|remote|..] == path
  {
    var rest := path[|remote|..];
    assert path == remote + rest;
    assert rest == "" || "/" <= rest || "\\" <= rest by {
      if rest != "" {
        assert path[|remote|] == rest[0];
        assert remote + "/" <= path ==> (remote + "/")[|remote|] == path[|remote|];
        assert remote + "\\" <= path ==> (remote + "\\")[|remote|] == path[|remote|];
      }
    }
    if rest == "" {
      assert local + rest == local;
    }
  }

  lemma BackAgain(path: string, m: Mapping)
    requires Matches(path, m)
    ensures var there := Translate(path, m);
      if Stripped(m.localPath) != ""
      then Matches(there, Reversed(m)) && Translate(there, Reversed(m)) == path
      else !Matches(there, Reversed(m)) && there != path
  {
    hide OnBoundary;
    BoundaryMoves(path, Stripped(m.remotePath), Stripped(m.localPath));
  }

  lemma OnlyBack(path: string, m: Mapping)
    requires !Matches(path, m) && Matches(path, Reversed(m))
    ensures Translate(path, Reversed(m)) != path
  {
    hide OnBoundary;
    var remote, local := Stripped(m.remotePath), Stripped(m.localPath);
    RemoteIsPrefix(path, Reversed(m));
    BoundaryMoves(path, local, remote);
    SameBeforeRest(remote, local, path[|local|..]);
  }

  /**
   Mapping with (remote, local) and then with (local, remote): a path the mapping applies to
   comes back exactly when something is left of the local path after stripping; a path it does
   not apply to comes back exactly when the reverse mapping does not apply either.
   */
  lemma ThereAndBack(path: string, m: Mapping, there: string, back: string)
    requires ResolvesTo(path, [m], there) && ResolvesTo(there, [Reversed(m)], back)
    ensures back == path <==>
      if Matches(path, m) then Stripped(m.localPath) != "" else !Matches(path, Reversed(m))
  {
    hide Matches, Translate, ResolvesTo;
    SingleResult(path, m, there);
    SingleResult(there, Reversed(m), back);
    if Matches(path, m) {
      BackAgain(path, m);
    } else if Matches(path, Reversed(m)) {
      OnlyBack(path, m);
    }
  }

  /** A mapping from `/d` to `/`: `/d/x` becomes `/x`, and the reverse mapping leaves it there. */
  lemma RootMappingStays(there: string, back: string)
    requires ResolvesTo("/d/x", [Mapping("/d", "/", true)], there)
    requires ResolvesTo(there, [Mapping("/", "/d", true)], back)
    ensures there == "/x" && back == "/x"
  {
    var m := Mapping("/d", "/", true);
    StrippedExamples();
    hide Stripped, ResolvesTo;
    assert "/d" + "/" <= "/d/x" && "/d/x"[2..] == "/x";
    assert Matches("/d/x", m) && Translate("/d/x", m) == "" + "/x" == "/x";
    SingleResult("/d/x", m, there);
    SingleResult(there, Reversed(m), back);
  }

  lemma StrippedExamples()
    ensures Stripped("/d") == "/d" && Stripped("/") == ""
  {
    assert RStripChars("", {'/', '\\'}) == "";
  }
}
