/**
 Keeping write-only download-client secrets when a settings document is saved back
 (app/api/routes_settings.py).
 */
module Secrets {

  datatype Client = Client(kind: string, name: string, apiKey: string, password: string)

  // ---------- which stored client an incoming one is matched with ----------

  predicate SameKey(a: Client, b: Client) {
    a.kind == b.kind && a.name == b.name
  }

  /** `previous.get((type, name))` finds `stored[j]`: the last stored client with this key. */
  ghost predicate LastWithKey(stored: seq<Client>, c: Client, j: nat) {
    && j < |stored| && SameKey(stored[j], c)
    && forall k :: j < k < |stored| ==> !SameKey(stored[k], c)
  }

  ghost predicate HasKey(stored: seq<Client>, c: Client) {
    exists j :: 0 <= j < |stored| && SameKey(stored[j], c)
  }

  ghost predicate UsedDirectly(incoming: seq<Client>, stored: seq<Client>, j: nat) {
    exists i :: 0 <= i < |incoming| && LastWithKey(stored, incoming[i], j)
  }

  /** Incoming clients of a type without a stored client of the same name. */
  ghost function NewOnes(incoming: seq<Client>, stored: seq<Client>, kind: string): set<nat> {
    set i: nat | i < |incoming| && incoming[i].kind == kind && !HasKey(stored, incoming[i])
  }

  /** Stored clients of a type that no incoming one claimed by name. */
  ghost function LeftOver(incoming: seq<Client>, stored: seq<Client>, kind: string): set<nat> {
    set j: nat | j < |stored| && stored[j].kind == kind && !UsedDirectly(incoming, stored, j)
  }

  ghost predicate Renamed(incoming: seq<Client>, stored: seq<Client>, kind: string, i: nat, j: nat) {
    NewOnes(incoming, stored, kind) == {i} && LeftOver(incoming, stored, kind) == {j}
  }

  ghost predicate Matched(incoming: seq<Client>, stored: seq<Client>, i: nat, j: nat) {
    i < |incoming| && (LastWithKey(stored, incoming[i], j) || Renamed(incoming, stored, incoming[i].kind, i, j))
  }

  /** A blank secret of `c` while `prior` has one. */
  predicate Lacks(c: Client, prior: Client) {
    (c.apiKey == "" && prior.apiKey != "") || (c.password == "" && prior.password != "")
  }

  ghost predicate WouldLose(incoming: seq<Client>, stored: seq<Client>, kind: string) {
    && (forall i: nat, j: nat :: !Renamed(incoming, stored, kind, i, j))
    && exists i: nat, j: nat ::
      i in NewOnes(incoming, stored, kind) && j in LeftOver(incoming, stored, kind) && Lacks(incoming[i], stored[j])
  }

  ghost predicate Rejected(incoming: seq<Client>, stored: seq<Client>) {
    exists i :: 0 <= i < |incoming| && WouldLose(incoming, stored, incoming[i].kind)
  }

  function Filled(c: Client, prior: Client): Client {
    c.(apiKey := if c.apiKey == "" then prior.apiKey else c.apiKey,
       password := if c.password == "" then prior.password else c.password)
  }

  /** What a successful save leaves. */
  ghost predicate Saved(incoming: seq<Client>, stored: seq<Client>, after: seq<Client>) {
    && |after| == |incoming|
    && (forall i: nat, j: nat :: Matched(incoming, stored, i, j) ==> j < |stored| && after[i] == Filled(incoming[i], stored[j]))
    && (forall i: nat :: i < |incoming| && Unmatched(incoming, stored, i) ==> after[i] == incoming[i])
  }

  ghost predicate Unmatched(incoming: seq<Client>, stored: seq<Client>, i: nat) {
    forall j :: !Matched(incoming, stored, i, j)
  }

  // ---------- facts about matching ----------

  lemma {:induction false} LastExists(stored: seq<Client>, c: Client) returns (j: nat)
    requires HasKey(stored, c)
    ensures LastWithKey(stored, c, j)
  {
    var n := |stored| - 1;
    if SameKey(stored[n], c) {
      j := n;
    } else {
      j := LastExists(stored[..n], c);
    }
  }

  lemma MatchUnique(incoming: seq<Client>, stored: seq<Client>, i: nat, j: nat, k: nat)
    requires Matched(incoming, stored, i, j) && Matched(incoming, stored, i, k)
    ensures j == k && i < |incoming| && j < |stored| && stored[j].kind == incoming[i].kind
  {
    var kind := incoming[i].kind;
    if Renamed(incoming, stored, kind, i, j) || Renamed(incoming, stored, kind, i, k) {
      assert i in NewOnes(incoming, stored, kind);
      var m := if Renamed(incoming, stored, kind, i, j) then j else k;
      assert m in LeftOver(incoming, stored, kind);
    }
  }

  ghost predicate FilledFrom(incoming: seq<Client>, stored: seq<Client>, after: seq<Client>, i: nat, j: nat)
    requires i < |incoming| && i < |after|
  {
    && j < |stored| && stored[j].kind == incoming[i].kind
    && Matched(incoming, stored, i, j) && after[i] == Filled(incoming[i], stored[j])
  }

  /** No secret crosses types, and a secret that was sent is never overwritten. */
  lemma SecretsOfOwnType(incoming: seq<Client>, stored: seq<Client>, after: seq<Client>, i: nat)
    requires Saved(incoming, stored, after) && i < |incoming|
    ensures SameKey(after[i], incoming[i])
    ensures incoming[i].apiKey != "" ==> after[i].apiKey == incoming[i].apiKey
    ensures incoming[i].password != "" ==> after[i].password == incoming[i].password
    ensures after[i] != incoming[i] ==> exists j: nat :: FilledFrom(incoming, stored, after, i, j)
  {
    hide Matched;
    if j: nat :| Matched(incoming, stored, i, j) {
      MatchUnique(incoming, stored, i, j, j);
      assert FilledFrom(incoming, stored, after, i, j);
    } else {
      assert Unmatched(incoming, stored, i);
    }
  }

  /** Secret by secret: a blank one is the stored one, a sent one stays, whatever the other one is. */
  predicate SecretsKept(sent: Client, prior: Client, saved: Client) {
    && saved.kind == sent.kind && saved.name == sent.name
    && (sent.apiKey == "" ==> saved.apiKey == prior.apiKey) && (sent.apiKey != "" ==> saved.apiKey == sent.apiKey)
    && (sent.password == "" ==> saved.password == prior.password) && (sent.password != "" ==> saved.password == sent.password)
  }

  /** A client keeps the secrets of the last stored one with its type and name. */
  lemma NamesakeKept(incoming: seq<Client>, stored: seq<Client>, after: seq<Client>, i: nat, j: nat)
    requires Saved(incoming, stored, after) && i < |incoming| && j < |stored|
    requires stored[j].kind == incoming[i].kind && stored[j].name == incoming[i].name
    requires forall k :: j < k < |stored| ==> stored[k].kind != incoming[i].kind || stored[k].name != incoming[i].name
    ensures SecretsKept(incoming[i], stored[j], after[i])
  {
    assert LastWithKey(stored, incoming[i], j);
    assert Matched(incoming, stored, i, j);
  }

  /** The stored clients have one of this type and name. */
  ghost predicate Named(clients: seq<Client>, kind: string, name: string) {
    exists k :: 0 <= k < |clients| && clients[k].kind == kind && clients[k].name == name
  }

  /** `stored[j]` is the last of its type and name, and an incoming client has them too. */
  ghost predicate Claimed(incoming: seq<Client>, stored: seq<Client>, j: nat)
    requires j < |stored|
  {
    && Named(incoming, stored[j].kind, stored[j].name)
    && forall k :: j < k < |stored| ==> stored[k].kind != stored[j].kind || stored[k].name != stored[j].name
  }

  lemma ClaimedIsUsed(incoming: seq<Client>, stored: seq<Client>, j: nat)
    requires j < |stored|
    ensures Claimed(incoming, stored, j) <==> UsedDirectly(incoming, stored, j)
  {
    if Claimed(incoming, stored, j) {
      var i :| 0 <= i < |incoming| && incoming[i].kind == stored[j].kind && incoming[i].name == stored[j].name;
      assert LastWithKey(stored, incoming[i], j);
    }
    if UsedDirectly(incoming, stored, j) {
      var i: nat :| i < |incoming| && LastWithKey(stored, incoming[i], j);
      assert SameKey(stored[j], incoming[i]);
    }
  }

  /** Incoming client `i` is the only one of its type without a stored namesake. */
  ghost predicate OnlyNew(incoming: seq<Client>, stored: seq<Client>, i: nat)
    requires i < |incoming|
  {
    && !Named(stored, incoming[i].kind, incoming[i].name)
    && forall k :: 0 <= k < |incoming| && k != i && incoming[k].kind == incoming[i].kind ==>
      Named(stored, incoming[k].kind, incoming[k].name)
  }

  /** Stored client `j` is the only one of its type that nobody claims. */
  ghost predicate OnlyLeft(incoming: seq<Client>, stored: seq<Client>, j: nat)
    requires j < |stored|
  {
    && !Claimed(incoming, stored, j)
    && forall k :: 0 <= k < |stored| && k != j && stored[k].kind == stored[j].kind ==> Claimed(incoming, stored, k)
  }

  lemma NamedIsKey(stored: seq<Client>, c: Client)
    ensures Named(stored, c.kind, c.name) <==> HasKey(stored, c)
  {
    if k :| 0 <= k < |stored| && stored[k].kind == c.kind && stored[k].name == c.name {
      assert SameKey(stored[k], c);
    }
  }

  lemma RenamedIs(incoming: seq<Client>, stored: seq<Client>, i: nat, j: nat)
    requires i < |incoming| && j < |stored| && incoming[i].kind == stored[j].kind
    ensures Renamed(incoming, stored, incoming[i].kind, i, j) <==> OnlyNew(incoming, stored, i) && OnlyLeft(incoming, stored, j)
  {
    hide HasKey, Named, Claimed, UsedDirectly;
    var kind := incoming[i].kind;
    forall k: nat | k < |incoming|
      ensures k in NewOnes(incoming, stored, kind)
         <==> incoming[k].kind == kind && !Named(stored, incoming[k].kind, incoming[k].name)
    {
      NamedIsKey(stored, incoming[k]);
    }
    forall k: nat | k < |stored|
      ensures k in LeftOver(incoming, stored, kind) <==> stored[k].kind == kind && !Claimed(incoming, stored, k)
    {
      ClaimedIsUsed(incoming, stored, k);
    }
    if OnlyNew(incoming, stored, i) && OnlyLeft(incoming, stored, j) {
      assert NewOnes(incoming, stored, kind) == {i};
      assert LeftOver(incoming, stored, kind) == {j};
    }
    if Renamed(incoming, stored, kind, i, j) {
      assert i in NewOnes(incoming, stored, kind) && j in LeftOver(incoming, stored, kind);
      assert forall k: nat :: k in NewOnes(incoming, stored, kind) ==> k == i;
      assert forall k: nat :: k in LeftOver(incoming, stored, kind) ==> k == j;
    }
  }

  /** A sole new client of a type keeps the secrets of the sole stored one left of that type. */
  lemma SoleRenameKept(incoming: seq<Client>, stored: seq<Client>, after: seq<Client>, i: nat, j: nat)
    requires Saved(incoming, stored, after) && i < |incoming| && j < |stored| && incoming[i].kind == stored[j].kind
    requires OnlyNew(incoming, stored, i) && OnlyLeft(incoming, stored, j)
    ensures SecretsKept(incoming[i], stored[j], after[i])
  {
    RenamedIs(incoming, stored, i, j);
    assert Matched(incoming, stored, i, j);
  }

  /** A new client with a blank secret that a stored client of its type, claimed by nobody, has. */
  ghost predicate MayLose(incoming: seq<Client>, stored: seq<Client>, i: nat, j: nat) {
    && i < |incoming| && j < |stored| && incoming[i].kind == stored[j].kind
    && !Named(stored, incoming[i].kind, incoming[i].name) && !Claimed(incoming, stored, j)
    && ((incoming[i].apiKey == "" && stored[j].apiKey != "") || (incoming[i].password == "" && stored[j].password != ""))
  }

  /**
   A save is rejected exactly when some secret may be lost and which stored client a new one
   replaces is ambiguous.
   */
  lemma RejectedIff(incoming: seq<Client>, stored: seq<Client>)
    ensures Rejected(incoming, stored) <==>
      exists i: nat, j: nat ::
        MayLose(incoming, stored, i, j) && !(OnlyNew(incoming, stored, i) && OnlyLeft(incoming, stored, j))
  {
    hide HasKey, Named, Claimed, UsedDirectly, Renamed, OnlyNew, OnlyLeft;
    forall i: nat | i < |incoming|
      ensures Named(stored, incoming[i].kind, incoming[i].name) <==> HasKey(stored, incoming[i])
    {
      NamedIsKey(stored, incoming[i]);
    }
    forall j: nat | j < |stored|
      ensures Claimed(incoming, stored, j) <==> UsedDirectly(incoming, stored, j)
    {
      ClaimedIsUsed(incoming, stored, j);
    }
    forall i: nat, j: nat | i < |incoming| && j < |stored| && incoming[i].kind == stored[j].kind
      ensures Renamed(incoming, stored, incoming[i].kind, i, j) <==> OnlyNew(incoming, stored, i) && OnlyLeft(incoming, stored, j)
    {
      RenamedIs(incoming, stored, i, j);
    }
    if i: nat, j: nat :| MayLose(incoming, stored, i, j) && !(OnlyNew(incoming, stored, i) && OnlyLeft(incoming, stored, j)) {
      var kind := incoming[i].kind;
      assert i in NewOnes(incoming, stored, kind) && j in LeftOver(incoming, stored, kind) && Lacks(incoming[i], stored[j]);
      forall a: nat, b: nat
        ensures !Renamed(incoming, stored, kind, a, b)
      {
        RenamedAreSole(incoming, stored, kind, a, b);
      }
      assert WouldLose(incoming, stored, kind);
    }
    if Rejected(incoming, stored) {
      var k :| 0 <= k < |incoming| && WouldLose(incoming, stored, incoming[k].kind);
      var kind := incoming[k].kind;
      var i: nat, j: nat :|
        i in NewOnes(incoming, stored, kind) && j in LeftOver(incoming, stored, kind) && Lacks(incoming[i], stored[j]);
      assert MayLose(incoming, stored, i, j);
    }
  }

  lemma RenamedAreSole(incoming: seq<Client>, stored: seq<Client>, kind: string, a: nat, b: nat)
    ensures Renamed(incoming, stored, kind, a, b) ==>
      && (forall i: nat :: i in NewOnes(incoming, stored, kind) <==> i == a)
      && (forall j: nat :: j in LeftOver(incoming, stored, kind) <==> j == b)
  {
    hide NewOnes, LeftOver;
  }

  /**
   After a save that is not rejected, no unmatched client is left without a secret that an
   unmatched stored client of its type had.
   */
  lemma NothingLost(incoming: seq<Client>, stored: seq<Client>, i: nat, j: nat)
    requires i < |incoming| && j < |stored| && incoming[i].kind == stored[j].kind
    requires Unmatched(incoming, stored, i) && forall k :: !Matched(incoming, stored, k, j)
    requires !Rejected(incoming, stored)
    ensures stored[j].apiKey != "" ==> incoming[i].apiKey != ""
    ensures stored[j].password != "" ==> incoming[i].password != ""
  {
    var kind := incoming[i].kind;
    assert !WouldLose(incoming, stored, kind);
    assert i in NewOnes(incoming, stored, kind) by {
      if HasKey(stored, incoming[i]) {
        var m := LastExists(stored, incoming[i]);
        assert Matched(incoming, stored, i, m);
      }
    }
    assert j in LeftOver(incoming, stored, kind) by {
      if m: nat :| 0 <= m < |incoming| && LastWithKey(stored, incoming[m], j) {
        assert Matched(incoming, stored, m, j);
      }
    }
    if a: nat, b: nat :| Renamed(incoming, stored, kind, a, b) {
      assert Renamed(incoming, stored, kind, i, b);
      assert Matched(incoming, stored, i, b);
    }
  }

  // ---------- saving ----------

  ghost predicate Exact(matched: map<nat, nat>, incoming: seq<Client>, stored: seq<Client>) {
    forall i: nat, j: nat :: (i in matched && matched[i] == j) <==> Matched(incoming, stored, i, j)
  }

  function FilledAt(matched: map<nat, nat>, incoming: seq<Client>, stored: seq<Client>, i: nat): Client
    requires i < |incoming| && (i in matched ==> matched[i] < |stored|)
  {
    if i in matched then Filled(incoming[i], stored[matched[i]]) else incoming[i]
  }

  lemma ExactInRange(matched: map<nat, nat>, incoming: seq<Client>, stored: seq<Client>)
    requires Exact(matched, incoming, stored)
    ensures forall i :: i in matched ==> i < |incoming| && matched[i] < |stored|
  {
    hide Matched;
    forall i | i in matched
      ensures i < |incoming| && matched[i] < |stored|
    {
      MatchUnique(incoming, stored, i, matched[i], matched[i]);
    }
  }

  lemma SavedByFilling(matched: map<nat, nat>, incoming: seq<Client>, stored: seq<Client>, after: seq<Client>)
    requires Exact(matched, incoming, stored) && |after| == |incoming|
    requires forall i :: i in matched ==> i < |incoming| && matched[i] < |stored|
    requires forall i: nat :: i < |after| ==> after[i] == FilledAt(matched, incoming, stored, i)
    ensures Saved(incoming, stored, after)
  {
    hide Matched;
    forall i: nat, j: nat | Matched(incoming, stored, i, j)
      ensures j < |stored| && i < |incoming| && after[i] == Filled(incoming[i], stored[j])
    {
      MatchUnique(incoming, stored, i, j, j);
      assert i in matched && matched[i] == j;
    }
    assert forall i :: i in matched ==> Matched(incoming, stored, i, matched[i]);
    forall i: nat | i < |incoming| && Unmatched(incoming, stored, i)
      ensures after[i] == incoming[i]
    {
    }
  }

  method PreserveSecrets(incoming: array<Client>, stored: seq<Client>) returns (ok: bool)
    modifies incoming
    ensures ok <==> !Rejected(old(incoming[..]), stored)
    ensures ok ==> Saved(old(incoming[..]), stored, incoming[..])
    ensures !ok ==> incoming[..] == old(incoming[..])
  {
    hide *;
    ghost var was := incoming[..];
    var direct := MatchByKey(incoming[..], stored);
    var accepted, matched := MatchByType(incoming[..], stored, direct);
    if !accepted {
      return false;
    }
    ExactInRange(matched, was, stored);
    for idx := 0 to incoming.Length
      invariant forall i: nat :: i < idx ==> incoming[i] == FilledAt(matched, was, stored, i)
      invariant forall i: nat :: idx <= i < incoming.Length ==> incoming[i] == was[i]
    {
      FillStep(matched, was, stored, idx);
      if idx in matched {
        incoming[idx] := Filled(incoming[idx], stored[matched[idx]]);
      }
    }
    SavedByFilling(matched, was, stored, incoming[..]);
    ok := true;
  }

  lemma FillStep(matched: map<nat, nat>, incoming: seq<Client>, stored: seq<Client>, i: nat)
    requires i < |incoming| && (i in matched ==> matched[i] < |stored|)
    ensures FilledAt(matched, incoming, stored, i)
         == if i in matched then Filled(incoming[i], stored[matched[i]]) else incoming[i]
  {}

  /** The first loop: matches by type and name. */
  method MatchByKey(incoming: seq<Client>, stored: seq<Client>) returns (matched: map<nat, nat>)
    ensures Records(matched, incoming, stored, {})
  {
    var previous: map<(string, string), nat> := map[];
    for j := 0 to |stored|
      invariant forall kind, name :: (kind, name) in previous ==>
        previous[(kind, name)] < j && LastWithKey(stored[..j], Client(kind, name, "", ""), previous[(kind, name)])
      invariant forall k :: 0 <= k < j ==> (stored[k].kind, stored[k].name) in previous
    {
      assert forall k :: 0 <= k < j ==> stored[..j + 1][k] == stored[..j][k];
      previous := previous[(stored[j].kind, stored[j].name) := j];
    }
    assert stored[..|stored|] == stored;
    matched := map[];
    for idx := 0 to |incoming|
      invariant forall i :: i in matched ==> i < idx && LastWithKey(stored, incoming[i], matched[i])
      invariant forall i: nat :: i < idx && HasKey(stored, incoming[i]) ==> i in matched
    {
      var key := (incoming[idx].kind, incoming[idx].name);
      if key in previous {
        matched := matched[idx := previous[key]];
      }
    }
    forall i: nat, j: nat
      ensures (i in matched && matched[i] == j) <==> MatchedBy(incoming, stored, {}, i, j)
    {
      if i < |incoming| && LastWithKey(stored, incoming[i], j) {
        assert i in matched;
      }
    }
  }

  /** The matches once the types in `done` have been looked at. */
  ghost predicate MatchedBy(incoming: seq<Client>, stored: seq<Client>, done: set<string>, i: nat, j: nat) {
    && i < |incoming|
    && (LastWithKey(stored, incoming[i], j)
        || (incoming[i].kind in done && Renamed(incoming, stored, incoming[i].kind, i, j)))
  }

  ghost predicate Records(matched: map<nat, nat>, incoming: seq<Client>, stored: seq<Client>, done: set<string>) {
    forall i: nat, j: nat :: (i in matched && matched[i] == j) <==> MatchedBy(incoming, stored, done, i, j)
  }

  lemma Singleton(s: set<nat>, x: nat)
    requires x in s
    ensures |s| == 1 <==> s == {x}
  {
    if |s| == 1 {
      assert |s - {x}| == 0;
    }
  }

  lemma RenamedSizes(incoming: seq<Client>, stored: seq<Client>, kind: string)
    ensures (exists i: nat, j: nat :: Renamed(incoming, stored, kind, i, j))
       <==> |NewOnes(incoming, stored, kind)| == 1 && |LeftOver(incoming, stored, kind)| == 1
  {
    var news, left := NewOnes(incoming, stored, kind), LeftOver(incoming, stored, kind);
    if |news| == 1 && |left| == 1 {
      var i, j :| i in news && j in left;
      Singleton(news, i);
      Singleton(left, j);
      assert Renamed(incoming, stored, kind, i, j);
    }
  }

  lemma NewOnesAre(matched: map<nat, nat>, incoming: seq<Client>, stored: seq<Client>, done: set<string>, kind: string)
    requires Records(matched, incoming, stored, done) && kind !in done
    ensures NewOnes(incoming, stored, kind)
         == set i: nat | i < |incoming| && incoming[i].kind == kind && i !in matched
  {
    forall i: nat | i < |incoming| && incoming[i].kind == kind
      ensures i in matched <==> HasKey(stored, incoming[i])
    {
      if HasKey(stored, incoming[i]) {
        var j := LastExists(stored, incoming[i]);
        assert MatchedBy(incoming, stored, done, i, j);
      }
      if i in matched {
        assert MatchedBy(incoming, stored, done, i, matched[i]);
      }
    }
  }

  lemma LeftOverAre(direct: map<nat, nat>, incoming: seq<Client>, stored: seq<Client>, kind: string)
    requires Records(direct, incoming, stored, {})
    ensures LeftOver(incoming, stored, kind)
         == set j: nat | j < |stored| && stored[j].kind == kind && j !in direct.Values
  {
    forall j: nat | j < |stored|
      ensures j in direct.Values <==> UsedDirectly(incoming, stored, j)
    {
      if j in direct.Values {
        var i :| i in direct && direct[i] == j;
        assert MatchedBy(incoming, stored, {}, i, j);
      }
      if i: nat :| 0 <= i < |incoming| && LastWithKey(stored, incoming[i], j) {
        assert MatchedBy(incoming, stored, {}, i, j);
        assert direct[i] in direct.Values;
      }
    }
  }

  lemma RecordRenamed(matched: map<nat, nat>, incoming: seq<Client>, stored: seq<Client>, done: set<string>,
                      kind: string, i: nat, j: nat)
    requires Records(matched, incoming, stored, done) && kind !in done
    requires Renamed(incoming, stored, kind, i, j)
    ensures Records(matched[i := j], incoming, stored, done + {kind})
  {
    assert i in NewOnes(incoming, stored, kind);
    forall a: nat, b: nat
      ensures (a in matched[i := j] && matched[i := j][a] == b) <==> MatchedBy(incoming, stored, done + {kind}, a, b)
    {
      assert (a in matched && matched[a] == b) <==> MatchedBy(incoming, stored, done, a, b);
      if a < |incoming| && Renamed(incoming, stored, kind, a, b) {
        assert a in NewOnes(incoming, stored, kind) && b in LeftOver(incoming, stored, kind);
      }
    }
  }

  lemma RecordNothing(matched: map<nat, nat>, incoming: seq<Client>, stored: seq<Client>, done: set<string>, kind: string)
    requires Records(matched, incoming, stored, done)
    requires forall i: nat, j: nat :: !Renamed(incoming, stored, kind, i, j)
    ensures Records(matched, incoming, stored, done + {kind})
  {
    forall a: nat, b: nat
      ensures (a in matched && matched[a] == b) <==> MatchedBy(incoming, stored, done + {kind}, a, b)
    {
      assert (a in matched && matched[a] == b) <==> MatchedBy(incoming, stored, done, a, b);
    }
  }

  lemma RecordsAll(matched: map<nat, nat>, incoming: seq<Client>, stored: seq<Client>, done: set<string>)
    requires Records(matched, incoming, stored, done)
    requires forall i :: 0 <= i < |incoming| ==> incoming[i].kind in done
    ensures Exact(matched, incoming, stored)
  {
    forall i: nat, j: nat
      ensures (i in matched && matched[i] == j) <==> Matched(incoming, stored, i, j)
    {
      assert (i in matched && matched[i] == j) <==> MatchedBy(incoming, stored, done, i, j);
    }
  }

  /** The second loop: per type, in any order, a sole rename is matched; an ambiguous loss rejects. */
  method MatchByType(incoming: seq<Client>, stored: seq<Client>, direct: map<nat, nat>)
    returns (accepted: bool, matched: map<nat, nat>)
    requires Records(direct, incoming, stored, {})
    ensures accepted <==> !Rejected(incoming, stored)
    ensures accepted ==> Exact(matched, incoming, stored)
  {
    hide Records, Renamed, NewOnes, LeftOver, Matched, Lacks, Exact, LastWithKey, HasKey;
    matched := direct;
    var used := direct.Values;
    var kinds := set c | c in incoming :: c.kind;
    ghost var done: set<string> := {};
    while kinds != {}
      invariant kinds !! done
      invariant forall i :: 0 <= i < |incoming| ==> incoming[i].kind in kinds + done
      invariant Records(matched, incoming, stored, done)
      invariant forall kind :: kind in done ==> !WouldLose(incoming, stored, kind)
      invariant forall kind :: kind in kinds ==> exists i :: 0 <= i < |incoming| && incoming[i].kind == kind
      decreases |kinds|
    {
      var kind :| kind in kinds;
      kinds := kinds - {kind};
      NewOnesAre(matched, incoming, stored, done, kind);
      LeftOverAre(direct, incoming, stored, kind);
      RenamedSizes(incoming, stored, kind);
      var newIdx := set i: nat | i < |incoming| && incoming[i].kind == kind && i !in matched;
      var oldLeft := set j: nat | j < |stored| && stored[j].kind == kind && j !in used;
      if |newIdx| == 1 && |oldLeft| == 1 {
        var i :| i in newIdx;
        var j :| j in oldLeft;
        SoleRename(incoming, stored, kind, i, j);
        RecordRenamed(matched, incoming, stored, done, kind, i, j);
        matched := matched[i := j];
        done := done + {kind};
        continue;
      }
      var wouldLose := exists i: nat, j: nat :: i in newIdx && j in oldLeft && Lacks(incoming[i], stored[j]);
      WouldLoseIs(incoming, stored, kind, newIdx, oldLeft);
      if wouldLose {
        return false, matched;
      }
      RecordNothing(matched, incoming, stored, done, kind);
      done := done + {kind};
    }
    RecordsAll(matched, incoming, stored, done);
    accepted := true;
  }

  lemma WouldLoseIs(incoming: seq<Client>, stored: seq<Client>, kind: string, news: set<nat>, left: set<nat>)
    requires news == NewOnes(incoming, stored, kind) && left == LeftOver(incoming, stored, kind)
    requires !(|news| == 1 && |left| == 1)
    ensures WouldLose(incoming, stored, kind)
       <==> exists i: nat, j: nat :: i in news && j in left && Lacks(incoming[i], stored[j])
  {
    RenamedSizes(incoming, stored, kind);
    hide Renamed;
  }

  lemma SoleRename(incoming: seq<Client>, stored: seq<Client>, kind: string, i: nat, j: nat)
    requires |NewOnes(incoming, stored, kind)| == 1 && |LeftOver(incoming, stored, kind)| == 1
    requires i in NewOnes(incoming, stored, kind) && j in LeftOver(incoming, stored, kind)
    ensures Renamed(incoming, stored, kind, i, j)
  {
    Singleton(NewOnes(incoming, stored, kind), i);
    Singleton(LeftOver(incoming, stored, kind), j);
  }

  // ---------- saving back what was read ----------

  /** A client as the settings API returns it. */
  function Blanked(c: Client): Client {
    c.(apiKey := "", password := "")
  }

  function BlankedAll(stored: seq<Client>): (r: seq<Client>)
    ensures |r| == |stored| && forall i :: 0 <= i < |r| ==> r[i] == Blanked(stored[i])
  {
    seq(|stored|, i requires 0 <= i < |stored| => Blanked(stored[i]))
  }

  predicate SameSecrets(a: Client, b: Client) {
    a.apiKey == b.apiKey && a.password == b.password
  }

  /** Clients sharing type and name share their secrets (in particular when no two share both). */
  predicate KeysDetermineSecrets(stored: seq<Client>) {
    forall i, j :: 0 <= i < j < |stored| && SameKey(stored[i], stored[j]) ==> SameSecrets(stored[i], stored[j])
  }

  ghost predicate EachAsItsLast(stored: seq<Client>) {
    forall i: nat, j: nat :: i < |stored| && LastWithKey(stored, stored[i], j) ==> SameSecrets(stored[i], stored[j])
  }

  lemma LastDetermines(stored: seq<Client>)
    ensures EachAsItsLast(stored) <==> KeysDetermineSecrets(stored)
  {
    if EachAsItsLast(stored) {
      forall i, j | 0 <= i < j < |stored| && SameKey(stored[i], stored[j])
        ensures SameSecrets(stored[i], stored[j])
      {
        var k := LastExists(stored, stored[i]);
        assert LastWithKey(stored, stored[j], k);
      }
    }
  }

  lemma BlankedMatch(stored: seq<Client>, i: nat, j: nat)
    requires i < |stored|
    ensures LastWithKey(stored, BlankedAll(stored)[i], j) <==> LastWithKey(stored, stored[i], j)
    ensures HasKey(stored, BlankedAll(stored)[i])
  {
    assert SameKey(stored[i], BlankedAll(stored)[i]);
  }

  /**
   Saving back a document with its secrets blanked is never rejected, and restores every client
   exactly when clients with the same type and name have the same secrets.
   */
  lemma RoundTripIff(stored: seq<Client>, after: seq<Client>)
    requires Saved(BlankedAll(stored), stored, after)
    ensures !Rejected(BlankedAll(stored), stored)
    ensures after == stored <==> KeysDetermineSecrets(stored)
  {
    var incoming := BlankedAll(stored);
    forall i: nat | i < |stored|
      ensures HasKey(stored, incoming[i])
    {
      BlankedMatch(stored, i, i);
    }
    hide Blanked, SameSecrets, KeysDetermineSecrets, EachAsItsLast;
    assert forall kind :: NewOnes(incoming, stored, kind) == {};
    LastDetermines(stored);
    forall i: nat, j: nat | i < |stored| && LastWithKey(stored, stored[i], j)
      ensures after[i] == stored[i] <==> SameSecrets(stored[i], stored[j])
    {
      BlankedMatch(stored, i, j);
      assert Matched(incoming, stored, i, j);
      RestoredIff(stored[i], stored[j]);
    }
    AfterIff(stored, after);
  }

  lemma RestoredIff(c: Client, prior: Client)
    ensures Filled(Blanked(c), prior) == c <==> SameSecrets(c, prior)
  {}

  lemma AfterIff(stored: seq<Client>, after: seq<Client>)
    requires |after| == |stored|
    requires forall i: nat, j: nat :: i < |stored| && LastWithKey(stored, stored[i], j) ==>
      (after[i] == stored[i] <==> SameSecrets(stored[i], stored[j]))
    ensures after == stored <==> EachAsItsLast(stored)
  {
    hide SameSecrets;
    if EachAsItsLast(stored) {
      forall i: nat | i < |stored|
        ensures after[i] == stored[i]
      {
        assert SameKey(stored[i], stored[i]);
        var j := LastExists(stored, stored[i]);
      }
    }
  }

  predicate DistinctKeys(stored: seq<Client>) {
    forall i, j :: 0 <= i < j < |stored| ==> !SameKey(stored[i], stored[j])
  }

  /** One client renamed (its type kept) in an otherwise blanked document keeps its secrets. */
  lemma RenameKeepsSecrets(stored: seq<Client>, k: nat, name: string, after: seq<Client>)
    requires k < |stored| && DistinctKeys(stored)
    requires forall j :: 0 <= j < |stored| ==> !SameKey(stored[j], stored[k].(name := name))
    requires Saved(BlankedAll(stored)[k := Blanked(stored[k]).(name := name)], stored, after)
    ensures !Rejected(BlankedAll(stored)[k := Blanked(stored[k]).(name := name)], stored)
    ensures after == stored[k := stored[k].(name := name)]
  {
    var incoming := BlankedAll(stored)[k := Blanked(stored[k]).(name := name)];
    var kind := stored[k].kind;
    forall i: nat | i < |stored|
      ensures i != k ==> LastWithKey(stored, incoming[i], i)
      ensures HasKey(stored, incoming[i]) <==> i != k
    {
      RenamedKeys(stored, k, name, i);
    }
    assert NewOnes(incoming, stored, kind) == {k};
    forall other | other != kind
      ensures NewOnes(incoming, stored, other) == {}
    {
    }
    forall j: nat | j < |stored|
      ensures UsedDirectly(incoming, stored, j) <==> j != k
    {
      if j == k {
        forall i: nat | i < |incoming|
          ensures !LastWithKey(stored, incoming[i], k)
        {
          assert i == k ==> !HasKey(stored, incoming[i]);
          assert i != k ==> SameKey(stored[i], incoming[i]);
        }
      } else {
        assert LastWithKey(stored, incoming[j], j);
      }
    }
    assert LeftOver(incoming, stored, kind) == {k};
    assert Renamed(incoming, stored, kind, k, k);
    forall i: nat | i < |stored|
      ensures after[i] == stored[k := stored[k].(name := name)][i]
    {
      assert Matched(incoming, stored, i, i);
    }
  }

  lemma RenamedKeys(stored: seq<Client>, k: nat, name: string, i: nat)
    requires k < |stored| && i < |stored| && DistinctKeys(stored)
    requires forall j :: 0 <= j < |stored| ==> !SameKey(stored[j], stored[k].(name := name))
    ensures var incoming := BlankedAll(stored)[k := Blanked(stored[k]).(name := name)];
      && (i != k ==> LastWithKey(stored, incoming[i], i))
      && (HasKey(stored, incoming[i]) <==> i != k)
  {
    var incoming := BlankedAll(stored)[k := Blanked(stored[k]).(name := name)];
    if i != k {
      assert SameKey(stored[i], incoming[i]);
    } else {
      assert forall j :: 0 <= j < |stored| ==>
        (SameKey(stored[j], incoming[k]) <==> SameKey(stored[j], stored[k].(name := name)));
    }
  }
}
