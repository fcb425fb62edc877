/**
 Which configured root folder a path belongs to: the pollers' textual tests
 (app/sab_auto_import.py) and the importer's common-path test (app/library/importer.py).
 */
module RootFolders {
  import opened Options
  import opened Paths

  /** A row of `root_folders`, as stored: the path need not be canonical. */
  datatype RootFolder = RootFolder(id: nat, path: string, strategy: string)

  predicate Governs(cwd: Path, row: RootFolder, p: Path) {
    Resolve(cwd, row.path) <= p
  }

  ghost predicate FirstGoverning(cwd: Path, rows: seq<RootFolder>, p: Path, i: nat) {
    && i < |rows| && Governs(cwd, rows[i], p)
    && forall j :: 0 <= j < i ==> !Governs(cwd, rows[j], p)
  }

  /** `r` is the first governing row, or nothing when no row governs. */
  ghost predicate IsGoverning(cwd: Path, rows: seq<RootFolder>, p: Path, r: Option<RootFolder>) {
    && (r.None? <==> forall i :: 0 <= i < |rows| ==> !Governs(cwd, rows[i], p))
    && (r.Some? ==> exists i: nat :: FirstGoverning(cwd, rows, p, i) && rows[i] == r.value)
  }

  lemma GoverningExtends(cwd: Path, rows: seq<RootFolder>, p: Path, r: Option<RootFolder>)
    requires rows != [] && !Governs(cwd, rows[0], p) && IsGoverning(cwd, rows[1..], p, r)
    ensures IsGoverning(cwd, rows, p, r)
  {
    hide Governs;
    assert forall i :: 1 <= i < |rows| ==> rows[1..][i - 1] == rows[i];
    if r.Some? {
      var i: nat :| FirstGoverning(cwd, rows[1..], p, i) && rows[1..][i] == r.value;
      assert FirstGoverning(cwd, rows, p, i + 1);
    }
  }

  lemma GoverningFirst(cwd: Path, rows: seq<RootFolder>, p: Path)
    requires rows != [] && Governs(cwd, rows[0], p)
    ensures IsGoverning(cwd, rows, p, Some(rows[0]))
  {
    hide Governs;
    assert FirstGoverning(cwd, rows, p, 0);
  }

  /** The first row whose resolved path is `p` or an ancestor of it. */
  function Governing(cwd: Path, rows: seq<RootFolder>, p: Path): (r: Option<RootFolder>)
    ensures IsGoverning(cwd, rows, p, r)
  {
    if rows == [] then None
    else if Governs(cwd, rows[0], p) then
      GoverningFirst(cwd, rows, p);
      Some(rows[0])
    else
      var r := Governing(cwd, rows[1..], p);
      GoverningExtends(cwd, rows, p, r);
      r
  }

  /** Row `i` is the first whose root is the path or one of its ancestors. */
  ghost predicate FirstAbove(cwd: Path, rows: seq<RootFolder>, p: Path, i: nat) {
    && i < |rows| && Resolve(cwd, rows[i].path) <= p
    && forall j :: 0 <= j < i ==> !(Resolve(cwd, rows[j].path) <= p)
  }

  lemma GoverningIs(cwd: Path, rows: seq<RootFolder>, p: Path)
    ensures var row := Governing(cwd, rows, p);
      && (row.None? <==> forall i :: 0 <= i < |rows| ==> !(Resolve(cwd, rows[i].path) <= p))
      && (row.Some? ==> exists i: nat :: FirstAbove(cwd, rows, p, i) && row.value == rows[i])
  {
    hide Resolve;
    var row := Governing(cwd, rows, p);
    if row.Some? {
      var i: nat :| FirstGoverning(cwd, rows, p, i) && rows[i] == row.value;
      assert FirstAbove(cwd, rows, p, i);
    }
  }

  method FindRootFolder(cwd: Path, rows: seq<RootFolder>, folderPath: string) returns (id: Option<nat>)
    requires Canonical(cwd)
    ensures var row := Governing(cwd, rows, Resolve(cwd, folderPath));
      id == if row.Some? then Some(row.value.id) else None
    ensures var p := Resolve(cwd, folderPath);
      && (id.None? <==> forall i :: 0 <= i < |rows| ==> !(Resolve(cwd, rows[i].path) <= p))
      && (id.Some? ==> exists i: nat :: FirstAbove(cwd, rows, p, i) && id.value == rows[i].id)
  {
    var p := Resolve(cwd, folderPath);
    ResolveCanonical(cwd, folderPath);
    GoverningIs(cwd, rows, p);
    var resolved := Show(p);
    for n := 0 to |rows|
      invariant Governing(cwd, rows, p) == Governing(cwd, rows[n..], p)
    {
      var root := Resolve(cwd, rows[n].path);
      ResolveCanonical(cwd, rows[n].path);
      ContainmentTestsAgree(p, root);
      if TextuallyUnder(resolved, Show(root)) {
        return Some(rows[n].id);
      }
      assert rows[n..][1..] == rows[n + 1..];
    }
    id := None;
  }

  method FindRootFolderForPath(cwd: Path, rows: seq<RootFolder>, folderPath: string) returns (row: Option<RootFolder>)
    requires Canonical(cwd)
    ensures row == Governing(cwd, rows, Resolve(cwd, folderPath))
    ensures var p := Resolve(cwd, folderPath);
      && (row.None? <==> forall i :: 0 <= i < |rows| ==> !(Resolve(cwd, rows[i].path) <= p))
      && (row.Some? ==> exists i: nat :: FirstAbove(cwd, rows, p, i) && row.value == rows[i])
  {
    var p := Resolve(cwd, folderPath);
    ResolveCanonical(cwd, folderPath);
    GoverningIs(cwd, rows, p);
    var resolved := Show(p);
    for n := 0 to |rows|
      invariant Governing(cwd, rows, p) == Governing(cwd, rows[n..], p)
    {
      var root := Resolve(cwd, rows[n].path);
      ResolveCanonical(cwd, rows[n].path);
      ContainmentTestsAgree(p, root);
      if CommonPathUnder(resolved, Show(root)) {
        return Some(rows[n]);
      }
      assert rows[n..][1..] == rows[n + 1..];
    }
    row := None;
  }

  ghost predicate StrictlyBeneathSome(cwd: Path, rows: seq<RootFolder>, p: Path) {
    exists i :: 0 <= i < |rows| && Resolve(cwd, rows[i].path) < p
  }

  method FindRootFolderStrict(cwd: Path, rows: seq<RootFolder>, folderPath: string) returns (contained: Option<Path>)
    requires Canonical(cwd)
    ensures var p := Resolve(cwd, folderPath);
      contained == if StrictlyBeneathSome(cwd, rows, p) then Some(p) else None
  {
    var p := Resolve(cwd, folderPath);
    ResolveCanonical(cwd, folderPath);
    var resolved := Show(p);
    for n := 0 to |rows|
      invariant forall j :: 0 <= j < n ==> !(Resolve(cwd, rows[j].path) < p)
    {
      var root := Resolve(cwd, rows[n].path);
      ResolveCanonical(cwd, rows[n].path);
      ContainmentTestsAgree(p, root);
      if TextuallyBelow(resolved, Show(root)) {
        return Some(p);
      }
    }
    contained := None;
  }

  // ---------- the order of the rows ----------

  ghost predicate SameInAnyOrder(cwd: Path, rows: seq<RootFolder>, p: Path) {
    forall other :: multiset(other) == multiset(rows) ==> Governing(cwd, other, p) == Governing(cwd, rows, p)
  }

  ghost predicate OneGoverns(cwd: Path, rows: seq<RootFolder>, p: Path) {
    forall a, b :: a in rows && b in rows && Governs(cwd, a, p) && Governs(cwd, b, p) ==> a == b
  }

  /**
   The queries name no order. Two lookups that see the rows in different orders are sure to
   pick the same root exactly when no two different rows govern the path (nested roots do).
   */
  lemma SameRootIff(cwd: Path, rows: seq<RootFolder>, p: Path)
    ensures SameInAnyOrder(cwd, rows, p) <==> OneGoverns(cwd, rows, p)
  {
    hide Governs;
    if OneGoverns(cwd, rows, p) {
      forall other | multiset(other) == multiset(rows)
        ensures Governing(cwd, other, p) == Governing(cwd, rows, p)
      {
        SameGoverning(cwd, rows, other, p);
      }
    } else {
      var a, b :| a in rows && b in rows && Governs(cwd, a, p) && Governs(cwd, b, p) && a != b;
      var first, second := ToFront(rows, a), ToFront(rows, b);
      assert Governing(cwd, first, p) == Some(a);
      assert Governing(cwd, second, p) == Some(b);
    }
  }

  function ToFront(rows: seq<RootFolder>, a: RootFolder): (r: seq<RootFolder>)
    requires a in rows
    ensures r != [] && r[0] == a && multiset(r) == multiset(rows)
  {
    if rows[0] == a then rows
    else
      assert rows == [rows[0]] + rows[1..];
      var rest := ToFront(rows[1..], a);
      assert rest == [a] + rest[1..];
      [a, rows[0]] + rest[1..]
  }

  lemma SameGoverning(cwd: Path, rows: seq<RootFolder>, other: seq<RootFolder>, p: Path)
    requires multiset(other) == multiset(rows) && OneGoverns(cwd, rows, p)
    ensures Governing(cwd, other, p) == Governing(cwd, rows, p)
  {
    hide Governs;
    assert forall m :: m in other <==> m in multiset(other);
    assert forall m :: m in rows <==> m in multiset(rows);
    var x, y := Governing(cwd, rows, p), Governing(cwd, other, p);
    if x.Some? {
      assert x.value in other;
    }
    if y.Some? {
      assert y.value in rows;
    }
  }

  /** Roots `/m` and `/m/a`: a path below both gets whichever row comes first. */
  lemma NestedRootsDiffer()
    ensures var outer := RootFolder(1, Show(["m"]), "move"); var inner := RootFolder(2, Show(["m", "a"]), "copy");
      var p := ["m", "a", "b"];
      && Governing([], [outer, inner], p) == Some(outer)
      && Governing([], [inner, outer], p) == Some(inner)
  {
    hide Resolve, Show;
    ResolveOfShow([], ["m"]);
    ResolveOfShow([], ["m", "a"]);
    var outer, inner := RootFolder(1, Show(["m"]), "move"), RootFolder(2, Show(["m", "a"]), "copy");
    assert Governs([], outer, ["m", "a", "b"]) && Governs([], inner, ["m", "a", "b"]);
  }
}
