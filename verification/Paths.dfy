/**
 Absolute POSIX paths: their canonical component form, the strings the database stores,
 and the lexical `Path.resolve()` between the two (no symbolic links).
 */
module Paths {
  import opened Text

  /** Components of a canonical absolute path; the empty sequence is `/`. */
  type Path = seq<string>

  predicate IsName(c: string) {
    c != "" && '/' !in c && c != "." && c != ".."
  }

  predicate Canonical(p: Path) {
    forall i :: 0 <= i < |p| ==> IsName(p[i])
  }

  function ShowTail(p: Path): string {
    if p == [] then "" else "/" + p[0] + ShowTail(p[1..])
  }

  /** `str(path)` */
  function Show(p: Path): string {
    if p == [] then "/" else ShowTail(p)
  }

  predicate IsPart(c: string) {
    '/' !in c && c != "" && c != "."
  }

  function DropTrivial(parts: seq<string>): (r: seq<string>)
    requires forall i :: 0 <= i < |parts| ==> '/' !in parts[i]
    ensures forall i :: 0 <= i < |r| ==> IsPart(r[i])
    ensures (forall i :: 0 <= i < |parts| ==> IsPart(parts[i])) ==> r == parts
  {
    if parts == [] then []
    else if parts[0] == "" || parts[0] == "." then DropTrivial(parts[1..])
    else [parts[0]] + DropTrivial(parts[1..])
  }

  /** What pathlib keeps of a path string: empty and `.` components vanish, `..` stays. */
  function Parts(s: string): (r: seq<string>)
    ensures forall i :: 0 <= i < |r| ==> IsPart(r[i])
  {
    DropTrivial(Split(s, '/'))
  }

  predicate IsAbsolute(s: string) {
    s != "" && s[0] == '/'
  }

  function Normalise(base: Path, parts: seq<string>): Path
    decreases parts
  {
    if parts == [] then base
    else if parts[0] == ".." then
      Normalise(if base == [] then [] else base[..|base| - 1], parts[1..])
    else
      Normalise(base + [parts[0]], parts[1..])
  }

  /** `str(Path(s).resolve())` in component form, from the working directory `cwd`. */
  function Resolve(cwd: Path, s: string): Path {
    Normalise(if IsAbsolute(s) then [] else cwd, Parts(s))
  }

  /** `Path(s).name` */
  function Name(s: string): (r: string)
    ensures '/' !in r && r != "."
  {
    var parts := Parts(s);
    if parts == [] then "" else parts[|parts| - 1]
  }

  lemma {:induction false} NormaliseCanonical(base: Path, parts: seq<string>)
    requires Canonical(base)
    requires forall i :: 0 <= i < |parts| ==> IsPart(parts[i])
    ensures Canonical(Normalise(base, parts))
    decreases parts
  {
    if parts != [] {
      if parts[0] == ".." {
        NormaliseCanonical(if base == [] then [] else base[..|base| - 1], parts[1..]);
      } else {
        NormaliseCanonical(base + [parts[0]], parts[1..]);
      }
    }
  }

  lemma ResolveCanonical(cwd: Path, s: string)
    requires Canonical(cwd)
    ensures Canonical(Resolve(cwd, s))
  {
    NormaliseCanonical(if IsAbsolute(s) then [] else cwd, Parts(s));
  }

  lemma {:induction false} NormaliseNames(base: Path, names: Path)
    requires Canonical(names)
    ensures Normalise(base, names) == base + names
    decreases names
  {
    if names == [] {
      assert base + names == base;
    } else {
      assert IsName(names[0]);
      NormaliseNames(base + [names[0]], names[1..]);
      assert base + [names[0]] + names[1..] == base + names;
    }
  }

  lemma {:induction false} SplitShowTail(p: Path)
    requires Canonical(p)
    ensures Split(ShowTail(p), '/') == [""] + p
  {
    if p != [] {
      SplitShowTail(p[1..]);
      assert IsName(p[0]);
      SplitWithoutSeparator(p[0], '/');
      var rest := ShowTail(p[1..]);
      assert "/" + p[0] + rest == "" + ['/'] + (p[0] + rest);
      SplitConcat("", p[0] + rest, '/');
      if p[1..] == [] {
        assert p[0] + rest == p[0];
      } else {
        assert rest == "" + ['/'] + rest[1..];
        SplitConcat("", rest[1..], '/');
        assert p[0] + rest == p[0] + ['/'] + rest[1..];
        SplitConcat(p[0], rest[1..], '/');
        assert Split(rest[1..], '/') == p[1..] by {
          assert Split(rest, '/') == [""] + Split(rest[1..], '/') == [""] + p[1..];
          assert ([""] + Split(rest[1..], '/'))[1..] == ([""] + p[1..])[1..];
        }
      }
      assert Split(p[0] + rest, '/') == p;
    }
  }

  lemma PartsOfShow(p: Path)
    requires Canonical(p)
    ensures Parts(Show(p)) == p
  {
    SplitShowTail(p);
    if p == [] {
      assert Split("/", '/') == ["", ""] by {
        assert "/" == "" + ['/'] + "";
        SplitConcat("", "", '/');
      }
      assert DropTrivial(["", ""]) == DropTrivial([""]) == [];
    } else {
      assert ([""] + p)[1..] == p;
    }
  }

  /** Reading back the string of a canonical path gives the path. */
  lemma ResolveOfShow(cwd: Path, p: Path)
    requires Canonical(p)
    ensures Resolve(cwd, Show(p)) == p
    ensures Name(Show(p)) == if p == [] then "" else p[|p| - 1]
  {
    PartsOfShow(p);
    NormaliseNames([], p);
    assert IsAbsolute(Show(p));
    assert [] + p == p;
  }

  lemma ShowInjective(p: Path, q: Path)
    requires Canonical(p) && Canonical(q) && Show(p) == Show(q)
    ensures p == q
  {
    PartsOfShow(p);
    PartsOfShow(q);
  }

  // ---------- containment: three tests used for the same question ----------

  /** `resolved == r or resolved.startswith(r + "/")` with `r = root.rstrip("/")` */
  predicate TextuallyUnder(resolved: string, root: string) {
    var r := RStripChars(root, {'/'});
    resolved == r || r + "/" <= resolved
  }

  /** `resolved != root and resolved.startswith(root.rstrip("/") + "/")` */
  predicate TextuallyBelow(resolved: string, root: string) {
    resolved != root && RStripChars(root, {'/'}) + "/" <= resolved
  }

  function LongestCommonPrefix(a: seq<string>, b: seq<string>): (r: seq<string>)
    ensures r <= a && r <= b
    ensures |r| < |a| && |r| < |b| ==> a[|r|] != b[|r|]
  {
    if a != [] && b != [] && a[0] == b[0] then
      [a[0]] + LongestCommonPrefix(a[1..], b[1..])
    else []
  }

  /** `os.path.commonpath([a, b])` for absolute paths */
  function CommonPath(a: string, b: string): string {
    Show(LongestCommonPrefix(Parts(a), Parts(b)))
  }

  /** `os.path.commonpath([root, resolved]) == root` */
  predicate CommonPathUnder(resolved: string, root: string) {
    CommonPath(root, resolved) == root
  }

  lemma {:induction false} ShowTailConcat(p: Path, q: Path)
    ensures ShowTail(p + q) == ShowTail(p) + ShowTail(q)
  {
    if p == [] {
      assert p + q == q;
    } else {
      assert (p + q)[1..] == p[1..] + q;
      ShowTailConcat(p[1..], q);
    }
  }

  lemma {:induction false} ShowTailEnd(p: Path)
    requires Canonical(p) && p != []
    ensures ShowTail(p) != "" && ShowTail(p)[|ShowTail(p)| - 1] != '/'
  {
    var last := p[|p| - 1];
    assert p == p[..|p| - 1] + [last];
    ShowTailConcat(p[..|p| - 1], [last]);
    assert ShowTail([last]) == "/" + last;
    assert IsName(last);
    assert last[|last| - 1] in last;
  }

  lemma StrippedRoot(root: Path)
    requires Canonical(root)
    ensures RStripChars(Show(root), {'/'}) == ShowTail(root)
  {
    if root == [] {
      assert RStripChars("/", {'/'}) == RStripChars("", {'/'});
    } else {
      ShowTailEnd(root);
    }
  }

  lemma PrefixMeansUnder(p: Path, root: Path)
    requires Canonical(p) && Canonical(root)
    ensures root <= p && p != [] ==> ShowTail(root) <= ShowTail(p)
    ensures root < p ==> ShowTail(root) + "/" <= Show(p)
  {
    if root <= p {
      assert p == root + p[|root|..];
      ShowTailConcat(root, p[|root|..]);
    }
  }

  lemma UnderMeansPrefix(p: Path, root: Path)
    requires Canonical(p) && Canonical(root)
    requires ShowTail(root) + "/" <= Show(p)
    ensures root <= p
    ensures p != [] ==> root != p
  {
    hide Split, ShowTail;
    var tail := Show(p)[|ShowTail(root)| + 1..];
    assert Show(p) == ShowTail(root) + ['/'] + tail;
    SplitConcat(ShowTail(root), tail, '/');
    SplitShowTail(root);
    if p != [] {
      SplitShowTail(p);
      assert p == root + Split(tail, '/') by {
        assert [""] + p == [""] + root + Split(tail, '/');
        assert ([""] + root + Split(tail, '/'))[1..] == root + Split(tail, '/');
      }
    } else if root != [] {
      ShowTailEnd(root);
    }
  }

  lemma TextTestsAgree(p: Path, root: Path)
    requires Canonical(p) && Canonical(root)
    ensures TextuallyUnder(Show(p), Show(root)) <==> root <= p
    ensures TextuallyBelow(Show(p), Show(root)) <==> root < p
  {
    StrippedRoot(root);
    PrefixMeansUnder(p, root);
    if ShowTail(root) + "/" <= Show(p) {
      UnderMeansPrefix(p, root);
    }
    if Show(p) == ShowTail(root) {
      assert root != [];
      ShowInjective(p, root);
    }
    if Show(p) == Show(root) {
      ShowInjective(p, root);
    }
    if root == [] {
      assert "" + "/" <= Show(p);
    } else if root == p {
      assert Show(p) == ShowTail(root);
    }
  }

  lemma CommonPathTestAgrees(p: Path, root: Path)
    requires Canonical(p) && Canonical(root)
    ensures CommonPathUnder(Show(p), Show(root)) <==> root <= p
  {
    PartsOfShow(p);
    PartsOfShow(root);
    var common := LongestCommonPrefix(root, p);
    if Show(common) == Show(root) {
      ShowInjective(common, root);
    }
    if root <= p {
      assert forall i :: 0 <= i < |root| ==> root[i] == p[i];
      assert common == root;
    }
  }

  /**
   On canonical paths, root `/` and siblings sharing a text prefix included, the string test
   of the download poller, its strict variant and the `commonpath` test of the importer
   and the organiser all decide the component-wise question.
   */
  lemma ContainmentTestsAgree(p: Path, root: Path)
    requires Canonical(p) && Canonical(root)
    ensures TextuallyUnder(Show(p), Show(root)) <==> root <= p
    ensures CommonPathUnder(Show(p), Show(root)) <==> root <= p
    ensures TextuallyBelow(Show(p), Show(root)) <==> root < p
  {
    TextTestsAgree(p, root);
    CommonPathTestAgrees(p, root);
  }
}
