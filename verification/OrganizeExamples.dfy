/** Concrete runs that leave the database out of step with the disk. */
module OrganizeExamples {
  import opened Text
  import opened Paths
  import opened Naming
  import opened FileTree
  import opened OrganizePlan
  import opened Organizer
  import opened OrganizeBook

  const BOOK := Book("T", [], [], "", "", "")
  const FILE := "b.m4b"
  const FILES: Files := map[["x", FILE] := Node(0, "audio")]

  /** As the importer stores a file, with its probed codec. */
  const FIRST := FileRow(1, "/x/b.m4b", "m4b", "x", "")

  /** As the converter's callback stores the same file: the path as reported, and never probed. */
  const SECOND := FileRow(2, "/x/../x/b.m4b", "m4b", "", "")

  function ByCodec(letters: char -> bool): Request {
    Request([], [], "{codec}", letters, BOOK, 7)
  }

  lemma StoredPaths()
    ensures Resolve([], "/x/b.m4b") == ["x", FILE] && Name("/x/b.m4b") == FILE
    ensures Resolve([], "/x/../x/b.m4b") == ["x", FILE] && Name("/x/../x/b.m4b") == FILE
  {
    var p := ["x", FILE];
    assert ShowTail(p) == "/" + "x" + ShowTail([FILE]) && ShowTail([FILE]) == "/" + FILE + ShowTail([]);
    assert Show(p) == "/x/b.m4b";
    ResolveOfShow([], p);
    DetourParts();
    hide Parts, Show;
    DetourNormalised();
  }

  lemma DetourParts()
    ensures Parts("/x/../x/b.m4b") == ["x", "..", "x", FILE]
  {
    hide Split;
    assert ShowTail(["x"]) == "/" + "x" + ShowTail([]) == "/x";
    SplitShowTail(["x"]);
    SplitWithoutSeparator("..", '/');
    SplitWithoutSeparator("x", '/');
    SplitWithoutSeparator(FILE, '/');
    assert "x/b.m4b" == "x" + ['/'] + FILE;
    SplitConcat("x", FILE, '/');
    assert "../x/b.m4b" == ".." + ['/'] + "x/b.m4b";
    SplitConcat("..", "x/b.m4b", '/');
    assert "/x/../x/b.m4b" == "/x" + ['/'] + "../x/b.m4b";
    SplitConcat("/x", "../x/b.m4b", '/');
    assert Split("/x/../x/b.m4b", '/') == ["", "x", "..", "x", FILE];
    var rest := ["x", "..", "x", FILE];
    assert ["", "x", "..", "x", FILE][1..] == rest;
    assert forall i :: 0 <= i < 4 ==> IsPart(rest[i]);
    assert DropTrivial(rest) == rest;
  }

  lemma DetourNormalised()
    ensures Normalise([], ["x", "..", "x", FILE]) == ["x", FILE]
  {
    var parts := ["x", "..", "x", FILE];
    assert parts[1..] == ["..", "x", FILE] && parts[1..][1..] == ["x", FILE] && [] + ["x"] == ["x"];
    assert Normalise([], parts) == Normalise(["x"], ["..", "x", FILE]);
    assert ["x"][..0] == [];
    assert Normalise(["x"], ["..", "x", FILE]) == Normalise([], ["x", FILE]);
    NormaliseNames([], ["x", FILE]);
    assert [] + ["x", FILE] == ["x", FILE];
  }

  lemma OneLetter(c: char)
    requires 'a' <= c <= 'z'
    ensures SanitizeComponent([c]) == [c]
  {
    TidyIsClean([c]);
  }

  lemma FileName()
    ensures IsName(FILE) && Stem(FILE) == "b" && Suffix(FILE) == ".m4b"
  {
    RFindIs(FILE, '.', 1);
    assert FILE[..1] == "b" && FILE[1..] == ".m4b";
  }

  function CodecFolder(codec: string): Path {
    if codec == "" then [] else [codec]
  }

  lemma CodecPattern(context: Context, letters: char -> bool, codec: string)
    requires "codec" in context && context["codec"] == codec && SanitizeComponent(codec) == codec
    ensures RenderPattern("{codec}", context, letters) == CodecFolder(codec)
  {
    hide SanitizeComponent, Substitute;
    SplitWithoutSeparator("{codec}", '/');
    CodecSubstituted(context, letters, codec);
    assert ["{codec}"][1..] == [];
    assert RenderSegments([], context, letters) == [];
  }

  lemma CodecSubstituted(context: Context, letters: char -> bool, codec: string)
    requires "codec" in context && context["codec"] == codec
    ensures Substitute("{codec}", context, letters) == codec
  {
    assert Substitute("", context, letters) == "";
    hide IsWord, Substitute;
    assert "" + "{" + "codec" + "}" + "" == "{codec}";
    LowerCaseWord("codec", letters);
    SubstituteToken("", "codec", "", context, letters);
    assert "" + codec + "" == codec;
  }

  lemma LowerCaseWord(word: string, letters: char -> bool)
    requires forall i :: 0 <= i < |word| ==> 'a' <= word[i] <= 'z'
    ensures forall i :: 0 <= i < |word| ==> IsWord(word[i], letters)
  {
  }

  lemma PlainFilename(context: Context, path: string)
    requires Name(path) == FILE
    ensures Filename(context, path) == FILE
  {
    OneLetter('b');
    FileName();
    hide SanitizeComponent, Name, Stem, Suffix, Fallback;
    assert "b" == ['b'] && "b" + ".m4b" == FILE;
  }

  lemma CodecTarget(letters: char -> bool, row: FileRow)
    requires SanitizeComponent(row.codec) == row.codec && (row.codec != "" ==> IsName(row.codec)) && Name(row.path) == FILE
    ensures Target(ByCodec(letters), row) == CodecFolder(row.codec) + [FILE]
  {
    FileName();
    hide SanitizeComponent, Name, RenderPattern, IsName, Filename, Normalise, Stem, Suffix;
    var context := BuildContext(BOOK, 7, row);
    CodecPattern(context, letters, row.codec);
    PlainFilename(context, row.path);
    var target := CodecFolder(row.codec) + [FILE];
    NormaliseNames([], target);
    assert RenderTarget("{codec}", context, letters, row.path) == target;
    assert [] + target == target;
  }

  lemma PairScreened(req: Request, files: Files, r1: FileRow, r2: FileRow)
    requires Screen(req, files, r1).Ready? && Screen(req, files, r2).Ready?
    ensures Rejected(req, files, [r1, r2]) == []
    ensures Candidates(req, files, [r1, r2])
         == [Candidate(r1, Source(req, r1), Target(req, r1)), Candidate(r2, Source(req, r2), Target(req, r2))]
  {
    hide Target, Source, Show, Screen;
    assert [r1, r2][..1] == [r1] && [r1][..0] == [];
    assert Rejected(req, files, []) == [] && Candidates(req, files, []) == [];
    assert Rejected(req, files, [r1]) == [];
    assert Candidates(req, files, [r1]) == [Candidate(r1, Source(req, r1), Target(req, r1))];
  }

  /** A preview of two files that both pass the first pass. */
  lemma PairPreview(req: Request, files: Files, r1: FileRow, r2: FileRow)
    requires Screen(req, files, r1).Ready? && Screen(req, files, r2).Ready?
    ensures var c1 := Candidate(r1, Source(req, r1), Target(req, r1));
      var c2 := Candidate(r2, Source(req, r2), Target(req, r2));
      PreviewItems(req, files, [r1, r2]) == [
        Item(r1.id, r1.path, Show(c1.target), Classify(files, [c1, c2], c1)),
        Item(r2.id, r2.path, Show(c2.target), Classify(files, [c1, c2], c2))]
  {
    hide Target, Source, Show, Screen, Classify, Rejected, Candidates, Classified;
    PairScreened(req, files, r1, r2);
    var cands := Candidates(req, files, [r1, r2]);
    ClassifiedAt(files, cands, cands);
  }

  lemma OnlyRival(c1: Candidate, c2: Candidate, t: string)
    requires c1.source == c1.target
    ensures Rivals([c1, c2], t) <= 1
  {
    assert [c1, c2][..1] == [c1] && [c1][..0] == [];
    assert Rivals([c1], t) == 0;
  }

  lemma ScreenReady(letters: char -> bool, row: FileRow)
    requires Resolve([], row.path) == ["x", FILE]
    ensures Screen(ByCodec(letters), FILES, row).Ready?
  {
    hide CommonPathUnder, Show, Resolve, Target;
    TargetBelowRoot(ByCodec(letters), row);
  }

  lemma CodecTargets(letters: char -> bool)
    ensures Target(ByCodec(letters), FIRST) == ["x", FILE] && Target(ByCodec(letters), SECOND) == [FILE]
  {
    hide Target, Name, Resolve, SanitizeComponent, IsName;
    StoredPaths();
    PlainCodecs();
    CodecTarget(letters, FIRST);
    CodecTarget(letters, SECOND);
    assert ["x"] + [FILE] == ["x", FILE] && [] + [FILE] == [FILE];
  }

  lemma PlainCodecs()
    ensures SanitizeComponent("x") == "x" && IsName("x") && SanitizeComponent("") == ""
  {
    assert IsName("x");
    hide *;
    OneLetter('x');
    assert "x" == ['x'];
    NothingTidy();
    TidyIsClean("");
    NothingSanitized();
  }

  lemma NothingTidy()
    ensures Tidy("")
  {
    hide IsSpace, IsSafe;
  }

  lemma NothingSanitized()
    requires Cleaned("") == ""
    ensures SanitizeComponent("") == ""
  {
    hide Cleaned;
  }

  lemma ExampleItems(letters: char -> bool)
    ensures var req := ByCodec(letters);
      && Source(req, FIRST) == Target(req, FIRST) == ["x", FILE]
      && Source(req, SECOND) == ["x", FILE] && Target(req, SECOND) == [FILE]
      && PreviewItems(req, FILES, [FIRST, SECOND]) == [
        Item(1, "/x/b.m4b", Show(["x", FILE]), Unchanged), Item(2, "/x/../x/b.m4b", Show([FILE]), Ready)]
  {
    hide Target, Screen, Show, Resolve, PreviewItems, Rivals, Name;
    var req := ByCodec(letters);
    StoredPaths();
    CodecTargets(letters);
    ScreenReady(letters, FIRST);
    ScreenReady(letters, SECOND);
    PairPreview(req, FILES, FIRST, SECOND);
    OnlyRival(Candidate(FIRST, ["x", FILE], ["x", FILE]), Candidate(SECOND, ["x", FILE], [FILE]), Show([FILE]));
  }

  /**
   Two rows naming one file by different strings: the preview is safe (the first row stays,
   the second moves), and moving the second row's file takes the first row's file away.
   */
  lemma SharedFileExample(letters: char -> bool)
    ensures var req := ByCodec(letters); var rows := [FIRST, SECOND];
      var items := PreviewItems(req, FILES, rows);
      && AllSafe(items) && |items| == 2
      && items[0].status.Unchanged? && items[1].status.Ready?
      && !NoSharedFile(req, rows, items)
  {
    hide Target, Source, Show, PreviewItems, ByCodec;
    ExampleItems(letters);
  }

  /** Organising these two rows and previewing again: the first row's file is missing. */
  lemma OrganizeAgainExample(letters: char -> bool)
    ensures var req := ByCodec(letters); var rows := [FIRST, SECOND];
      var items := PreviewItems(req, FILES, rows);
      var paths := map[1 := "/x/b.m4b", 2 := "/x/../x/b.m4b"];
      && SafePlan(req, FILES, rows, items) && RowsOf(paths, rows) && Fresh(FILES, Plan(req, items))
      && !TargetRecorded(paths, items)
      && (forall i :: 0 <= i < |rows| ==> rows[i].id in Updated(paths, ReadyItems(items)))
      && !AllUnchanged(PreviewItems(req, After(FILES, Plan(req, items)), Reread(Updated(paths, ReadyItems(items)), rows)))
  {
    hide *;
    var req, rows := ByCodec(letters), [FIRST, SECOND];
    var items := PreviewItems(req, FILES, rows);
    var paths := map[1 := "/x/b.m4b", 2 := "/x/../x/b.m4b"];
    SharedFileExample(letters);
    PlanIsSafe(req, FILES, rows, items);
    PairPlan(letters);
    PairTable(letters);
    OrganizeFixpoint(req, FILES, paths, rows, items);
  }

  lemma PairPlan(letters: char -> bool)
    ensures var req := ByCodec(letters);
      Resolved(req) && Fresh(FILES, Plan(req, PreviewItems(req, FILES, [FIRST, SECOND])))
  {
    hide PreviewItems, Resolve, Show, Target, Source, Plan;
    ExampleItems(letters);
    SecondMoves(letters, PreviewItems(ByCodec(letters), FILES, [FIRST, SECOND]));
    assert [FILE][0] != ["x", FILE][0];
  }

  lemma SecondMoves(letters: char -> bool, items: seq<Item>)
    requires |items| == 2 && items[0].status.Unchanged?
    requires items[1] == Item(2, "/x/../x/b.m4b", Show([FILE]), Ready)
    ensures Plan(ByCodec(letters), items) == [Move(["x", FILE], [FILE])]
  {
    hide Resolve, Show, ReadyItems, Name, Canonical;
    SecondReady(items);
    StoredPaths();
    TargetPathResolved();
  }

  lemma TargetPathResolved()
    ensures Resolve([], Show([FILE])) == [FILE]
  {
    hide Resolve, Show, Name;
    ResolveOfShow([], [FILE]);
  }

  lemma SecondReady(items: seq<Item>)
    requires |items| == 2 && items[0].status.Unchanged? && items[1].status.Ready?
    ensures ReadyItems(items) == [items[1]]
  {
    assert items[1..] == [items[1]] && items[1..][1..] == [];
    assert ReadyItems(items[1..]) == [items[1]] + ReadyItems([]);
  }

  lemma PairTable(letters: char -> bool)
    ensures var paths := map[1 := "/x/b.m4b", 2 := "/x/../x/b.m4b"];
      && RowsOf(paths, [FIRST, SECOND])
      && !TargetRecorded(paths, PreviewItems(ByCodec(letters), FILES, [FIRST, SECOND]))
  {
    hide PreviewItems, Show, Target, Source;
    ExampleItems(letters);
    OtherText();
    var paths := map[1 := "/x/b.m4b", 2 := "/x/../x/b.m4b"];
    assert forall id :: id in paths ==> id == 1 || id == 2;
  }

  lemma OtherText()
    ensures Show([FILE]) != "/x/b.m4b" && Show([FILE]) != "/x/../x/b.m4b"
  {
    assert ShowTail([FILE]) == "/" + FILE + ShowTail([FILE][1..]);
    assert Show([FILE])[1] == 'b';
  }

  /**
   A stale row of another book records a ready target (no such file exists): the two files of
   this book are in order, one of them moves, and the path update is then refused.
   */
  lemma RecordedTargetExample(letters: char -> bool)
    ensures var items := PreviewItems(ByCodec(letters), FILES, [FIRST, SECOND]);
      var paths := map[1 := "/x/b.m4b", 2 := "/x/../x/b.m4b", 9 := Show([FILE])];
      && AllSafe(items) && RowsOf(paths, [FIRST, SECOND]) && TargetRecorded(paths, items)
  {
    hide Target, Source, Show, PreviewItems, ByCodec;
    ExampleItems(letters);
    var items := PreviewItems(ByCodec(letters), FILES, [FIRST, SECOND]);
    var paths := map[1 := "/x/b.m4b", 2 := "/x/../x/b.m4b", 9 := Show([FILE])];
    assert items[1].status.Ready? && 9 in paths && paths[9] == items[1].targetPath;
  }
}
