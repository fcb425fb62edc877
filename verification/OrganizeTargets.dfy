/**
 Where the organiser puts a book's files, in terms of the book's own fields, and what a
 preview says of every row.
 */
module OrganizeTargets {
  import opened Text
  import opened Paths
  import opened Naming
  import opened Cleaning
  import opened FileTree
  import opened OrganizePlan
  import opened Organizer

  /** The default of the `file_name_pattern` setting (app/models/settings.py). */
  const DEFAULT_PATTERN := "{author}/{series}/{title} ({year})"

  /** The folder level a text gives: its sanitised form, or none. */
  function Level(text: string): Path {
    if SanitizeComponent(text) == "" then [] else [SanitizeComponent(text)]
  }

  lemma LowerCaseToken(token: string, letters: char -> bool)
    requires forall i :: 0 <= i < |token| ==> 'a' <= token[i] <= 'z' || token[i] == '_'
    ensures forall i :: 0 <= i < |token| ==> IsWord(token[i], letters)
  {
  }

  predicate IsToken(token: string) {
    token != "" && forall i :: 0 <= i < |token| ==> 'a' <= token[i] <= 'z' || token[i] == '_'
  }

  /** A segment that is one token gives the level of its value. */
  lemma TokenLevel(token: string, context: Context, letters: char -> bool)
    requires IsToken(token) && token in context
    ensures RenderPattern("{" + token + "}", context, letters) == Level(context[token])
  {
    hide IsWord, Substitute, SanitizeComponent, RenderPattern;
    LowerCaseToken(token, letters);
    var segment := "{" + token + "}";
    assert forall i :: 0 <= i < |token| ==> token[i] != '/';
    RenderOne(segment, context, letters);
    assert "" + "{" + token + "}" + "" == segment;
    SubstituteToken("", token, "", context, letters);
    NothingSubstituted(context, letters);
    assert "" + context[token] + "" == context[token];
  }

  lemma NothingSubstituted(context: Context, letters: char -> bool)
    ensures Substitute("", context, letters) == ""
  {
  }

  lemma TitleAndYear(context: Context, letters: char -> bool)
    requires "title" in context && "year" in context
    ensures Substitute("{title} ({year})", context, letters) == context["title"] + " (" + context["year"] + ")"
  {
    hide IsWord, Substitute;
    LowerCaseToken("title", letters);
    LowerCaseToken("year", letters);
    assert "" + "{" + "title" + "}" + " ({year})" == "{title} ({year})";
    assert " (" + "{" + "year" + "}" + ")" == " ({year})";
    SubstituteToken("", "title", " ({year})", context, letters);
    SubstituteToken(" (", "year", ")", context, letters);
    SubstituteLiteral(")", "", context, letters);
    NothingSubstituted(context, letters);
    assert ")" + "" == ")";
    var title, year := context["title"], context["year"];
    assert "" + title + (" (" + year + ")") == title + " (" + year + ")";
  }

  lemma DefaultLevels(context: Context, letters: char -> bool)
    requires "author" in context && "series" in context && "title" in context && "year" in context
    ensures RenderPattern(DEFAULT_PATTERN, context, letters)
         == Level(context["author"]) + Level(context["series"])
            + Level(context["title"] + " (" + context["year"] + ")")
  {
    hide Substitute, SanitizeComponent, RenderPattern, Level;
    var last := "{title} ({year})";
    assert DEFAULT_PATTERN == "{author}" + "/" + ("{series}" + "/" + last);
    RenderJoined("{author}", "{series}" + "/" + last, context, letters);
    RenderJoined("{series}", last, context, letters);
    assert "{" + "author" + "}" == "{author}" && "{" + "series" + "}" == "{series}";
    TokenLevel("author", context, letters);
    TokenLevel("series", context, letters);
    LastLevel(context, letters);
    var a, s, t := Level(context["author"]), Level(context["series"]), Level(context["title"] + " (" + context["year"] + ")");
    assert a + (s + t) == a + s + t;
  }

  lemma LastLevel(context: Context, letters: char -> bool)
    requires "title" in context && "year" in context
    ensures RenderPattern("{title} ({year})", context, letters)
         == Level(context["title"] + " (" + context["year"] + ")")
  {
    hide Substitute, SanitizeComponent, RenderPattern;
    RenderOne("{title} ({year})", context, letters);
    TitleAndYear(context, letters);
  }

  /** The file keeps its own name: the sanitised stem, or the book's id, and the extension as it stands. */
  lemma FilenameOf(book: Book, bookId: nat, row: FileRow)
    ensures var name := Name(row.path);
      var stem := SanitizeComponent(Stem(name));
      Filename(BuildContext(book, bookId, row), row.path)
      == (if stem == "" then "file-" + Decimal(bookId) else stem) + Suffix(name)
  {
    hide SanitizeComponent, Stem, Suffix, Name;
  }

  /** A target is the root, the rendered folders and the file's own name. */
  lemma TargetParts(req: Request, row: FileRow)
    requires Resolved(req)
    ensures var context := BuildContext(req.book, req.bookId, row);
      Target(req, row) == req.root + RenderPattern(req.pattern, context, req.letters) + [Filename(context, row.path)]
  {
    hide BuildContext, RenderPattern, Filename, Tidy, IsName, NumberedContext;
    var context := BuildContext(req.book, req.bookId, row);
    ContextIsNumbered(req.book, req.bookId, row);
    RenderedComponents(req.pattern, context, req.letters);
    FilenameIsName(context, row.path);
    var folders, name := RenderPattern(req.pattern, context, req.letters), Filename(context, row.path);
    NormaliseNames(req.root, folders + [name]);
    assert req.root + (folders + [name]) == req.root + folders + [name];
  }

  function FirstOr(names: seq<string>, otherwise: string): string {
    if names == [] then otherwise else names[0]
  }

  function Year(date: string): (year: string)
    ensures year <= date && |year| <= 4 && (|year| < 4 ==> year == date)
  {
    if |date| < 4 then date else date[..4]
  }

  /** The target by the default pattern, in terms of the book's fields. */
  lemma DefaultTarget(req: Request, row: FileRow)
    requires Resolved(req) && req.pattern == DEFAULT_PATTERN
    ensures var book, name := req.book, Name(row.path);
      var stem := SanitizeComponent(Stem(name));
      Target(req, row)
      == req.root
         + Level(if book.authors == [] then "Unknown Author" else book.authors[0])
         + Level(book.series)
         + Level(book.title + " (" + Year(book.releaseDate) + ")")
         + [(if stem == "" then "file-" + Decimal(req.bookId) else stem) + Suffix(name)]
  {
    hide Level, RenderPattern, Filename, SanitizeComponent, Stem, Suffix, Name, Target;
    var context := BuildContext(req.book, req.bookId, row);
    TargetParts(req, row);
    DefaultLevels(context, req.letters);
    FilenameOf(req.book, req.bookId, row);
    DefaultContext(req.book, req.bookId, row);
    hide BuildContext;
    var book := req.book;
    var a := Level(FirstOr(book.authors, "Unknown Author"));
    var s, t := Level(book.series), Level(book.title + " (" + Year(book.releaseDate) + ")");
    assert req.root + (a + s + t) == req.root + a + s + t;
  }

  lemma DefaultContext(book: Book, bookId: nat, row: FileRow)
    ensures var context := BuildContext(book, bookId, row);
      && "author" in context && context["author"] == FirstOr(book.authors, "Unknown Author")
      && "series" in context && context["series"] == book.series
      && "title" in context && context["title"] == book.title
      && "year" in context && context["year"] == Year(book.releaseDate)
  {
  }

  /** Metadata that is tidy already appears in the path as it is. */
  lemma TidyTarget(req: Request, row: FileRow, author: string, others: seq<string>, year: string, rest: string)
    requires Resolved(req) && req.pattern == DEFAULT_PATTERN
    requires req.book.authors == [author] + others && Tidy(author) && IsName(author)
    requires Tidy(req.book.series) && IsName(req.book.series) && Tidy(req.book.title) && IsName(req.book.title)
    requires req.book.releaseDate == year + rest && |year| == 4 && forall i :: 0 <= i < 4 ==> IsDigit(year[i])
    requires Tidy(Stem(Name(row.path))) && IsName(Stem(Name(row.path)))
    ensures Target(req, row)
         == req.root + [author, req.book.series, req.book.title + " (" + year + ")", Name(row.path)]
  {
    hide SanitizeComponent, Stem, Suffix, Name, Target, Tidy, IsName;
    DefaultTarget(req, row);
    assert Year(req.book.releaseDate) == year;
    var stem, last := Stem(Name(row.path)), req.book.title + " (" + year + ")";
    NameKept(author);
    NameKept(req.book.series);
    NameKept(stem);
    TitledTidy(req.book.title, year);
    NameKept(last);
    SuffixShape(Name(row.path));
    assert stem != "" by {
      NotEmpty(stem);
    }
    NotEmpty(author);
    NotEmpty(req.book.series);
    NotEmpty(last);
    assert req.root + [author] + [req.book.series] + [last] + [Name(row.path)]
        == req.root + [author, req.book.series, last, Name(row.path)];
  }

  lemma NotEmpty(s: string)
    requires IsName(s)
    ensures s != ""
  {
  }

  lemma NameKept(s: string)
    requires Tidy(s) && IsName(s)
    ensures SanitizeComponent(s) == s
  {
    hide Cleaned, Tidy;
    TidyIsClean(s);
  }

  lemma TitledTidy(title: string, year: string)
    requires Tidy(title) && IsName(title) && |year| == 4 && forall i :: 0 <= i < 4 ==> IsDigit(year[i])
    ensures Tidy(title + " (" + year + ")") && IsName(title + " (" + year + ")")
  {
    var s, n := title + " (" + year + ")", |title|;
    assert s[n] == ' ' && s[n + 1] == '(' && s[n + 6] == ')' && |s| == n + 7;
    assert forall i :: 0 <= i < n ==> s[i] == title[i];
    assert forall i :: n + 2 <= i < n + 6 ==> s[i] == year[i - n - 2];
    SlashIsUnsafe(s);
  }

  lemma SlashIsUnsafe(s: string)
    ensures (forall i :: 0 <= i < |s| ==> IsSafe(s[i])) ==> '/' !in s
  {
  }

  /** One folder level for each token. */
  function TokenPattern(tokens: seq<string>): string {
    if tokens == [] then ""
    else if |tokens| == 1 then "{" + tokens[0] + "}"
    else "{" + tokens[0] + "}" + "/" + TokenPattern(tokens[1..])
  }

  function Levels(texts: seq<string>): Path {
    if texts == [] then [] else Level(texts[0]) + Levels(texts[1..])
  }

  lemma {:induction false} TokenLevels(tokens: seq<string>, texts: seq<string>, context: Context, letters: char -> bool)
    requires tokens != [] && |texts| == |tokens|
    requires forall i :: 0 <= i < |tokens| ==>
      IsToken(tokens[i]) && tokens[i] in context && context[tokens[i]] == texts[i]
    ensures RenderPattern(TokenPattern(tokens), context, letters) == Levels(texts)
  {
    hide RenderPattern, Level, IsToken;
    TokenLevel(tokens[0], context, letters);
    if |tokens| == 1 {
      assert Levels(texts[1..]) == [];
    } else {
      RenderJoined("{" + tokens[0] + "}", TokenPattern(tokens[1..]), context, letters);
      TokenLevels(tokens[1..], texts[1..], context, letters);
    }
  }

  /** Every other token, by a pattern that makes each of them a folder level. */
  lemma OtherTokens(req: Request, row: FileRow)
    requires Resolved(req)
    requires req.pattern == TokenPattern(
      ["authors", "narrator", "narrators", "series_position", "quality", "book_id", "codec", "bitrate"])
    ensures var book := req.book;
      Target(req, row)
      == req.root
         + Levels([
             JoinNames(book.authors), FirstOr(book.narrators, "Unknown Narrator"), JoinNames(book.narrators),
             book.seriesPosition, row.quality, Decimal(req.bookId), row.codec, row.bitrate])
         + [Filename(BuildContext(book, req.bookId, row), row.path)]
  {
    hide Levels, RenderPattern, Filename, Target, JoinNames, Decimal, TokenPattern;
    var book := req.book;
    TargetParts(req, row);
    OtherContext(book, req.bookId, row);
    TokenLevels(
      ["authors", "narrator", "narrators", "series_position", "quality", "book_id", "codec", "bitrate"],
      [JoinNames(book.authors), FirstOr(book.narrators, "Unknown Narrator"), JoinNames(book.narrators),
       book.seriesPosition, row.quality, Decimal(req.bookId), row.codec, row.bitrate],
      BuildContext(book, req.bookId, row), req.letters);
  }

  lemma OtherContext(book: Book, bookId: nat, row: FileRow)
    ensures var context := BuildContext(book, bookId, row);
      && "authors" in context && context["authors"] == JoinNames(book.authors)
      && "narrator" in context && context["narrator"] == FirstOr(book.narrators, "Unknown Narrator")
      && "narrators" in context && context["narrators"] == JoinNames(book.narrators)
      && "series_position" in context && context["series_position"] == book.seriesPosition
      && "quality" in context && context["quality"] == row.quality
      && "book_id" in context && context["book_id"] == Decimal(bookId)
      && "codec" in context && context["codec"] == row.codec
      && "bitrate" in context && context["bitrate"] == row.bitrate
  {
  }

  /** `", ".join(names)`: the names of two lists are joined by one comma and space. */
  lemma {:induction false} NamesJoined(a: seq<string>, b: seq<string>)
    requires a != [] && b != []
    ensures JoinNames(a + b) == JoinNames(a) + ", " + JoinNames(b)
    ensures |a| == 1 ==> JoinNames(a) == a[0]
  {
    assert (a + b)[0] == a[0] && (a + b)[1..] == a[1..] + b;
    if |a| == 1 {
      assert a[1..] + b == b;
    } else {
      NamesJoined(a[1..], b);
      assert a[0] + ", " + (JoinNames(a[1..]) + ", " + JoinNames(b))
          == a[0] + ", " + JoinNames(a[1..]) + ", " + JoinNames(b);
    }
  }

  /** The number a string of digits stands for. */
  function ValueOf(digits: string): nat
    requires forall i :: 0 <= i < |digits| ==> IsDigit(digits[i])
  {
    if digits == "" then 0
    else
      var last := digits[|digits| - 1];
      assert IsDigit(last);
      10 * ValueOf(digits[..|digits| - 1]) + (last - '0') as nat
  }

  lemma {:induction false} DecimalReads(n: nat)
    ensures ValueOf(Decimal(n)) == n
    ensures n >= 10 ==> Decimal(n)[0] != '0'
  {
    var d := Decimal(n);
    if n >= 10 {
      DecimalReads(n / 10);
      assert d[..|d| - 1] == Decimal(n / 10);
    } else {
      assert d[..0] == "";
    }
  }

  // ---------- what a preview says of each row ----------

  /** Another present file that has to be moved has the same target. */
  ghost predicate TargetShared(req: Request, files: Files, rows: seq<FileRow>, i: nat)
    requires i < |rows|
  {
    exists k :: 0 <= k < |rows| && k != i && Resolve(req.cwd, rows[k].path) in files
             && Resolve(req.cwd, rows[k].path) != Target(req, rows[k]) && Target(req, rows[k]) == Target(req, rows[i])
  }

  /** The item of row `i`: missing, in place, in conflict or ready. */
  ghost predicate Says(req: Request, files: Files, rows: seq<FileRow>, i: nat, item: Item)
    requires i < |rows|
  {
    var source, target := Resolve(req.cwd, rows[i].path), Target(req, rows[i]);
    && item.fileId == rows[i].id && item.sourcePath == rows[i].path && item.targetPath == Show(target)
    && (item.status.Missing? <==> source !in files)
    && (item.status.Unchanged? <==> source in files && source == target)
    && (item.status.Conflict? <==>
        source in files && source != target && (target in files || TargetShared(req, files, rows, i)))
    && (item.status.Ready? <==>
        source in files && source != target && target !in files && !TargetShared(req, files, rows, i))
  }

  /** The rows that become candidates, by index. */
  function Present(req: Request, files: Files, rows: seq<FileRow>): (r: seq<nat>)
    ensures forall a :: 0 <= a < |r| ==> r[a] < |rows|
    ensures forall a, b :: 0 <= a < b < |r| ==> r[a] < r[b]
  {
    if rows == [] then []
    else
      var n := |rows| - 1;
      Present(req, files, rows[..n]) + if Source(req, rows[n]) in files then [n] else []
  }

  lemma ScreenMeans(req: Request, files: Files, row: FileRow)
    requires Resolved(req)
    ensures Screen(req, files, row) == if Source(req, row) in files then Ready else Missing
  {
    hide Target, Source, Show, CommonPathUnder, Name, Filename;
    TargetBelowRoot(req, row);
  }

  lemma {:induction false} CandidatesArePresent(req: Request, files: Files, rows: seq<FileRow>)
    requires Resolved(req)
    ensures |Candidates(req, files, rows)| == |Present(req, files, rows)|
    ensures |Rejected(req, files, rows)| + |Candidates(req, files, rows)| == |rows|
    ensures forall a :: 0 <= a < |Present(req, files, rows)| ==>
      var row := rows[Present(req, files, rows)[a]];
      Source(req, row) in files && Candidates(req, files, rows)[a] == Candidate(row, Source(req, row), Target(req, row))
    ensures forall i :: 0 <= i < |rows| && Source(req, rows[i]) in files ==> i in Present(req, files, rows)
  {
    hide Target, Source, Show, Screen, Resolved;
    if rows != [] {
      var n := |rows| - 1;
      CandidatesArePresent(req, files, rows[..n]);
      ScreenMeans(req, files, rows[n]);
    }
  }

  lemma {:induction false} RejectedAt(req: Request, files: Files, rows: seq<FileRow>, i: nat) returns (j: nat)
    requires Resolved(req) && i < |rows| && Source(req, rows[i]) !in files
    ensures j < |Rejected(req, files, rows)|
    ensures Rejected(req, files, rows)[j] == Item(rows[i].id, rows[i].path, Show(Target(req, rows[i])), Missing)
  {
    hide Target, Source, Show, Screen, Resolved;
    var n := |rows| - 1;
    ScreenMeans(req, files, rows[n]);
    if i == n {
      j := |Rejected(req, files, rows[..n])|;
    } else {
      j := RejectedAt(req, files, rows[..n], i);
    }
  }

  lemma SourceIs(req: Request)
    ensures forall row: FileRow :: Source(req, row) == Resolve(req.cwd, row.path)
  {
    hide Resolve;
  }

  lemma RivalIsShared(req: Request, files: Files, rows: seq<FileRow>, a: nat)
    requires Resolved(req) && a < |Present(req, files, rows)| == |Candidates(req, files, rows)|
    ensures HasRival(Candidates(req, files, rows), a) <==> TargetShared(req, files, rows, Present(req, files, rows)[a])
  {
    hide Target, Source, Resolved, Present, Candidates, Resolve, HasRival, TargetShared;
    CandidatesArePresent(req, files, rows);
    var cands, at := Candidates(req, files, rows), Present(req, files, rows);
    assert forall b, c :: 0 <= b < c < |at| ==> at[b] < at[c];
    RivalsAreShared(req, files, rows, cands, at, a);
  }

  lemma RivalsAreShared(req: Request, files: Files, rows: seq<FileRow>, cands: seq<Candidate>, at: seq<nat>, a: nat)
    requires a < |at| == |cands|
    requires forall b :: 0 <= b < |at| ==> at[b] < |rows|
    requires forall b, c :: 0 <= b < c < |at| ==> at[b] < at[c]
    requires forall b :: 0 <= b < |at| ==>
      var row := rows[at[b]]; Source(req, row) in files && cands[b] == Candidate(row, Source(req, row), Target(req, row))
    requires forall i :: 0 <= i < |rows| && Source(req, rows[i]) in files ==> i in at
    ensures HasRival(cands, a) <==> TargetShared(req, files, rows, at[a])
  {
    hide Target, Source, Resolve;
    SourceIs(req);
    if b :| 0 <= b < |cands| && b != a && cands[b].source != cands[b].target && cands[b].target == cands[a].target {
      assert at[b] != at[a];
      assert TargetShared(req, files, rows, at[a]);
    }
    if TargetShared(req, files, rows, at[a]) {
      SharedIsRival(req, files, rows, cands, at, a);
    }
  }

  lemma SharedIsRival(req: Request, files: Files, rows: seq<FileRow>, cands: seq<Candidate>, at: seq<nat>, a: nat)
    requires a < |at| == |cands|
    requires forall b :: 0 <= b < |at| ==> at[b] < |rows|
    requires forall b :: 0 <= b < |at| ==>
      var row := rows[at[b]]; Source(req, row) in files && cands[b] == Candidate(row, Source(req, row), Target(req, row))
    requires forall i :: 0 <= i < |rows| && Source(req, rows[i]) in files ==> i in at
    requires TargetShared(req, files, rows, at[a])
    ensures HasRival(cands, a)
  {
    hide Target, Source, Resolve;
    SourceIs(req);
    var k :| 0 <= k < |rows| && k != at[a] && Resolve(req.cwd, rows[k].path) in files
      && Resolve(req.cwd, rows[k].path) != Target(req, rows[k]) && Target(req, rows[k]) == Target(req, rows[at[a]]);
    var b :| 0 <= b < |at| && at[b] == k;
    assert cands[b].target == cands[a].target && b != a;
  }

  lemma CanonicalCandidates(req: Request, files: Files, rows: seq<FileRow>)
    requires Resolved(req)
    ensures forall a :: 0 <= a < |Candidates(req, files, rows)| ==> Canonical(Candidates(req, files, rows)[a].target)
  {
    hide Target, Source, Canonical, Show, Name, Filename, CommonPathUnder, Present, Candidates, Resolved;
    CandidatesArePresent(req, files, rows);
    forall a | 0 <= a < |Candidates(req, files, rows)|
      ensures Canonical(Candidates(req, files, rows)[a].target)
    {
      TargetBelowRoot(req, rows[Present(req, files, rows)[a]]);
    }
  }

  /** A preview has one item for every row, and this is what it says. */
  lemma PreviewSays(req: Request, files: Files, rows: seq<FileRow>, i: nat) returns (j: nat)
    requires Resolved(req) && i < |rows|
    ensures |PreviewItems(req, files, rows)| == |rows|
    ensures j < |rows| && Says(req, files, rows, i, PreviewItems(req, files, rows)[j])
  {
    hide Target, Source, Show, Rejected, Candidates, Classified, Classify, Present, Canonical, TargetShared, HasRival, Resolved,
      Resolve;
    SourceIs(req);
    CandidatesArePresent(req, files, rows);
    var rejected, cands := Rejected(req, files, rows), Candidates(req, files, rows);
    ClassifiedAt(files, cands, cands);
    if Source(req, rows[i]) !in files {
      j := RejectedAt(req, files, rows, i);
    } else {
      var a: nat :| a < |Present(req, files, rows)| && Present(req, files, rows)[a] == i;
      CanonicalCandidates(req, files, rows);
      ClassifyMeaning(files, cands, a);
      RivalIsShared(req, files, rows, a);
      j := |rejected| + a;
      assert PreviewItems(req, files, rows)[j] == Classified(files, cands, cands)[a];
    }
  }
}
