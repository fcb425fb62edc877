/**
 Pattern-driven names: sanitised path components, token substitution and the
 target file name (app/library/organizer.py).
 */
module Naming {
  import opened Text
  import opened Paths

  type Context = map<string, string>

  predicate IsUnsafe(c: char) {
    c in {'\\', '/', ':', '*', '?', '"', '<', '>', '|'} || c <= '\U{1F}'
  }

  predicate IsSafe(c: char) {
    !IsUnsafe(c)
  }

  predicate IsVisible(c: char) {
    IsSafe(c) && !IsSpace(c)
  }

  /** `re.sub(r"\s+", " ", s)`: a run of spaces is written once, at its last character. */
  function Collapse(s: string): string {
    if s == [] then []
    else if !IsSpace(s[0]) then [s[0]] + Collapse(s[1..])
    else if |s| > 1 && IsSpace(s[1]) then Collapse(s[1..])
    else [' '] + Collapse(s[1..])
  }

  function Cleaned(s: string): string {
    Strip(Collapse(Keep(s, IsSafe)))
  }

  function SanitizeComponent(value: string): string {
    var cleaned := Cleaned(value);
    if cleaned == "" || cleaned == "." || cleaned == ".." then "" else cleaned
  }

  // ---------- what sanitising guarantees ----------

  predicate SingleSpaced(s: string) {
    forall i :: 0 <= i < |s| && IsSpace(s[i]) ==>
      s[i] == ' ' && (i + 1 < |s| ==> !IsSpace(s[i + 1]))
  }

  /** Fixed points of cleaning: safe characters, single inner spaces, no outer ones. */
  predicate Tidy(s: string) {
    && (forall i :: 0 <= i < |s| ==> IsSafe(s[i]))
    && SingleSpaced(s)
    && (s != "" ==> !IsSpace(s[0]) && !IsSpace(s[|s| - 1]))
  }

  lemma {:induction false} CollapseSingleSpaced(s: string)
    requires forall i :: 0 <= i < |s| ==> IsSafe(s[i])
    ensures SingleSpaced(Collapse(s))
    ensures forall i :: 0 <= i < |Collapse(s)| ==> IsSafe(Collapse(s)[i])
    ensures s != [] ==> Collapse(s) != [] && (IsSpace(Collapse(s)[0]) <==> IsSpace(s[0]))
  {
    if s != [] {
      CollapseSingleSpaced(s[1..]);
    }
  }

  lemma {:induction false} CollapseFixed(s: string)
    requires SingleSpaced(s)
    ensures Collapse(s) == s
  {
    if s != [] {
      assert forall i :: 0 <= i < |s| - 1 ==> s[1..][i] == s[i + 1];
      CollapseFixed(s[1..]);
      assert s == [s[0]] + s[1..];
    }
  }

  lemma {:induction false} StripFixed(s: string)
    requires s != "" ==> !IsSpace(s[0]) && !IsSpace(s[|s| - 1])
    ensures Strip(s) == s
  {
  }

  predicate OnlySafe(s: string) {
    forall i :: 0 <= i < |s| ==> IsSafe(s[i])
  }

  lemma StrippedIsTidy(c: string)
    requires SingleSpaced(c) && OnlySafe(c)
    ensures Tidy(Strip(c))
  {
    hide IsSpace, IsSafe, LStrip, RStrip, SingleSpaced, OnlySafe;
    var l := LStrip(c);
    var r := RStrip(l);
    var lo := |c| - |l|;
    assert r == c[lo..lo + |r|];
    InfixIsTidy(c, lo, lo + |r|);
    assert r != "" ==> r[0] == l[0];
    SafeThroughout(r);
  }

  lemma InfixIsTidy(c: string, lo: nat, hi: nat)
    requires SingleSpaced(c) && OnlySafe(c) && lo <= hi <= |c|
    ensures SingleSpaced(c[lo..hi]) && OnlySafe(c[lo..hi])
  {
    hide IsSpace, IsSafe;
    assert forall i :: 0 <= i < hi - lo ==> c[lo..hi][i] == c[lo + i];
  }

  lemma SafeThroughout(r: string)
    requires OnlySafe(r)
    ensures forall i :: 0 <= i < |r| ==> IsSafe(r[i])
  {
    hide IsSafe;
  }

  lemma CleanedIsTidy(s: string)
    ensures Tidy(Cleaned(s))
  {
    CollapseSingleSpaced(Keep(s, IsSafe));
    hide SingleSpaced, Collapse, Strip, Tidy, Keep;
    StrippedIsTidy(Collapse(Keep(s, IsSafe)));
  }

  lemma TidyIsClean(s: string)
    requires Tidy(s)
    ensures Cleaned(s) == s
  {
    assert Keep(s, IsSafe) == s;
    CollapseFixed(s);
    StripFixed(s);
  }

  /**
   A component that survives is tidy and a proper name: not empty, no separator, neither
   `.` nor `..`. Sanitising a second time changes nothing.
   */
  lemma SanitizedComponent(value: string)
    ensures var r := SanitizeComponent(value);
      r != "" ==> Tidy(r) && IsName(r)
    ensures SanitizeComponent(SanitizeComponent(value)) == SanitizeComponent(value)
  {
    hide IsSpace, Cleaned, SingleSpaced;
    CleanedIsTidy(value);
    TidyIsClean(Cleaned(value));
    TidyIsClean("");
  }

  lemma {:induction false} KeepVisible(s: string)
    ensures Keep(Keep(s, IsSafe), IsVisible) == Keep(s, IsVisible)
    ensures Keep(Collapse(s), IsVisible) == Keep(s, IsVisible)
  {
    if s != [] {
      KeepVisible(s[1..]);
      var c := Collapse(s[1..]);
      assert ([s[0]] + c)[1..] == c && ([' '] + c)[1..] == c;
      var k := Keep(s[1..], IsSafe);
      assert ([s[0]] + k)[1..] == k;
    }
  }

  lemma {:induction false} KeepNothing(s: string)
    requires forall i :: 0 <= i < |s| ==> !IsVisible(s[i])
    ensures Keep(s, IsVisible) == []
  {
    if s != [] {
      KeepNothing(s[1..]);
    }
  }

  lemma StripVisible(s: string)
    ensures Keep(Strip(s), IsVisible) == Keep(s, IsVisible)
  {
    hide IsSpace, IsSafe, Keep, LStrip, RStrip;
    var l := LStrip(s);
    var r := RStrip(l);
    var before, after := s[..|s| - |l|], l[|r|..];
    assert s == before + l && l == r + after;
    KeepConcat(before, l, IsVisible);
    KeepConcat(r, after, IsVisible);
    KeepNothing(before);
    KeepNothing(after);
  }

  /** Cleaning drops only unsafe characters and white space, and keeps the order. */
  lemma CleanedKeepsVisible(s: string)
    ensures Keep(Cleaned(s), IsVisible) == Keep(s, IsVisible)
  {
    var safe := Keep(s, IsSafe);
    KeepVisible(s);
    KeepVisible(safe);
    StripVisible(Collapse(safe));
  }

  /** What sanitising computes: the visible text, unless it is only `""`, `.` or `..`. */
  lemma SanitizeKeepsVisible(value: string)
    ensures var r := SanitizeComponent(value);
      if r != "" then Keep(r, IsVisible) == Keep(value, IsVisible)
      else Keep(value, IsVisible) in {"", ".", ".."}
  {
    CleanedKeepsVisible(value);
    assert IsVisible('.');
    hide Cleaned, IsVisible, Keep;
    DotsAreVisible(Cleaned(value));
  }

  lemma DotsAreVisible(s: string)
    requires s in {"", ".", ".."} ==> IsVisible('.')
    ensures s in {"", ".", ".."} ==> Keep(s, IsVisible) == s
  {
    hide IsVisible;
    if s in {"", ".", ".."} {
      assert forall i :: 0 <= i < |s| ==> s[i] == '.';
    }
  }

  // ---------- token substitution ----------

  /** `\w`: ASCII letters, digits and `_`; for other characters the Unicode tables decide. */
  predicate IsWord(c: char, letters: char -> bool) {
    || 'a' <= c <= 'z'
    || 'A' <= c <= 'Z'
    || IsDigit(c)
    || c == '_'
    || (c >= '\U{80}' && letters(c))
  }

  function WordRun(s: string, letters: char -> bool): (n: nat)
    ensures n <= |s|
    ensures forall i :: 0 <= i < n ==> IsWord(s[i], letters)
    ensures n < |s| ==> !IsWord(s[n], letters)
  {
    if s != [] && IsWord(s[0], letters) then 1 + WordRun(s[1..], letters) else 0
  }

  function Lookup(context: Context, token: string): string {
    if token in context then context[token] else ""
  }

  /** `_TOKEN.sub(lambda m: context.get(m.group(1), ""), s)` */
  function Substitute(s: string, context: Context, letters: char -> bool): string
    decreases |s|
  {
    if s == [] then []
    else if s[0] != '{' then [s[0]] + Substitute(s[1..], context, letters)
    else
      var n := WordRun(s[1..], letters);
      if n > 0 && n + 1 < |s| && s[n + 1] == '}' then
        Lookup(context, s[1..n + 1]) + Substitute(s[n + 2..], context, letters)
      else
        [s[0]] + Substitute(s[1..], context, letters)
  }

  function RenderSegments(segments: seq<string>, context: Context, letters: char -> bool): seq<string> {
    if segments == [] then []
    else
      var sanitized := SanitizeComponent(Substitute(segments[0], context, letters));
      (if sanitized == "" then [] else [sanitized]) + RenderSegments(segments[1..], context, letters)
  }

  function RenderPattern(pattern: string, context: Context, letters: char -> bool): seq<string> {
    RenderSegments(Split(pattern, '/'), context, letters)
  }

  lemma {:induction false} SubstituteLiteral(s: string, rest: string, context: Context, letters: char -> bool)
    requires '{' !in s
    ensures Substitute(s + rest, context, letters) == s + Substitute(rest, context, letters)
  {
    if s == [] {
      assert s + rest == rest;
    } else {
      assert s[0] != '{';
      assert (s + rest)[1..] == s[1..] + rest;
      SubstituteLiteral(s[1..], rest, context, letters);
      assert [s[0]] + (s[1..] + Substitute(rest, context, letters)) == s + Substitute(rest, context, letters);
    }
  }

  lemma {:induction false} WordRunIs(word: string, rest: string, letters: char -> bool)
    requires forall i :: 0 <= i < |word| ==> IsWord(word[i], letters)
    requires rest != "" ==> !IsWord(rest[0], letters)
    ensures WordRun(word + rest, letters) == |word|
  {
    hide IsWord;
    if word == "" {
      assert word + rest == rest;
    } else {
      assert (word + rest)[1..] == word[1..] + rest;
      WordRunIs(word[1..], rest, letters);
    }
  }

  lemma SubstituteLeadingToken(token: string, rest: string, context: Context, letters: char -> bool)
    requires token != "" && forall i :: 0 <= i < |token| ==> IsWord(token[i], letters)
    ensures Substitute("{" + token + "}" + rest, context, letters)
         == Lookup(context, token) + Substitute(rest, context, letters)
  {
    assert !IsWord('}', letters);
    hide IsWord;
    WordRunIs(token, "}" + rest, letters);
    var s := "{" + token + "}" + rest;
    assert s[1..] == token + ("}" + rest);
    assert s[1..|token| + 1] == token && s[|token| + 2..] == rest;
  }

  /** Text outside tokens is copied; each `{token}` becomes its value, an unknown one nothing. */
  lemma SubstituteToken(before: string, token: string, rest: string, context: Context, letters: char -> bool)
    requires '{' !in before
    requires token != "" && forall i :: 0 <= i < |token| ==> IsWord(token[i], letters)
    ensures Substitute(before + "{" + token + "}" + rest, context, letters)
         == before + (if token in context then context[token] else "") + Substitute(rest, context, letters)
  {
    hide IsWord, Substitute;
    var tail := "{" + token + "}" + rest;
    assert before + "{" + token + "}" + rest == before + tail;
    SubstituteLiteral(before, tail, context, letters);
    SubstituteLeadingToken(token, rest, context, letters);
    assert before + (Lookup(context, token) + Substitute(rest, context, letters))
        == before + Lookup(context, token) + Substitute(rest, context, letters);
  }

  /** A brace that opens no `{token}` is copied like any other character. */
  lemma SubstituteBrace(s: string, context: Context, letters: char -> bool)
    requires s != "" && s[0] == '{'
    requires forall e :: 2 <= e < |s| && s[e] == '}' ==> exists i :: 1 <= i < e && !IsWord(s[i], letters)
    ensures Substitute(s, context, letters) == "{" + Substitute(s[1..], context, letters)
  {
    hide IsWord;
    var n := WordRun(s[1..], letters);
    assert forall i :: 1 <= i <= n ==> s[i] == s[1..][i - 1];
  }

  lemma {:induction false} RenderedSegments(segments: seq<string>, context: Context, letters: char -> bool)
    ensures |RenderSegments(segments, context, letters)| <= |segments|
    ensures Canonical(RenderSegments(segments, context, letters))
    ensures forall i :: 0 <= i < |RenderSegments(segments, context, letters)| ==>
      Tidy(RenderSegments(segments, context, letters)[i])
  {
    hide IsSpace, Cleaned, SanitizeComponent, Tidy, IsName, Substitute;
    if segments != [] {
      SanitizedComponent(Substitute(segments[0], context, letters));
      RenderedSegments(segments[1..], context, letters);
    }
  }

  /** No token value can add a component, inject a separator or climb with `..`. */
  lemma RenderedComponents(pattern: string, context: Context, letters: char -> bool)
    ensures var r := RenderPattern(pattern, context, letters);
      && |r| <= |Split(pattern, '/')|
      && Canonical(r)
      && forall i :: 0 <= i < |r| ==> Tidy(r[i])
  {
    RenderedSegments(Split(pattern, '/'), context, letters);
  }

  lemma {:induction false} RenderedInOrder(a: seq<string>, b: seq<string>, context: Context, letters: char -> bool)
    ensures RenderSegments(a + b, context, letters) == RenderSegments(a, context, letters) + RenderSegments(b, context, letters)
  {
    hide SanitizeComponent, Substitute;
    if a == [] {
      assert a + b == b;
    } else {
      assert (a + b)[0] == a[0] && (a + b)[1..] == a[1..] + b;
      RenderedInOrder(a[1..], b, context, letters);
    }
  }

  /** The components of `a/b` are those of `a` followed by those of `b`. */
  lemma RenderJoined(a: string, b: string, context: Context, letters: char -> bool)
    ensures RenderPattern(a + "/" + b, context, letters)
         == RenderPattern(a, context, letters) + RenderPattern(b, context, letters)
  {
    hide RenderSegments, Split;
    assert a + "/" + b == a + ['/'] + b;
    SplitConcat(a, b, '/');
    RenderedInOrder(Split(a, '/'), Split(b, '/'), context, letters);
  }

  /** A pattern without `/` gives its one sanitised substitution, or nothing. */
  lemma RenderOne(segment: string, context: Context, letters: char -> bool)
    requires '/' !in segment
    ensures RenderPattern(segment, context, letters)
         == var name := SanitizeComponent(Substitute(segment, context, letters)); if name == "" then [] else [name]
  {
    hide SanitizeComponent, Substitute, Split;
    SplitWithoutSeparator(segment, '/');
    assert [segment][1..] == [];
    assert RenderSegments([], context, letters) == [];
  }

  // ---------- file names ----------

  predicate HasSuffix(name: string) {
    0 < RFind(name, '.') < |name| - 1
  }

  /** `PurePath.suffix` of a path with this final component (Python 3.12) */
  function Suffix(name: string): string {
    if HasSuffix(name) then name[RFind(name, '.')..] else ""
  }

  /** `PurePath.stem` */
  function Stem(name: string): string {
    if HasSuffix(name) then name[..RFind(name, '.')] else name
  }

  function Fallback(context: Context): string {
    "file-" + (if "book_id" in context then context["book_id"] else "0")
  }

  function Filename(context: Context, sourcePath: string): string {
    var name := Name(sourcePath);
    var stem := SanitizeComponent(Stem(name));
    (if stem == "" then Fallback(context) else stem) + Suffix(name)
  }

  function RenderTarget(pattern: string, context: Context, letters: char -> bool, sourcePath: string): Path {
    RenderPattern(pattern, context, letters) + [Filename(context, sourcePath)]
  }

  /** The book id token is a decimal number, as `build_context` makes it. */
  predicate NumberedContext(context: Context) {
    "book_id" in context ==> forall i :: 0 <= i < |context["book_id"]| ==> IsDigit(context["book_id"][i])
  }

  lemma FallbackIsTidy(context: Context)
    requires NumberedContext(context)
    ensures Tidy(Fallback(context)) && IsName(Fallback(context)) && '.' !in Fallback(context)
    ensures SanitizeComponent(Fallback(context)) == Fallback(context)
  {
    hide Cleaned;
    var f := Fallback(context);
    assert forall i :: 0 <= i < |f| ==> (i < 5 && f[i] == "file-"[i]) || IsDigit(f[i]);
    assert f[0] == 'f';
    TidyIsClean(f);
  }

  lemma SuffixShape(name: string)
    ensures Stem(name) + Suffix(name) == name
    ensures Suffix(name) != "" ==>
      && |Suffix(name)| >= 2 && Suffix(name)[0] == '.'
      && forall i :: 1 <= i < |Suffix(name)| ==> Suffix(name)[i] != '.'
  {
  }

  /** Without a dot, with only a leading one, or ending in one, a name has no suffix. */
  lemma NoSuffix(name: string)
    requires name == "" || '.' !in name[1..] || name[|name| - 1] == '.'
    ensures Suffix(name) == "" && Stem(name) == name
  {
    var i := RFind(name, '.');
    if i > 0 {
      assert name[1..][i - 1] == '.';
      RFindIs(name, '.', |name| - 1);
    }
  }

  lemma FilenameIsName(context: Context, sourcePath: string)
    requires NumberedContext(context)
    ensures IsName(Filename(context, sourcePath))
  {
    var name := Name(sourcePath);
    SanitizedComponent(Stem(name));
    FallbackIsTidy(context);
    SuffixShape(name);
    assert '/' !in Suffix(name);
  }

  /** A stem joined to a suffix with no other dot splits back into the two. */
  lemma SuffixOfJoin(stem: string, suffix: string)
    requires stem != "" && |suffix| >= 2 && suffix[0] == '.'
    requires forall i :: 1 <= i < |suffix| ==> suffix[i] != '.'
    ensures Stem(stem + suffix) == stem && Suffix(stem + suffix) == suffix
  {
    RFindIs(stem + suffix, '.', |stem|);
  }

  lemma {:induction false} FirstVisible(s: string)
    requires s != "" && IsVisible(s[0])
    ensures Keep(s, IsVisible) == [s[0]] + Keep(s[1..], IsVisible)
  {
  }

  lemma LastVisible(s: string)
    requires s != "" && IsVisible(s[|s| - 1])
    ensures Keep(s, IsVisible) == Keep(s[..|s| - 1], IsVisible) + [s[|s| - 1]]
  {
    hide *;
    var before, last := s[..|s| - 1], s[|s| - 1];
    assert s == before + [last];
    OneVisible(last);
    KeepConcat(before, [last], IsVisible);
  }

  lemma OneVisible(c: char)
    requires IsVisible(c)
    ensures Keep([c], IsVisible) == [c]
  {
    hide IsVisible;
  }

  /** Two names with the same visible text and visible ends agree on having no suffix. */
  lemma SameVisibleNoSuffix(name: string, s: string)
    requires !HasSuffix(name)
    requires s != "" && IsVisible(s[0]) && IsVisible(s[|s| - 1]) && IsVisible('.')
    requires Keep(s, IsVisible) == Keep(name, IsVisible)
    ensures !HasSuffix(s)
  {
    hide IsVisible, Keep, RFind;
    var i := RFind(name, '.');
    if i < 0 {
      KeepMember(name, IsVisible, '.');
      KeepMember(s, IsVisible, '.');
    } else if i == |name| - 1 {
      LastVisible(name);
      LastVisible(s);
      assert s[|s| - 1] == '.';
    } else {
      FirstVisible(name);
      FirstVisible(s);
      assert Keep(s, IsVisible)[1..] == Keep(name, IsVisible)[1..];
      KeepMember(name[1..], IsVisible, '.');
      KeepMember(s[1..], IsVisible, '.');
      assert forall j :: 1 <= j < |s| ==> s[j] == s[1..][j - 1];
    }
  }

  /** A name without a suffix keeps having none once sanitised. */
  lemma SanitizedHasNoSuffix(name: string)
    requires !HasSuffix(name) && SanitizeComponent(name) != ""
    ensures !HasSuffix(SanitizeComponent(name))
  {
    hide *;
    DotIsVisible();
    SanitizedFacts(name);
    TidyEnds(SanitizeComponent(name));
    SameVisibleNoSuffix(name, SanitizeComponent(name));
  }

  lemma DotIsVisible()
    ensures IsVisible('.')
  {
  }

  lemma SanitizedFacts(name: string)
    requires SanitizeComponent(name) != ""
    ensures Tidy(SanitizeComponent(name))
    ensures Keep(SanitizeComponent(name), IsVisible) == Keep(name, IsVisible)
  {
    hide *;
    SanitizedComponent(name);
    SanitizeKeepsVisible(name);
  }

  lemma TidyEnds(s: string)
    requires Tidy(s) && s != ""
    ensures IsVisible(s[0]) && IsVisible(s[|s| - 1])
  {
    hide IsSpace, IsSafe, SingleSpaced;
  }

  /** The stem of a rendered file name; it is its own sanitised form. */
  function RenderedStem(context: Context, name: string): string {
    var stem := SanitizeComponent(Stem(name));
    if stem == "" then Fallback(context) else stem
  }

  lemma RenderedStemStable(context: Context, name: string)
    requires NumberedContext(context)
    ensures RenderedStem(context, name) != "" && SanitizeComponent(RenderedStem(context, name)) == RenderedStem(context, name)
    ensures !HasSuffix(name) ==> !HasSuffix(RenderedStem(context, name))
  {
    hide *;
    RenderedStemCases(context, name);
    SanitizedComponent(Stem(name));
    FallbackIsTidy(context);
    StemWithoutSuffix(name);
    if !HasSuffix(name) && SanitizeComponent(Stem(name)) != "" {
      SanitizedHasNoSuffix(name);
    }
    FallbackHasNoSuffix(context);
  }

  lemma RenderedStemCases(context: Context, name: string)
    ensures var stem := SanitizeComponent(Stem(name));
      RenderedStem(context, name) == if stem == "" then Fallback(context) else stem
  {
    hide SanitizeComponent, Stem, Fallback;
  }

  lemma StemWithoutSuffix(name: string)
    ensures !HasSuffix(name) ==> Stem(name) == name
  {
  }

  lemma FallbackHasNoSuffix(context: Context)
    requires NumberedContext(context)
    ensures !HasSuffix(Fallback(context)) && Fallback(context) != ""
  {
    FallbackIsTidy(context);
    assert RFind(Fallback(context), '.') == -1;
  }

  lemma FilenameParts(context: Context, sourcePath: string)
    ensures Filename(context, sourcePath) == RenderedStem(context, Name(sourcePath)) + Suffix(Name(sourcePath))
  {
    hide SanitizeComponent, Stem, Fallback, Suffix, Name;
  }

  /** A name put together from a stable stem and a suffix is taken apart into the same two. */
  lemma RenderedAgain(context: Context, stem: string, name: string)
    requires stem != "" && SanitizeComponent(stem) == stem
    requires !HasSuffix(name) ==> !HasSuffix(stem)
    ensures var whole := stem + Suffix(name);
      RenderedStem(context, whole) == stem && Suffix(whole) == Suffix(name)
  {
    hide SanitizeComponent, RFind, Fallback;
    SuffixShape(name);
    if HasSuffix(name) {
      SuffixOfJoin(stem, Suffix(name));
    } else {
      assert stem + "" == stem;
    }
  }

  /** Rendering the file name from its own output gives it back, `file-<id>` included. */
  lemma FilenameStable(context: Context, sourcePath: string)
    requires NumberedContext(context)
    ensures forall again :: Name(again) == Filename(context, sourcePath) ==>
      Filename(context, again) == Filename(context, sourcePath)
  {
    hide *;
    var name := Name(sourcePath);
    FilenameParts(context, sourcePath);
    RenderedStemStable(context, name);
    RenderedAgain(context, RenderedStem(context, name), name);
    forall again | Name(again) == Filename(context, sourcePath)
      ensures Filename(context, again) == Filename(context, sourcePath)
    {
      FilenameParts(context, again);
    }
  }

  /**
   Only the stem is sanitised: the file name is free of unsafe characters exactly when the
   original extension is, because the extension is appended as it stands.
   */
  lemma FilenameSafety(context: Context, sourcePath: string)
    requires NumberedContext(context)
    ensures (forall i :: 0 <= i < |Filename(context, sourcePath)| ==> IsSafe(Filename(context, sourcePath)[i]))
       <==> (forall i :: 0 <= i < |Suffix(Name(sourcePath))| ==> IsSafe(Suffix(Name(sourcePath))[i]))
  {
    hide Cleaned, SingleSpaced, SanitizeComponent, IsSpace, RFind;
    var name := Name(sourcePath);
    var sanitized := SanitizeComponent(Stem(name));
    var stem := if sanitized == "" then Fallback(context) else sanitized;
    SanitizedComponent(Stem(name));
    FallbackIsTidy(context);
    var full := Filename(context, sourcePath);
    assert full == stem + Suffix(name);
    assert forall i :: 0 <= i < |Suffix(name)| ==> full[|stem| + i] == Suffix(name)[i];
  }

  /** A converter may report `a.m4b?`: the question mark stays in the name. */
  lemma UnsafeSuffixKept(context: Context)
    requires NumberedContext(context)
    ensures IsUnsafe('?') && '?' in Filename(context, "/m/a.m4b?")
  {
    UnsafeSuffix();
    hide Name, Suffix, SanitizeComponent, Stem, Fallback;
    FilenameParts(context, "/m/a.m4b?");
    assert ".m4b?"[4] == '?';
  }

  lemma UnsafeSuffix()
    ensures Name("/m/a.m4b?") == "a.m4b?" && Suffix("a.m4b?") == ".m4b?"
  {
    RFindIs("a.m4b?", '.', 1);
    assert "a.m4b?"[1..] == ".m4b?";
    var p := ["m", "a.m4b?"];
    assert ShowTail(p) == "/" + "m" + ShowTail(["a.m4b?"]) && ShowTail(["a.m4b?"]) == "/" + "a.m4b?" + ShowTail([]);
    assert Show(p) == "/m/a.m4b?";
    hide RFind, Show, ShowTail, Suffix;
    ResolveOfShow([], p);
  }
}
