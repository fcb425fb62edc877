/** ISBN check digits, normalisation and comparable forms (app/reading_lists.py). */
module Isbn {
  import opened Text

  /** `10 if c == "X" else int(c)` */
  function Value(c: char): (v: int)
    ensures IsDigit(c) ==> 0 <= v <= 9
  {
    if c == 'X' then 10 else c as int - '0' as int
  }

  function Weight10(i: nat): int { 10 - i }

  function Weight13(i: nat): int { if i % 2 == 0 then 1 else 3 }

  /** The weighted sum of the first `n` characters. */
  function Weighted(s: string, weight: nat -> int, n: nat): int
    requires n <= |s|
  {
    if n == 0 then 0 else Weighted(s, weight, n - 1) + weight(n - 1) * Value(s[n - 1])
  }

  predicate Digits(s: string, n: nat)
    requires n <= |s|
  {
    forall i :: 0 <= i < n ==> IsDigit(s[i])
  }

  predicate Isbn10Ok(s: string) {
    && |s| == 10 && Digits(s, 9) && (IsDigit(s[9]) || s[9] == 'X')
    && Weighted(s, Weight10, 10) % 11 == 0
  }

  /** `(10 - total % 10) % 10` over the first twelve digits. */
  function Check13(s: string): (d: int)
    requires |s| >= 12
    ensures 0 <= d <= 9
  {
    (10 - Weighted(s, Weight13, 12) % 10) % 10
  }

  predicate Isbn13Ok(s: string) {
    |s| == 13 && Digits(s, 13) && Check13(s) == Value(s[12])
  }

  function DigitOf(d: int): (c: char)
    requires 0 <= d <= 9
    ensures IsDigit(c) && Value(c) == d
  {
    "0123456789"[d]
  }

  function Isbn10To13(isbn10: string): string
    requires |isbn10| >= 9
  {
    var core := "978" + isbn10[..9];
    core + [DigitOf(Check13(core))]
  }

  // ---------- sums ----------

  lemma {:induction false} WeightedPrefix(s: string, t: string, weight: nat -> int, n: nat)
    requires n <= |s| && n <= |t| && s[..n] == t[..n]
    ensures Weighted(s, weight, n) == Weighted(t, weight, n)
  {
    if n > 0 {
      assert s[..n][..n - 1] == s[..n - 1] && t[..n][..n - 1] == t[..n - 1];
      WeightedPrefix(s, t, weight, n - 1);
      assert s[..n][n - 1] == t[..n][n - 1];
    }
  }

  lemma Distributes(w: int, a: int, b: int)
    ensures w * a == w * b + w * (a - b)
  {}

  lemma {:induction false} WeightedUpdate(s: string, weight: nat -> int, n: nat, k: nat, c: char)
    requires n <= |s| && k < |s|
    ensures Weighted(s[k := c], weight, n)
         == Weighted(s, weight, n) + if k < n then weight(k) * (Value(c) - Value(s[k])) else 0
  {
    if n > 0 {
      WeightedUpdate(s, weight, n - 1, k, c);
      if k == n - 1 {
        Distributes(weight(k), Value(c), Value(s[k]));
      }
    }
  }

  lemma NotDivisibleBy11(w: int, d: int)
    requires 1 <= w <= 10 && -10 <= d <= 10 && d != 0
    ensures (w * d) % 11 != 0
  {
    if w == 1 {} else if w == 2 {} else if w == 3 {} else if w == 4 {} else if w == 5 {}
    else if w == 6 {} else if w == 7 {} else if w == 8 {} else if w == 9 {} else {}
  }

  lemma SameValueSameChar(c: char, d: char)
    requires (IsDigit(c) || c == 'X') && (IsDigit(d) || d == 'X') && Value(c) == Value(d)
    ensures c == d
  {}

  // ---------- what the ISBN-10 check rejects ----------

  lemma ValueRange10(s: string, k: nat)
    requires Isbn10Ok(s) && k < 10
    ensures 0 <= Value(s[k]) <= 10 && (IsDigit(s[k]) || s[k] == 'X')
  {}

  /** Every change of a single character is rejected. */
  lemma Isbn10SingleChange(s: string, k: nat, c: char)
    requires Isbn10Ok(s) && k < 10 && c != s[k]
    ensures !Isbn10Ok(s[k := c])
  {
    var t := s[k := c];
    if Isbn10Ok(t) {
      ValueRange10(s, k);
      ValueRange10(t, k);
      Isbn10Sum(s);
      Isbn10Sum(t);
      hide Isbn10Ok, Weighted, Value;
      WeightedUpdate(s, Weight10, 10, k, c);
      if Value(c) == Value(s[k]) {
        SameValueSameChar(c, s[k]);
      }
      var d := Value(c) - Value(s[k]);
      SumDivisible(Weighted(s, Weight10, 10), (10 - k) * d, 11);
      NotDivisibleBy11(10 - k, d);
    }
  }

  function Swapped(s: string, i: nat, j: nat): string
    requires i < |s| && j < |s|
  {
    s[i := s[j]][j := s[i]]
  }

  lemma WeightedSwap(s: string, weight: nat -> int, i: nat, j: nat)
    requires i < j < |s|
    ensures Weighted(Swapped(s, i, j), weight, |s|)
         == Weighted(s, weight, |s|) + (weight(i) - weight(j)) * (Value(s[j]) - Value(s[i]))
  {
    WeightedUpdate(s, weight, |s|, i, s[j]);
    WeightedUpdate(s[i := s[j]], weight, |s|, j, s[i]);
    var d := Value(s[j]) - Value(s[i]);
    assert weight(j) * (-d) == -(weight(j) * d);
    assert (weight(i) - weight(j)) * d == weight(i) * d - weight(j) * d;
  }

  /** Every swap of two different characters, adjacent or not, is rejected. */
  lemma Isbn10Swap(s: string, i: nat, j: nat)
    requires Isbn10Ok(s) && i < j < 10 && s[i] != s[j]
    ensures !Isbn10Ok(Swapped(s, i, j))
  {
    var t := Swapped(s, i, j);
    if Isbn10Ok(t) {
      ValueRange10(s, i);
      ValueRange10(s, j);
      Isbn10Sum(s);
      Isbn10Sum(t);
      hide Isbn10Ok, Weighted, Swapped, Value;
      WeightedSwap(s, Weight10, i, j);
      if Value(s[i]) == Value(s[j]) {
        SameValueSameChar(s[i], s[j]);
      }
      var d := Value(s[j]) - Value(s[i]);
      assert Weight10(i) - Weight10(j) == j - i;
      SumDivisible(Weighted(s, Weight10, 10), (j - i) * d, 11);
      NotDivisibleBy11(j - i, d);
    }
  }

  lemma Isbn10Sum(s: string)
    requires Isbn10Ok(s)
    ensures |s| == 10 && Weighted(s, Weight10, 10) % 11 == 0
  {}

  lemma SumDivisible(a: int, b: int, m: int)
    requires m in {10, 11} && a % m == 0
    ensures (a + b) % m == 0 <==> b % m == 0
  {}

  // ---------- what the ISBN-13 check rejects ----------

  /** The check says that the weighted sum of all thirteen digits is a multiple of ten. */
  lemma Isbn13Sum(s: string)
    requires |s| == 13 && Digits(s, 13)
    ensures Isbn13Ok(s) <==> Weighted(s, Weight13, 13) % 10 == 0
  {
    assert Weighted(s, Weight13, 13) == Weighted(s, Weight13, 12) + Value(s[12]);
    assert IsDigit(s[12]);
    CheckMeans(Weighted(s, Weight13, 12), Value(s[12]));
    hide Weighted, Value;
  }

  lemma CheckMeans(total: int, last: int)
    requires 0 <= last <= 9
    ensures (10 - total % 10) % 10 == last <==> (total + last) % 10 == 0
  {}

  lemma NotDivisibleBy10(w: int, d: int)
    requires w in {1, 3} && -9 <= d <= 9 && d != 0
    ensures (w * d) % 10 != 0
  {
    if w == 1 {} else {}
  }

  lemma DivisibleBy10Iff(w: int, d: int)
    requires w in {-2, 0, 2} && -9 <= d <= 9
    ensures (w * d) % 10 == 0 <==> w == 0 || d in {-5, 0, 5}
  {
    if w == -2 {} else if w == 0 {} else {}
  }

  /** Every change of a single character is rejected. */
  lemma Isbn13SingleChange(s: string, k: nat, c: char)
    requires Isbn13Ok(s) && k < 13 && c != s[k]
    ensures !Isbn13Ok(s[k := c])
  {
    var t := s[k := c];
    if Isbn13Ok(t) {
      Isbn13Sum(s);
      Isbn13Sum(t);
      assert IsDigit(t[k]) && IsDigit(s[k]);
      hide Isbn13Ok, Weighted;
      WeightedUpdate(s, Weight13, 13, k, c);
      if Value(c) == Value(s[k]) {
        SameValueSameChar(c, s[k]);
      }
      var d := Value(c) - Value(s[k]);
      SumDivisible(Weighted(s, Weight13, 13), Weight13(k) * d, 10);
      NotDivisibleBy10(Weight13(k), d);
    }
  }

  lemma WeightDifference(i: nat, j: nat)
    requires i < j
    ensures Weight13(i) - Weight13(j) in {-2, 0, 2}
    ensures Weight13(i) == Weight13(j) <==> (j - i) % 2 == 0
  {}

  lemma SwappedDigits(s: string, i: nat, j: nat)
    requires i < |s| && j < |s| && Digits(s, |s|)
    ensures |Swapped(s, i, j)| == |s| && Digits(Swapped(s, i, j), |s|)
  {
    var t := Swapped(s, i, j);
    assert forall k :: 0 <= k < |s| ==> t[k] == s[k] || t[k] == s[i] || t[k] == s[j];
  }

  /**
   A swap goes unnoticed exactly when both digits carry the same weight or differ by nothing
   or by five.
   */
  lemma Isbn13SwapIff(s: string, i: nat, j: nat)
    requires Isbn13Ok(s) && i < j < 13
    ensures Isbn13Ok(Swapped(s, i, j))
       <==> (j - i) % 2 == 0 || Value(s[j]) - Value(s[i]) in {-5, 0, 5}
  {
    SwappedDigits(s, i, j);
    Isbn13Sum(s);
    Isbn13Sum(Swapped(s, i, j));
    assert IsDigit(s[i]) && IsDigit(s[j]);
    var w, d := Weight13(i) - Weight13(j), Value(s[j]) - Value(s[i]);
    WeightDifference(i, j);
    hide Isbn13Ok, Weighted, Swapped, Digits, Value, Weight13;
    WeightedSwap(s, Weight13, i, j);
    SumDivisible(Weighted(s, Weight13, 13), w * d, 10);
    DivisibleBy10Iff(w, d);
  }

  // ---------- conversion ----------

  lemma ConvertedPrefix(s: string)
    requires |s| >= 9
    ensures var t := Isbn10To13(s); |t| == 13 && t[..3] == "978" && t[3..12] == s[..9] && t[..12] == "978" + s[..9]
  {}

  /** Every valid ISBN-10 converts to a valid ISBN-13. */
  lemma ConversionValid(s: string)
    requires Isbn10Ok(s)
    ensures Isbn13Ok(Isbn10To13(s))
  {
    var core := "978" + s[..9];
    var t := Isbn10To13(s);
    forall i | 0 <= i < 13
      ensures IsDigit(t[i])
    {
      if 3 <= i < 12 {
        assert t[i] == s[i - 3];
      }
    }
    assert t[..12] == core[..12];
    WeightedPrefix(t, core, Weight13, 12);
  }

  /** The last character of a valid ISBN-10 follows from the others. */
  lemma LastDetermined(a: string, b: string)
    requires Isbn10Ok(a) && Isbn10Ok(b) && a[..9] == b[..9]
    ensures a == b
  {
    WeightedPrefix(a, b, Weight10, 9);
    assert Weighted(a, Weight10, 10) == Weighted(a, Weight10, 9) + Value(a[9]);
    assert Weighted(b, Weight10, 10) == Weighted(b, Weight10, 9) + Value(b[9]);
    ValueRange10(a, 9);
    ValueRange10(b, 9);
    SameValueSameChar(a[9], b[9]);
    assert a == a[..9] + [a[9]] && b == b[..9] + [b[9]];
  }

  lemma ConversionInjective(a: string, b: string)
    requires Isbn10Ok(a) && Isbn10Ok(b) && Isbn10To13(a) == Isbn10To13(b)
    ensures a == b
  {
    ConvertedPrefix(a);
    ConvertedPrefix(b);
    LastDetermined(a, b);
  }

  /** A valid ISBN-13 comes from a valid ISBN-10 exactly when it starts with 978. */
  lemma ConversionImage(t: string)
    requires Isbn13Ok(t)
    ensures (exists s :: Isbn10Ok(s) && Isbn10To13(s) == t) <==> t[..3] == "978"
  {
    if t[..3] == "978" {
      var nine := t[3..12];
      var rest := (11 - Weighted(nine, Weight10, 9) % 11) % 11;
      var s := nine + [if rest == 10 then 'X' else DigitOf(rest)];
      assert forall i :: 0 <= i < 9 ==> s[i] == t[i + 3];
      assert s[..9] == nine[..9];
      WeightedPrefix(s, nine, Weight10, 9);
      assert Weighted(s, Weight10, 10) == Weighted(s, Weight10, 9) + rest;
      assert Isbn10Ok(s);
      ConversionValid(s);
      ConvertedPrefix(s);
      assert t[..12] == t[..3] + t[3..12];
      SameCheckDigit(t, Isbn10To13(s));
    }
    forall s | Isbn10Ok(s) && Isbn10To13(s) == t
      ensures t[..3] == "978"
    {
      ConvertedPrefix(s);
    }
  }

  lemma SameCheckDigit(a: string, b: string)
    requires Isbn13Ok(a) && Isbn13Ok(b) && a[..12] == b[..12]
    ensures a == b
  {
    WeightedPrefix(a, b, Weight13, 12);
    assert IsDigit(a[12]) && IsDigit(b[12]);
    SameValueSameChar(a[12], b[12]);
    assert a == a[..12] + [a[12]] && b == b[..12] + [b[12]];
  }

  // ---------- normalisation ----------

  predicate Significant(c: char) {
    c !in {'=', '"', '\'', '-'} && !IsSpace(c)
  }

  function UpperChar(c: char): char {
    if 'a' <= c <= 'z' then c - 32 as char else c
  }

  function Upper(s: string): string {
    seq(|s|, i requires 0 <= i < |s| => UpperChar(s[i]))
  }

  predicate ValidIsbn(s: string) {
    Isbn10Ok(s) || Isbn13Ok(s)
  }

  function NormalizeIsbn(raw: string): string {
    var s := Upper(Keep(raw, Significant));
    if Isbn13Ok(s) || Isbn10Ok(s) then s else ""
  }

  lemma ValidCharacters(s: string, i: nat)
    requires ValidIsbn(s) && i < |s|
    ensures Significant(s[i]) && UpperChar(s[i]) == s[i]
  {
    assert IsDigit(s[i]) || s[i] == 'X';
  }

  /** Normalising yields a valid ISBN or nothing, and keeps every valid ISBN as it is. */
  lemma NormalizeMeans(raw: string)
    ensures NormalizeIsbn(raw) == "" || ValidIsbn(NormalizeIsbn(raw))
    ensures ValidIsbn(raw) <==> raw != "" && NormalizeIsbn(raw) == raw
    ensures NormalizeIsbn(NormalizeIsbn(raw)) == NormalizeIsbn(raw)
  {
    if ValidIsbn(raw) {
      KeptWhenValid(raw);
    }
    var once := NormalizeIsbn(raw);
    if once != "" {
      KeptWhenValid(once);
    } else {
      assert Keep("", Significant) == "";
    }
  }

  lemma KeptWhenValid(s: string)
    requires ValidIsbn(s)
    ensures NormalizeIsbn(s) == s
  {
    forall i | 0 <= i < |s|
      ensures Significant(s[i]) && UpperChar(s[i]) == s[i]
    {
      ValidCharacters(s, i);
    }
    assert Keep(s, Significant) == s;
    assert Upper(s) == s;
  }

  lemma KeepNone(before: string, c: char, after: string)
    requires !Significant(c)
    ensures Keep(before + [c] + after, Significant) == Keep(before + after, Significant)
  {
    hide Significant;
    KeepConcat(before + [c], after, Significant);
    KeepConcat(before, [c], Significant);
    KeepConcat(before, after, Significant);
    assert [c][1..] == "" && Keep([c], Significant) == "";
    hide Keep;
    assert Keep(before, Significant) + "" == Keep(before, Significant);
  }

  /** `=`, quotes, hyphens and white space can stand anywhere. */
  lemma SeparatorIgnored(before: string, c: char, after: string)
    requires c == '=' || c == '"' || c == '\'' || c == '-' || IsSpace(c)
    ensures NormalizeIsbn(before + [c] + after) == NormalizeIsbn(before + after)
  {
    assert !Significant(c);
    KeepNone(before, c, after);
    hide Isbn10Ok, Isbn13Ok, Upper, Keep, Significant;
  }

  lemma KeepOne(before: string, c: char, after: string)
    requires Significant(c)
    ensures Keep(before + [c] + after, Significant) == Keep(before, Significant) + [c] + Keep(after, Significant)
  {
    hide Significant;
    KeepConcat(before + [c], after, Significant);
    KeepConcat(before, [c], Significant);
  }

  lemma UpperOfSmall(x: string, c: char, y: string)
    requires 'a' <= c <= 'z'
    ensures Upper(x + [c] + y) == Upper(x + [c - 32 as char] + y)
  {
    var d := c - 32 as char;
    assert UpperChar(c) == UpperChar(d);
    var s, t := x + [c] + y, x + [d] + y;
    forall i | 0 <= i < |s|
      ensures UpperChar(s[i]) == UpperChar(t[i])
    {
      hide UpperChar;
      assert i != |x| ==> s[i] == t[i];
    }
  }

  /** A small letter can stand for the capital one. */
  lemma LetterCaseIgnored(before: string, c: char, after: string)
    requires 'a' <= c <= 'z'
    ensures NormalizeIsbn(before + [c] + after) == NormalizeIsbn(before + [c - 32 as char] + after)
  {
    var d := c - 32 as char;
    KeepOne(before, c, after);
    KeepOne(before, d, after);
    hide Isbn10Ok, Isbn13Ok, Upper, Keep;
    UpperOfSmall(Keep(before, Significant), c, Keep(after, Significant));
  }

  lemma WeightedTen(s: string)
    requires |s| == 10
    ensures Weighted(s, Weight10, 10)
         == 10 * Value(s[0]) + 9 * Value(s[1]) + 8 * Value(s[2]) + 7 * Value(s[3]) + 6 * Value(s[4])
            + 5 * Value(s[5]) + 4 * Value(s[6]) + 3 * Value(s[7]) + 2 * Value(s[8]) + Value(s[9])
  {
    hide Value;
    assert Weighted(s, Weight10, 1) == 10 * Value(s[0]);
    assert Weighted(s, Weight10, 2) == 10 * Value(s[0]) + 9 * Value(s[1]);
    assert Weighted(s, Weight10, 4) == Weighted(s, Weight10, 2) + 8 * Value(s[2]) + 7 * Value(s[3]);
    assert Weighted(s, Weight10, 6) == Weighted(s, Weight10, 4) + 6 * Value(s[4]) + 5 * Value(s[5]);
    assert Weighted(s, Weight10, 8) == Weighted(s, Weight10, 6) + 4 * Value(s[6]) + 3 * Value(s[7]);
  }

  /** The sum of a ten-digit number decides, with `X` for ten at the end. */
  lemma TenDigits(s: string)
    requires |s| == 10 && (forall i :: 0 <= i < 9 ==> IsDigit(s[i])) && (IsDigit(s[9]) || s[9] == 'X')
    requires (10 * Value(s[0]) + 9 * Value(s[1]) + 8 * Value(s[2]) + 7 * Value(s[3]) + 6 * Value(s[4])
              + 5 * Value(s[5]) + 4 * Value(s[6]) + 3 * Value(s[7]) + 2 * Value(s[8]) + Value(s[9])) % 11 == 0
    ensures Isbn10Ok(s)
  {
    WeightedTen(s);
    hide Weighted, Value;
  }

  /** ISBN-10s as printed, with a digit and with an `X` at the end. */
  lemma PrintedIsbns()
    ensures Isbn10Ok("0306406152") && Isbn10Ok("080442957X") && Isbn10Ok("0441172717")
  {
    hide Isbn10Ok;
    TenDigits("0306406152");
    TenDigits("080442957X");
    TenDigits("0441172717");
  }

  lemma PrintedConverted()
    ensures Isbn10To13("0306406152") == "9780306406157"
  {
    PrintedThirteen();
    PrintedIsbns();
    hide Isbn10Ok, Isbn13Ok;
    ConversionValid("0306406152");
    ConvertedPrefix("0306406152");
    assert "978" + "0306406152"[..9] == "9780306406157"[..12];
    SameCheckDigit(Isbn10To13("0306406152"), "9780306406157");
  }

  /** The spreadsheet wrapper of a Goodreads export, and a hyphenated one with a small `x`. */
  lemma WrittenForms()
    ensures NormalizeIsbn("=\"0441172717\"") == "0441172717"
    ensures NormalizeIsbn("0-8044-2957-x") == "080442957X"
  {
    hide *;
    SpreadsheetForm();
    HyphenatedForm();
  }

  lemma SpreadsheetForm()
    ensures NormalizeIsbn("=\"0441172717\"") == "0441172717"
  {
    hide *;
    PrintedIsbns();
    ValidWhenTen("0441172717");
    KeptWhenValid("0441172717");
    assert "=\"0441172717\"" == "" + ['='] + "\"0441172717\"" && "" + "\"0441172717\"" == "\"0441172717\"";
    SeparatorIgnored("", '=', "\"0441172717\"");
    assert "\"0441172717\"" == "" + ['"'] + "0441172717\"" && "" + "0441172717\"" == "0441172717\"";
    SeparatorIgnored("", '"', "0441172717\"");
    assert "0441172717\"" == "0441172717" + ['"'] + "" && "0441172717" + "" == "0441172717";
    SeparatorIgnored("0441172717", '"', "");
  }

  lemma HyphenatedForm()
    ensures NormalizeIsbn("0-8044-2957-x") == "080442957X"
  {
    hide *;
    PrintedIsbns();
    ValidWhenTen("080442957X");
    KeptWhenValid("080442957X");
    assert "0-8044-2957-x" == "0" + ['-'] + "8044-2957-x" && "0" + "8044-2957-x" == "08044-2957-x";
    SeparatorIgnored("0", '-', "8044-2957-x");
    assert "08044-2957-x" == "08044" + ['-'] + "2957-x" && "08044" + "2957-x" == "080442957-x";
    SeparatorIgnored("08044", '-', "2957-x");
    assert "080442957-x" == "080442957" + ['-'] + "x" && "080442957" + "x" == "080442957x";
    SeparatorIgnored("080442957", '-', "x");
    assert "080442957x" == "080442957" + ['x'] + "" && "080442957" + ['X'] + "" == "080442957X";
    LetterCaseIgnored("080442957", 'x', "");
  }

  lemma ValidWhenTen(s: string)
    requires Isbn10Ok(s)
    ensures ValidIsbn(s)
  {
    hide Isbn10Ok, Isbn13Ok;
  }

  // ---------- comparable forms ----------

  function VariantsOf(isbn: string): set<string> {
    if isbn == "" then {}
    else if |isbn| == 10 then {isbn, Isbn10To13(isbn)}
    else {isbn}
  }

  method IsbnVariants(isbns: seq<string>) returns (out: set<string>)
    ensures forall v :: v in out <==>
      exists i :: 0 <= i < |isbns| && isbns[i] != "" && (v == isbns[i] || (|isbns[i]| == 10 && v == Isbn10To13(isbns[i])))
    ensures forall v :: v in out <==> exists i :: 0 <= i < |isbns| && v in VariantsOf(isbns[i])
  {
    out := {};
    for n := 0 to |isbns|
      invariant forall v :: v in out <==> exists i :: 0 <= i < n && v in VariantsOf(isbns[i])
    {
      var isbn := isbns[n];
      if isbn == "" {
        continue;
      }
      out := out + {isbn};
      if |isbn| == 10 {
        out := out + {Isbn10To13(isbn)};
      }
    }
  }

  /** The ISBN-13 a valid ISBN stands for. */
  function As13(isbn: string): string {
    if |isbn| == 10 then Isbn10To13(isbn) else isbn
  }

  ghost predicate Overlap(a: string, b: string) {
    exists v :: v in VariantsOf(a) && v in VariantsOf(b)
  }

  /** Two valid ISBNs share a comparable form exactly when they stand for the same ISBN-13. */
  lemma OverlapIff(a: string, b: string)
    requires ValidIsbn(a) && ValidIsbn(b)
    ensures Overlap(a, b) <==> As13(a) == As13(b)
  {
    hide Isbn10Ok, Isbn13Ok;
    Lengths(a);
    Lengths(b);
    assert As13(a) in VariantsOf(a) && As13(b) in VariantsOf(b);
    forall v | v in VariantsOf(a) && v in VariantsOf(b)
      ensures As13(a) == As13(b)
    {
      assert |As13(a)| == |As13(b)| == 13;
    }
  }

  lemma Lengths(s: string)
    requires ValidIsbn(s)
    ensures |s| == 10 || |s| == 13
    ensures |As13(s)| == 13 && (|s| == 10 ==> Isbn10Ok(s))
  {}

  /** Hence overlap is an equivalence on valid ISBNs, and at most one ISBN-10 is in each class. */
  lemma OverlapEquivalence(a: string, b: string, c: string)
    requires ValidIsbn(a) && ValidIsbn(b) && ValidIsbn(c)
    ensures Overlap(a, a)
    ensures Overlap(a, b) ==> Overlap(b, a)
    ensures Overlap(a, b) && Overlap(b, c) ==> Overlap(a, c)
    ensures Overlap(a, b) && |a| == |b| ==> a == b
  {
    hide Isbn10Ok, Isbn13Ok, Overlap, Isbn10To13;
    OverlapIff(a, a);
    OverlapIff(a, b);
    OverlapIff(b, a);
    OverlapIff(b, c);
    OverlapIff(a, c);
    if Overlap(a, b) && |a| == |b| == 10 {
      Lengths(a);
      Lengths(b);
      ConversionInjective(a, b);
    }
  }

  lemma PrintedThirteen()
    ensures Isbn13Ok("9780306406157")
  {
    var s := "9780306406157";
    assert Weighted(s, Weight13, 4) == 9 + 21 + 8 + 0;
    assert Weighted(s, Weight13, 8) == 38 + 3 + 0 + 6 + 12;
    assert Weighted(s, Weight13, 12) == 59 + 0 + 18 + 1 + 15;
    hide Weighted;
    assert Digits(s, 13);
  }

  /** Two adjacent digits, 6 and 1, of a valid ISBN-13 swapped: still valid. */
  lemma Isbn13SwapMissed()
    ensures var s := "9780306406157"; Isbn13Ok(s) && Isbn13Ok(Swapped(s, 9, 10)) && Swapped(s, 9, 10) == "9780306401657"
  {
    var s := "9780306406157";
    PrintedThirteen();
    hide Weighted, Isbn13Ok;
    assert s[9] == '6' && s[10] == '1';
    Isbn13SwapIff(s, 9, 10);
    assert Swapped(s, 9, 10) == "9780306401657";
  }
}
