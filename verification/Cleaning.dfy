/**
 What sanitising does to the text between the visible characters. Together, the three laws of
 `Cleaned` determine it for every string: one word, text around a gap, and outer gaps.
 */
module Cleaning {
  import opened Text
  import opened Naming

  predicate AllVisible(s: string) {
    forall i :: 0 <= i < |s| ==> IsVisible(s[i])
  }

  /** Unsafe characters and white space only. */
  predicate IsGap(s: string) {
    forall i :: 0 <= i < |s| ==> !IsVisible(s[i])
  }

  lemma WordCleaned(word: string)
    requires AllVisible(word)
    ensures Cleaned(word) == word
  {
    hide IsSpace, IsUnsafe;
    TidyIsClean(word);
  }

  lemma {:induction false} CollapseAfter(u: string, v: string)
    requires u != "" && !IsSpace(u[|u| - 1])
    ensures Collapse(u + v) == Collapse(u) + Collapse(v)
  {
    hide IsSpace;
    assert (u + v)[1..] == u[1..] + v;
    if |u| == 1 {
      assert u[1..] + v == v && u[1..] == "";
      assert Collapse("") == "";
    } else {
      assert (u + v)[1] == u[1] && u[1..][|u| - 2] == u[|u| - 1];
      CollapseAfter(u[1..], v);
    }
  }

  lemma {:induction false} CollapseSpaces(spaces: string, v: string)
    requires spaces != "" && forall i :: 0 <= i < |spaces| ==> IsSpace(spaces[i])
    requires v == "" || !IsSpace(v[0])
    ensures Collapse(spaces + v) == " " + Collapse(v)
  {
    hide IsSpace;
    var s := spaces + v;
    assert s[1..] == spaces[1..] + v;
    if |spaces| == 1 {
      assert s[1..] == v;
    } else {
      assert s[1] == spaces[1] && forall i :: 0 <= i < |spaces| - 1 ==> spaces[1..][i] == spaces[i + 1];
      CollapseSpaces(spaces[1..], v);
    }
  }

  lemma {:induction false} CollapseEnds(s: string)
    requires s != ""
    ensures Collapse(s) != ""
    ensures !IsSpace(s[0]) ==> Collapse(s)[0] == s[0]
    ensures !IsSpace(s[|s| - 1]) ==> Collapse(s)[|Collapse(s)| - 1] == s[|s| - 1]
  {
    hide IsSpace;
    if |s| > 1 {
      CollapseEnds(s[1..]);
    } else {
      assert Collapse(s[1..]) == "";
    }
  }

  /** Text that is not all white space is stripped to the part between its outer spaces. */
  lemma StripIs(s: string, lo: nat, hi: nat)
    requires lo < hi <= |s| && !IsSpace(s[lo]) && !IsSpace(s[hi - 1])
    requires forall i :: 0 <= i < lo || hi <= i < |s| ==> IsSpace(s[i])
    ensures Strip(s) == s[lo..hi]
  {
    hide IsSpace, LStrip, RStrip;
    LStripIs(s, lo);
    TailSpaces(s, lo, hi);
    RStripIs(s[lo..], hi - lo);
    assert s[lo..][..hi - lo] == s[lo..hi];
  }

  lemma TailSpaces(s: string, lo: nat, hi: nat)
    requires lo < hi <= |s| && !IsSpace(s[hi - 1]) && forall i :: hi <= i < |s| ==> IsSpace(s[i])
    ensures !IsSpace(s[lo..][hi - lo - 1]) && forall i :: hi - lo <= i < |s| - lo ==> IsSpace(s[lo..][i])
  {
    hide IsSpace;
    assert forall i :: 0 <= i < |s| - lo ==> s[lo..][i] == s[lo + i];
  }

  lemma LStripIs(s: string, lo: nat)
    requires lo < |s| && !IsSpace(s[lo]) && forall i :: 0 <= i < lo ==> IsSpace(s[i])
    ensures LStrip(s) == s[lo..]
  {
    hide IsSpace, LStrip;
    var l := LStrip(s);
    assert |s| - |l| <= lo;
    assert l[0] == s[|s| - |l|];
  }

  lemma RStripIs(s: string, hi: nat)
    requires 0 < hi <= |s| && !IsSpace(s[hi - 1]) && forall i :: hi <= i < |s| ==> IsSpace(s[i])
    ensures RStrip(s) == s[..hi]
  {
    hide IsSpace, RStrip;
    var r := RStrip(s);
    assert |r| >= hi;
    assert r[|r| - 1] == s[|r| - 1];
  }

  /** Between two parts that meet visibly, only their outer ends are stripped. */
  lemma StripParts(u: string, m: string, v: string)
    requires u != "" && !IsSpace(u[|u| - 1]) && v != "" && !IsSpace(v[0])
    ensures Strip(u + m + v) == Strip(u) + m + Strip(v)
  {
    hide IsSpace, Strip;
    var lo := FirstText(u, |u| - 1);
    var last := LastText(v, 0);
    var s, n := u + m + v, |u| + |m|;
    assert forall i :: 0 <= i < |u| ==> s[i] == u[i];
    assert forall i :: n <= i < |s| ==> s[i] == v[i - n];
    StripIs(u, lo, |u|);
    StripIs(v, 0, last + 1);
    StripIs(s, lo, n + last + 1);
    Infix(u, m, v, lo, last + 1);
  }

  lemma Infix(u: string, m: string, v: string, lo: nat, hi: nat)
    requires lo <= |u| && hi <= |v|
    ensures (u + m + v)[lo..|u| + |m| + hi] == u[lo..|u|] + m + v[0..hi]
  {
  }

  lemma FirstText(s: string, at: nat) returns (lo: nat)
    requires at < |s| && !IsSpace(s[at])
    ensures lo <= at && !IsSpace(s[lo]) && forall i :: 0 <= i < lo ==> IsSpace(s[i])
  {
    lo := 0;
    while IsSpace(s[lo])
      invariant lo <= at && forall i :: 0 <= i < lo ==> IsSpace(s[i])
      decreases at - lo
    {
      lo := lo + 1;
    }
  }

  lemma LastText(s: string, at: nat) returns (last: nat)
    requires at < |s| && !IsSpace(s[at])
    ensures at <= last < |s| && !IsSpace(s[last]) && forall i :: last < i < |s| ==> IsSpace(s[i])
  {
    last := |s| - 1;
    while IsSpace(s[last])
      invariant at <= last < |s| && forall i :: last < i < |s| ==> IsSpace(s[i])
      decreases last
    {
      last := last - 1;
    }
  }

  /** What keeping the safe characters leaves of a gap and of text with a visible end. */
  lemma {:induction false} KeepGap(s: string)
    requires IsGap(s)
    ensures forall i :: 0 <= i < |Keep(s, IsSafe)| ==> IsSpace(Keep(s, IsSafe)[i])
  {
    hide IsSpace, IsUnsafe;
    if s != "" {
      KeepGap(s[1..]);
    }
  }

  lemma KeepEnds(s: string)
    requires s != ""
    ensures IsVisible(s[0]) ==> Keep(s, IsSafe) != "" && Keep(s, IsSafe)[0] == s[0]
    ensures var k := Keep(s, IsSafe); IsVisible(s[|s| - 1]) ==> k != "" && k[|k| - 1] == s[|s| - 1]
  {
    hide IsSpace, IsUnsafe;
    var n := |s| - 1;
    assert s == s[..n] + [s[n]];
    KeepConcat(s[..n], [s[n]], IsSafe);
  }

  /** A gap with a safe space in it becomes one space; a gap of unsafe characters vanishes. */
  lemma GapCleaned(x: string, gap: string, y: string)
    requires x != "" && IsVisible(x[|x| - 1]) && y != "" && IsVisible(y[0]) && IsGap(gap)
    ensures Cleaned(x + gap + y)
         == Cleaned(x) + (if exists i :: 0 <= i < |gap| && IsSafe(gap[i]) then " " else "") + Cleaned(y)
  {
    hide IsSpace, IsUnsafe, Collapse, Keep, Strip;
    var kx, kg, ky := Keep(x, IsSafe), Keep(gap, IsSafe), Keep(y, IsSafe);
    KeepConcat(x + gap, y, IsSafe);
    KeepConcat(x, gap, IsSafe);
    KeepEnds(x);
    KeepEnds(y);
    KeepGap(gap);
    GapKept(gap);
    CollapseEnds(kx);
    CollapseEnds(ky);
    var m := if kg == "" then "" else " ";
    assert Collapse(kx + kg + ky) == Collapse(kx) + m + Collapse(ky) by {
      assert kx + kg + ky == kx + (kg + ky);
      CollapseAfter(kx, kg + ky);
      if kg == "" {
        assert kg + ky == ky;
      } else {
        CollapseSpaces(kg, ky);
        assert Collapse(kx) + (" " + Collapse(ky)) == Collapse(kx) + " " + Collapse(ky);
      }
    }
    StripParts(Collapse(kx), m, Collapse(ky));
  }

  lemma GapKept(gap: string)
    ensures Keep(gap, IsSafe) != "" <==> exists i :: 0 <= i < |gap| && IsSafe(gap[i])
  {
    hide IsUnsafe;
    var k := Keep(gap, IsSafe);
    if k != "" {
      KeepMember(gap, IsSafe, k[0]);
    }
    if i :| 0 <= i < |gap| && IsSafe(gap[i]) {
      KeepMember(gap, IsSafe, gap[i]);
    }
  }

  /** Outer gaps vanish. */
  lemma OuterCleaned(before: string, x: string, after: string)
    requires x != "" && IsVisible(x[0]) && IsVisible(x[|x| - 1]) && IsGap(before) && IsGap(after)
    ensures Cleaned(before + x + after) == Cleaned(x)
  {
    hide IsSpace, IsUnsafe, Collapse, Keep, Strip;
    var kb, kx, ka := Keep(before, IsSafe), Keep(x, IsSafe), Keep(after, IsSafe);
    KeepConcat(before + x, after, IsSafe);
    KeepConcat(before, x, IsSafe);
    KeepEnds(x);
    KeepGap(before);
    KeepGap(after);
    CollapseEnds(kx);
    var c, b, a := Collapse(kx), if kb == "" then "" else " ", if ka == "" then "" else " ";
    assert Collapse(kb + kx + ka) == b + c + a by {
      CollapseAfter(kx, ka);
      CollapsedGap(ka);
      assert kb + kx + ka == kb + (kx + ka);
      if kb == "" {
        assert kb + (kx + ka) == kx + ka;
      } else {
        CollapseSpaces(kb, kx + ka);
      }
    }
    OneSpace();
    StripOuter(b, c, a);
  }

  lemma CollapsedGap(spaces: string)
    requires forall i :: 0 <= i < |spaces| ==> IsSpace(spaces[i])
    ensures Collapse(spaces) == if spaces == "" then "" else " "
  {
    hide IsSpace;
    if spaces != "" {
      CollapseSpaces(spaces, "");
      assert spaces + "" == spaces;
      assert Collapse("") == "";
    }
  }

  predicate AllSpace(s: string) {
    forall i :: 0 <= i < |s| ==> IsSpace(s[i])
  }

  lemma StripOuter(b: string, c: string, a: string)
    requires AllSpace(b) && AllSpace(a) && c != "" && !IsSpace(c[0]) && !IsSpace(c[|c| - 1])
    ensures Strip(b + c + a) == Strip(c)
  {
    hide IsSpace, Strip;
    StripWhole(c);
    var s, lo, hi := b + c + a, |b|, |b| + |c|;
    assert s[lo] == c[0] && s[hi - 1] == c[|c| - 1] && s[lo..hi] == c;
    forall i | 0 <= i < lo || hi <= i < |s|
      ensures IsSpace(s[i])
    {
      assert s[i] == if i < lo then b[i] else a[i - hi];
    }
    StripIs(s, lo, hi);
  }

  lemma StripWhole(c: string)
    requires c != "" && !IsSpace(c[0]) && !IsSpace(c[|c| - 1])
    ensures Strip(c) == c
  {
    hide IsSpace, Strip;
    StripIs(c, 0, |c|);
    assert c[0..|c|] == c;
  }

  lemma OneSpace()
    ensures AllSpace("") && AllSpace(" ")
  {
  }
}
