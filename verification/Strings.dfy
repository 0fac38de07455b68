/** Dotted names as strings: labels, suffixes at label boundaries, and the string operations used on them. */
module Strings {
  import opened Dns

  predicate EndsWith(s: string, t: string) {
    |s| >= |t| && s[|s|-|t|..] == t
  }

  /** `y` lies strictly below `x`. */
  predicate Below(y: string, x: string) {
    EndsWith(y, "." + x)
  }

  predicate LabelSuffix(y: string, x: string) {
    y == x || Below(y, x)
  }

  lemma BelowParts(y: string, x: string)
    ensures Below(y, x) <==> |y| > |x| && y[|y|-|x|..] == x && y[|y|-|x|-1] == '.'
  {
    if Below(y, x) {
      var t := y[|y|-|x|-1..];
      assert t == "." + x && t[0] == '.' && t[1..] == x;
      assert y[|y|-|x|..] == t[1..];
    }
    if |y| > |x| && y[|y|-|x|..] == x && y[|y|-|x|-1] == '.' {
      assert y[|y|-|x|-1..] == [y[|y|-|x|-1]] + y[|y|-|x|..];
    }
  }

  lemma BelowPrefix(y: string, x: string)
    requires Below(y, x)
    ensures y == y[..|y|-|x|-1] + "." + x
  {
    BelowParts(y, x);
  }

  lemma BelowTransitive(z: string, y: string, x: string)
    requires LabelSuffix(z, y) && LabelSuffix(y, x)
    ensures LabelSuffix(z, x)
    ensures z != y || y != x ==> Below(z, x)
  {
    if z != y && y != x {
      BelowParts(z, y);
      BelowParts(y, x);
      BelowParts(z, x);
      assert z[|z|-|x|..] == z[|z|-|y|..][|y|-|x|..];
      assert z[|z|-|x|-1] == z[|z|-|y|..][|y|-|x|-1];
    }
  }

  /** Suffixes of one name are nested. */
  lemma SuffixesNest(z: string, x: string, y: string)
    requires LabelSuffix(z, x) && LabelSuffix(z, y) && |x| <= |y|
    ensures LabelSuffix(y, x)
  {
    if x != y && z != y {
      BelowParts(z, x);
      BelowParts(z, y);
      BelowParts(y, x);
      assert z[|z|-|x|..] == z[|z|-|y|..][|y|-|x|..];
      if |x| < |y| {
        assert z[|z|-|x|-1] == z[|z|-|y|..][|y|-|x|-1];
      }
    }
  }

  // ---------------------------------------------------------------------------------------------------------------
  // Splitting and joining
  // ---------------------------------------------------------------------------------------------------------------

  function FirstDot(s: string): (i: nat)
    ensures i <= |s| && (forall j :: 0 <= j < i ==> s[j] != '.') && (i < |s| ==> s[i] == '.')
  {
    if s == [] || s[0] == '.' then 0 else 1 + FirstDot(s[1..])
  }

  /** s.split("."): at least one, possibly empty, component. */
  function Split(s: string): (r: seq<string>)
    ensures r != []
    decreases |s|
  {
    var i := FirstDot(s);
    if i == |s| then [s] else [s[..i]] + Split(s[i+1..])
  }

  /** ".".join(components) */
  function Join(components: seq<string>): string {
    if components == [] then ""
    else if |components| == 1 then components[0]
    else components[0] + "." + Join(components[1..])
  }

  /** The name itself, then what remains after dropping one leading label after the other. */
  function AncestorsOrSelf(s: string): (r: seq<string>)
    ensures r != [] && r[0] == s
    decreases |s|
  {
    var i := FirstDot(s);
    [s] + if i == |s| then [] else AncestorsOrSelf(s[i+1..])
  }

  lemma SplitTail(s: string, n: nat)
    requires FirstDot(s) < |s| && 0 < n < |Split(s)|
    ensures n - 1 < |Split(s[FirstDot(s)+1..])| && Split(s)[n..] == Split(s[FirstDot(s)+1..])[n-1..]
  {
  }

  lemma {:induction false} JoinedTails(s: string, n: nat)
    ensures |Split(s)| == |AncestorsOrSelf(s)|
    ensures n < |Split(s)| ==> Join(Split(s)[n..]) == AncestorsOrSelf(s)[n]
    decreases |s|
  {
    hide FirstDot;
    var i := FirstDot(s);
    if i == |s| {
      assert n == 0 ==> Split(s)[n..] == [s];
    } else {
      var rest := s[i+1..];
      JoinedTails(rest, if n == 0 then 0 else n - 1);
      if n == 0 {
        assert Split(s)[0..] == Split(s) && Split(rest)[0..] == Split(rest) && Split(s)[1..] == Split(rest);
        assert s == s[..i] + "." + rest;
      } else if n < |Split(s)| {
        SplitTail(s, n);
      }
    }
  }

  lemma SliceOfSlice(s: string, m: nat, n: nat)
    requires m <= n <= |s|
    ensures s[m..][n - m..] == s[n..]
  {
  }

  /** A name lies below what follows a dot in it. */
  lemma BelowRest(s: string, i: nat)
    requires i < |s| && s[i] == '.'
    ensures Below(s, s[i+1..])
  {
    hide Below;
    BelowParts(s, s[i+1..]);
  }

  /** What a name lies below is what follows a dot in it, or lies above that, if the dot comes early enough. */
  lemma RestBelow(s: string, x: string, i: nat)
    requires Below(s, x) && i < |s| - |x|
    ensures LabelSuffix(s[i+1..], x)
  {
    hide Below;
    BelowParts(s, x);
    var rest, n := s[i+1..], |s| - |x|;
    SliceOfSlice(s, i + 1, n);
    BelowParts(rest, x);
    if n > i + 1 {
      assert rest[|rest|-|x|-1] == s[n-1];
    }
  }

  lemma DotAbove(s: string, x: string)
    requires Below(s, x)
    ensures FirstDot(s) < |s| - |x|
  {
    BelowParts(s, x);
  }

  /** What a name ends in is the name itself or what its parent ends in. */
  lemma ParentSuffix(s: string, x: string)
    ensures LabelSuffix(s, x) <==> x == s || (FirstDot(s) < |s| && LabelSuffix(s[FirstDot(s)+1..], x))
  {
    hide FirstDot, Below;
    var i := FirstDot(s);
    if Below(s, x) {
      DotAbove(s, x);
      RestBelow(s, x, i);
    }
    if i < |s| && LabelSuffix(s[i+1..], x) {
      BelowRest(s, i);
      BelowTransitive(s, s[i+1..], x);
    }
  }

  lemma SplitStep(s: string, i: nat)
    requires i == FirstDot(s)
    ensures i == |s| ==> Split(s) == [s]
    ensures i < |s| ==> Split(s) == [s[..i]] + Split(s[i+1..])
  {
    hide FirstDot;
  }

  lemma AncestorStep(s: string, i: nat)
    requires i == FirstDot(s)
    ensures AncestorsOrSelf(s) == [s] + if i == |s| then [] else AncestorsOrSelf(s[i+1..])
  {
    hide FirstDot;
  }

  lemma {:induction false} AncestorIffSuffix(s: string, x: string)
    ensures x in AncestorsOrSelf(s) <==> LabelSuffix(s, x)
    decreases |s|
  {
    hide FirstDot, LabelSuffix, AncestorsOrSelf;
    ParentSuffix(s, x);
    AncestorStep(s, FirstDot(s));
    if FirstDot(s) < |s| {
      AncestorIffSuffix(s[FirstDot(s)+1..], x);
    }
  }

  function CountDots(s: string): nat {
    if s == [] then 0 else (if s[0] == '.' then 1 else 0) + CountDots(s[1..])
  }

  lemma {:induction false} CountDotsAppend(s: string, t: string)
    ensures CountDots(s + t) == CountDots(s) + CountDots(t)
  {
    if s == [] {
      assert s + t == t;
    } else {
      assert (s + t)[1..] == s[1..] + t;
      CountDotsAppend(s[1..], t);
    }
  }

  // ---------------------------------------------------------------------------------------------------------------
  // Searching from the right, and stripping
  // ---------------------------------------------------------------------------------------------------------------

  /** The last position before `limit` at which `t` occurs in `s`. */
  function LastIndex(s: string, t: string, limit: nat): (r: Option<nat>)
    requires limit + |t| <= |s| + 1
    ensures r.Some? ==> r.value < limit && s[r.value..r.value+|t|] == t
  {
    if limit == 0 then None
    else if s[limit-1..limit-1+|t|] == t then Some(limit-1)
    else LastIndex(s, t, limit-1)
  }

  /** s.rpartition(t)[0], and s.rsplit(t, 1)[0] when `t` occurs: what precedes the last occurrence. */
  function BeforeLast(s: string, t: string): Option<string> {
    if |t| > |s| then None
    else match LastIndex(s, t, |s| - |t| + 1)
      case None => None
      case Some(i) => Some(s[..i])
  }

  function RStripDots(s: string): string {
    if s != [] && s[|s|-1] == '.' then RStripDots(s[..|s|-1]) else s
  }

  /** What is stripped off is dots, and none is left at the end. */
  lemma {:induction false} RStripDotsIs(s: string) returns (dots: string)
    ensures s == RStripDots(s) + dots && forall c :: c in dots ==> c == '.'
    ensures RStripDots(s) != "" ==> RStripDots(s)[|RStripDots(s)|-1] != '.'
  {
    dots := "";
    if s != "" && s[|s|-1] == '.' {
      dots := RStripDotsIs(s[..|s|-1]);
      dots := dots + ".";
    }
  }

  lemma BeforeLastOfSuffix(p: string, t: string)
    ensures BeforeLast(p + t, t) == Some(p)
  {
    assert (p + t)[|p|..|p|+|t|] == t;
    assert (p + t)[..|p|] == p;
  }

  // ---------------------------------------------------------------------------------------------------------------
  // White space
  // ---------------------------------------------------------------------------------------------------------------

  predicate IsSpace(c: char) {
    || '\t' <= c <= '\r' || '\U{1C}' <= c <= ' ' || c == '\U{85}' || c == '\U{A0}' || c == '\U{1680}'
    || '\U{2000}' <= c <= '\U{200A}' || c == '\U{2028}' || c == '\U{2029}' || c == '\U{202F}' || c == '\U{205F}'
    || c == '\U{3000}'
  }

  function LTrimmed(s: string): (r: string)
    ensures |r| <= |s| && (r == s <==> s == "" || !IsSpace(s[0]))
  {
    if s != "" && IsSpace(s[0]) then LTrimmed(s[1..]) else s
  }

  function RTrimmed(s: string): (r: string)
    ensures |r| <= |s| && (r == s <==> s == "" || !IsSpace(s[|s|-1]))
  {
    if s != "" && IsSpace(s[|s|-1]) then RTrimmed(s[..|s|-1]) else s
  }

  /** s.strip() */
  function Trimmed(s: string): (r: string)
    ensures r == s <==> IsTidy(s)
  {
    RTrimmed(LTrimmed(s))
  }

  /** What is trimmed off is white space on both sides, and none is left there. */
  lemma TrimmedIs(s: string)
    ensures IsTidy(Trimmed(s))
    ensures exists before, after :: s == before + Trimmed(s) + after && forall c :: c in before + after ==> IsSpace(c)
  {
    var before := LeadingSpace(s);
    var after := TrailingSpace(LTrimmed(s));
    assert s == before + Trimmed(s) + after && forall c :: c in before + after ==> IsSpace(c);
  }

  lemma {:induction false} LeadingSpace(s: string) returns (before: string)
    ensures s == before + LTrimmed(s) && forall c :: c in before ==> IsSpace(c)
    ensures LTrimmed(s) != "" ==> !IsSpace(LTrimmed(s)[0])
  {
    before := "";
    if s != "" && IsSpace(s[0]) {
      before := LeadingSpace(s[1..]);
      before := [s[0]] + before;
    }
  }

  lemma {:induction false} TrailingSpace(s: string) returns (after: string)
    ensures s == RTrimmed(s) + after && forall c :: c in after ==> IsSpace(c)
    ensures RTrimmed(s) != "" ==> !IsSpace(RTrimmed(s)[|RTrimmed(s)|-1]) && RTrimmed(s)[0] == s[0]
  {
    after := "";
    if s != "" && IsSpace(s[|s|-1]) {
      after := TrailingSpace(s[..|s|-1]);
      after := after + [s[|s|-1]];
    }
  }

  /** No white space at either end. */
  predicate IsTidy(s: string) {
    s == "" || (!IsSpace(s[0]) && !IsSpace(s[|s|-1]))
  }
}
