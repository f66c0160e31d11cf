/** Whitespace normalisation: `text.replace(/\s+/g, " ")` (src/scrape.js:18). */
module Whitespace {

  /** The characters matched by JavaScript's `\s`: the ECMAScript WhiteSpace
      set (tab, vertical tab, form feed, space, no-break space, the byte order
      mark and the Unicode space separators) plus the LineTerminator set. */
  predicate IsSpace(c: char) {
    || c == '\t' || c == '\n' || c == '\U{000B}' || c == '\U{000C}' || c == '\r'
    || c == ' ' || c == '\U{00A0}' || c == '\U{1680}'
    || ('\U{2000}' <= c <= '\U{200A}')
    || c == '\U{2028}' || c == '\U{2029}' || c == '\U{202F}' || c == '\U{205F}'
    || c == '\U{3000}' || c == '\U{FEFF}'
  }

  /** The reference listing of the same characters, one by one: the 25
      code points of the WhiteSpace and LineTerminator productions of
      ECMAScript. `IsSpace` is the form the functions use, and
      `IsSpaceExactly` shows that the two agree. */
  const SpaceChars: set<char> := {
    '\t', '\n', '\U{000B}', '\U{000C}', '\r', ' ', '\U{00A0}', '\U{1680}',
    '\U{2000}', '\U{2001}', '\U{2002}', '\U{2003}', '\U{2004}', '\U{2005}',
    '\U{2006}', '\U{2007}', '\U{2008}', '\U{2009}', '\U{200A}',
    '\U{2028}', '\U{2029}', '\U{202F}', '\U{205F}', '\U{3000}', '\U{FEFF}'
  }

  /** `\s` matches exactly the listed characters and nothing else. */
  lemma IsSpaceExactly(c: char)
    ensures IsSpace(c) <==> c in SpaceChars
  {
    if '\U{2000}' <= c <= '\U{200A}' {
      var k := c as int - 0x2000;
      assert 0 <= k <= 10;
    }
  }

  /** Where the maximal run of whitespace starting at position `j` of `s`
      ends: what a greedy `\s+` (or `\s*`) consumes there. */
  function RunEnd(s: string, j: nat): (e: nat)
    requires j <= |s|
    ensures j <= e <= |s|
    ensures forall i :: j <= i < e ==> IsSpace(s[i])
    ensures e < |s| ==> !IsSpace(s[e])
    decreases |s| - j
  {
    if j < |s| && IsSpace(s[j]) then RunEnd(s, j + 1) else j
  }

  /** Every maximal run of whitespace replaced by one ' ', scanning left to
      right as a global replace does. Neither end is trimmed: a leading or
      trailing run becomes one space like any other. */
  function Collapse(s: string): (r: string)
    ensures |r| <= |s|
    ensures s != [] ==> r != [] && r[0] == (if IsSpace(s[0]) then ' ' else s[0])
    ensures s != [] ==> r[|r| - 1] == (if IsSpace(s[|s| - 1]) then ' ' else s[|s| - 1])
    decreases |s|
  {
    if s == [] then []
    else if IsSpace(s[0]) then
      var rest := s[RunEnd(s, 0)..];
      assert rest != [] ==> rest[|rest| - 1] == s[|s| - 1];
      [' '] + Collapse(rest)
    else
      [s[0]] + Collapse(s[1..])
  }

  /** Already normalised: the only whitespace is ' ', and never two in a row. */
  ghost predicate IsNormal(s: string) {
    forall i :: 0 <= i < |s| && IsSpace(s[i]) ==>
      s[i] == ' ' && (i + 1 == |s| || !IsSpace(s[i + 1]))
  }

  /** The non-whitespace characters of `s`, in order. */
  function Visible(s: string): (r: string)
    ensures forall i :: 0 <= i < |r| ==> !IsSpace(r[i])
  {
    if s == [] then []
    else if IsSpace(s[0]) then Visible(s[1..])
    else [s[0]] + Visible(s[1..])
  }

  /** Putting one character in front of normalised text keeps it normalised,
      unless it would start or extend a run of whitespace. */
  lemma {:induction false} ConsNormal(c: char, x: string)
    requires IsNormal(x)
    requires !IsSpace(c) || (c == ' ' && (x == [] || !IsSpace(x[0])))
    ensures IsNormal([c] + x)
  {
    var r := [c] + x;
    forall i | 0 <= i < |r| && IsSpace(r[i])
      ensures r[i] == ' ' && (i + 1 == |r| || !IsSpace(r[i + 1]))
    {
      if i > 0 {
        assert r[i] == x[i - 1];
        if i + 1 < |r| { assert r[i + 1] == x[i]; }
      }
    }
  }

  /** The output never holds two adjacent whitespace characters, and every
      whitespace character in it is ' '. */
  lemma {:induction false} CollapseIsNormal(s: string)
    ensures IsNormal(Collapse(s))
    decreases |s|
  {
    if s == [] {
    } else if IsSpace(s[0]) {
      var rest := s[RunEnd(s, 0)..];
      CollapseIsNormal(rest);
      ConsNormal(' ', Collapse(rest));
    } else {
      CollapseIsNormal(s[1..]);
      ConsNormal(s[0], Collapse(s[1..]));
    }
  }

  /** Normalised text is left unchanged, and only normalised text is. */
  lemma {:induction false} CollapseFixesExactlyNormal(s: string)
    ensures Collapse(s) == s <==> IsNormal(s)
    decreases |s|
  {
    CollapseIsNormal(s);
    if IsNormal(s) && s != [] {
      var rest := s[1..];
      assert IsNormal(rest) by {
        forall i | 0 <= i < |rest| && IsSpace(rest[i])
          ensures rest[i] == ' ' && (i + 1 == |rest| || !IsSpace(rest[i + 1]))
        {
          assert rest[i] == s[i + 1];
        }
      }
      CollapseFixesExactlyNormal(rest);
      if IsSpace(s[0]) {
        assert s[0] == ' ';
        assert RunEnd(s, 0) == 1 by {
          assert RunEnd(s, 0) == RunEnd(s, 1);
        }
      }
    }
  }

  /** Normalising twice is the same as normalising once. */
  lemma {:induction false} CollapseIdempotent(s: string)
    ensures Collapse(Collapse(s)) == Collapse(s)
  {
    CollapseIsNormal(s);
    CollapseFixesExactlyNormal(Collapse(s));
  }

  /** Dropping a run of whitespace does not change the visible text. */
  lemma {:induction false} VisibleSkipsRun(s: string, j: nat)
    requires j <= |s|
    ensures Visible(s[RunEnd(s, j)..]) == Visible(s[j..])
    decreases |s| - j
  {
    if j < |s| && IsSpace(s[j]) {
      VisibleSkipsRun(s, j + 1);
      assert s[j..][1..] == s[j + 1..];
    }
  }

  /** Non-whitespace characters are kept, in order, and none is added. */
  lemma {:induction false} CollapseKeepsVisible(s: string)
    ensures Visible(Collapse(s)) == Visible(s)
    decreases |s|
  {
    if s == [] {
    } else if IsSpace(s[0]) {
      var rest := s[RunEnd(s, 0)..];
      CollapseKeepsVisible(rest);
      VisibleSkipsRun(s, 0);
      assert Collapse(s) == [' '] + Collapse(rest);
      assert ([' '] + Collapse(rest))[1..] == Collapse(rest);
    } else {
      CollapseKeepsVisible(s[1..]);
      assert Collapse(s) == [s[0]] + Collapse(s[1..]);
      assert ([s[0]] + Collapse(s[1..]))[1..] == Collapse(s[1..]);
    }
  }

  /** A maximal whitespace run `w` (non-empty, not preceded or followed by
      whitespace) becomes exactly one ' ', whatever its length and
      characters, wherever it stands in the text; the text on either side is
      normalised on its own. */
  lemma {:induction false} CollapseRun(x: string, w: string, rest: string)
    requires x == [] || !IsSpace(x[|x| - 1])
    requires w != [] && forall i :: 0 <= i < |w| ==> IsSpace(w[i])
    requires rest == [] || !IsSpace(rest[0])
    ensures Collapse(x + w + rest) == Collapse(x) + [' '] + Collapse(rest)
  {
    assert x + w + rest == x + (w + rest);
    CollapseSplit(x, w + rest);
    LeadingRun(w, rest);
    AppendAssoc(Collapse(x), [' '], Collapse(rest));
  }

  /** A run at the very start of the text becomes one ' '. */
  lemma {:induction false} LeadingRun(w: string, rest: string)
    requires w != [] && forall i :: 0 <= i < |w| ==> IsSpace(w[i])
    requires rest == [] || !IsSpace(rest[0])
    ensures Collapse(w + rest) == [' '] + Collapse(rest)
  {
    RunLength(w, rest, 0);
    assert (w + rest)[|w|..] == rest;
  }

  /** Normalising works piece by piece across a cut that does not fall
      inside a run of whitespace. */
  lemma {:induction false} CollapseSplit(x: string, y: string)
    requires x == [] || !IsSpace(x[|x| - 1])
    ensures Collapse(x + y) == Collapse(x) + Collapse(y)
    decreases |x|, 1
  {
    if x == [] {
      assert x + y == y;
    } else if IsSpace(x[0]) {
      SplitAfterRun(x, y);
    } else {
      SplitAfterChar(x, y);
    }
  }

  /** The cut, when `x` starts with a run of whitespace. */
  lemma {:induction false} SplitAfterRun(x: string, y: string)
    requires x != [] && IsSpace(x[0]) && !IsSpace(x[|x| - 1])
    ensures Collapse(x + y) == Collapse(x) + Collapse(y)
    decreases |x|, 0
  {
    var n := RunEnd(x, 0);
    RunPrefix(x, y, 0);
    assert (x + y)[n..] == x[n..] + y;
    CollapseSplit(x[n..], y);
    AppendAssoc([' '], Collapse(x[n..]), Collapse(y));
  }

  /** The cut, when `x` starts with a character other than whitespace. */
  lemma {:induction false} SplitAfterChar(x: string, y: string)
    requires x != [] && !IsSpace(x[0]) && !IsSpace(x[|x| - 1])
    ensures Collapse(x + y) == Collapse(x) + Collapse(y)
    decreases |x|, 0
  {
    assert (x + y)[1..] == x[1..] + y;
    CollapseSplit(x[1..], y);
    AppendAssoc([x[0]], Collapse(x[1..]), Collapse(y));
  }

  lemma AppendAssoc(a: string, b: string, c: string)
    ensures a + (b + c) == a + b + c
  {
  }

  /** A run inside `x` ends inside `x` when `x` ends in something other
      than whitespace, whatever follows. */
  lemma {:induction false} RunPrefix(x: string, y: string, j: nat)
    requires j < |x| && !IsSpace(x[|x| - 1])
    ensures RunEnd(x + y, j) == RunEnd(x, j)
    decreases |x| - j
  {
    assert (x + y)[j] == x[j];
    if IsSpace(x[j]) {
      RunPrefix(x, y, j + 1);
    }
  }

  lemma {:induction false} RunLength(w: string, rest: string, j: nat)
    requires j <= |w|
    requires forall i :: 0 <= i < |w| ==> IsSpace(w[i])
    requires rest == [] || !IsSpace(rest[0])
    ensures RunEnd(w + rest, j) == |w|
    decreases |w| - j
  {
    if j < |w| {
      assert (w + rest)[j] == w[j];
      RunLength(w, rest, j + 1);
    } else if rest != [] {
      assert (w + rest)[j] == rest[0];
    }
  }
}
