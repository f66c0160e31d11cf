/** The indicator locator `parseMedian` (src/scrape.js:17-25): normalise the
    whitespace, then take the first match of

      In\s+<year>[\s\S]*?median\s+monthly\s+regular\s+earnings\s+was\s+NT\$([\d,]+)

    case-insensitively, and read the captured amount as an integer.

    The search below is deterministic, and it matches what a backtracking
    matcher does with this pattern. Every `\s+` is followed by a literal
    whose first character is not whitespace, so only the maximal run of
    whitespace can be followed by a match. The lazy gap `[\s\S]*?` is tried
    shortest first, so the phrase taken is the first one (with at least one
    amount character after it) at or after the year. The group is greedy and
    ends the pattern, so it takes the maximal run of `[\d,]`. Start positions
    are tried from the left. */
module Locator {
  import opened Wrappers
  import opened Whitespace
  import opened Numerals

  /** ASCII case folding. With the `i` flag and no `u` flag, a non-ASCII
      character never matches an ASCII letter, so folding A-Z is all that
      matters for this all-ASCII pattern. */
  function Lower(c: char): (l: char)
    ensures ('A' <= c <= 'Z') ==> 'a' <= l <= 'z'
    ensures ('A' <= c <= 'Z') ==> l as int == c as int - 'A' as int + 'a' as int
    ensures !('A' <= c <= 'Z') ==> l == c
  {
    if 'A' <= c <= 'Z' then (c as int - 'A' as int + 'a' as int) as char else c
  }

  /** The literal `lit` occurs at position `k` of `t`, ignoring case. */
  predicate LitAt(t: string, k: nat, lit: string) {
    k + |lit| <= |t| && Fold(t[k..k + |lit|]) == Fold(lit)
  }

  /** The string with every ASCII capital replaced by its small letter. */
  function Fold(s: string): (r: string)
    ensures |r| == |s| && forall i :: 0 <= i < |s| ==> r[i] == Lower(s[i])
  {
    seq(|s|, i requires 0 <= i < |s| => Lower(s[i]))
  }

  /** `${year}`: the decimal rendering of the year, signed when negative. */
  function YearToken(year: int): (s: string)
    ensures s != [] && !IsSpace(s[0])
    ensures year >= 0 ==> AllDigits(s) && DecimalValue(s) == year && (s[0] == '0' ==> year == 0)
    ensures year < 0 ==> s[0] == '-' && AllDigits(s[1..]) && DecimalValue(s[1..]) == -year
  {
    if year < 0 then
      DecimalRoundTrip(-year);
      assert (['-'] + NatToString(-year))[1..] == NatToString(-year);
      ['-'] + NatToString(-year)
    else
      DecimalRoundTrip(year);
      NatToString(year)
  }

  /** Different years give different year texts, so the run year and the
      year before are searched for with different patterns. */
  lemma {:induction false} YearTokenInjective(a: int, b: int)
    requires a != b
    ensures YearToken(a) != YearToken(b)
  {
  }

  /** The words of the fixed phrase `median\s+monthly\s+...\s+NT\$`. The
      search functions below take the words as a parameter; `ParseMedian`
      supplies these. */
  const Phrase: seq<string> := ["median", "monthly", "regular", "earnings", "was", "NT$"]

  /** Where `w0\s+w1\s+...\s+wn` ends when matched at position `k`, or None.
      A match starts with the first word (up to case), which is followed by
      at least one whitespace character and, after the run, by the next
      word. */
  function WordsEnd(t: string, k: nat, words: seq<string>): (r: Option<nat>)
    requires words != []
    ensures r.Some? ==> k + |words[0]| <= r.value <= |t| && LitAt(t, k, words[0])
    ensures r.Some? && |words| > 1 ==>
      k + |words[0]| < |t| && IsSpace(t[k + |words[0]|]) && LitAt(t, RunEnd(t, k + |words[0]|), words[1])
    decreases |words|
  {
    if !LitAt(t, k, words[0]) then None
    else if |words| == 1 then Some(k + |words[0]|)
    else
      var j := k + |words[0]|;
      var e := RunEnd(t, j);
      if e == j then None else WordsEnd(t, e, words[1..])
  }

  /** Where the capture starts when the phrase followed by at least one
      `[\d,]` character is matched at position `k`, or None. */
  function PhraseAt(t: string, k: nat, phrase: seq<string>): (r: Option<nat>)
    requires phrase != []
    ensures r.Some? ==> k <= r.value < |t| && IsAmountChar(t[r.value])
    ensures r.Some? ==> WordsEnd(t, k, phrase) == Some(r.value)
  {
    match WordsEnd(t, k, phrase)
    case None => None
    case Some(p) => if p < |t| && IsAmountChar(t[p]) then Some(p) else None
  }

  predicate HasPhrase(t: string, k: nat, phrase: seq<string>)
    requires phrase != []
  {
    PhraseAt(t, k, phrase).Some?
  }

  /** The greedy `([\d,]+)` starting at `p`: the maximal run of amount
      characters there. */
  function AmountRun(t: string, p: nat): (a: string)
    requires p <= |t|
    ensures AllAmountChars(a) && p + |a| <= |t|
    ensures p + |a| < |t| ==> !IsAmountChar(t[p + |a|])
    decreases |t| - p
  {
    if p < |t| && IsAmountChar(t[p]) then [t[p]] + AmountRun(t, p + 1) else []
  }

  /** Where `In\s+<year>` ends when matched at position `i`, or None;
      `year` is the text the pattern holds for the year. */
  function PrefixEnd(t: string, i: nat, year: string): (r: Option<nat>)
    ensures r.Some? ==> i + 3 <= r.value <= |t|
    ensures r.Some? ==> && LitAt(t, i, "In") && i + 2 < |t| && IsSpace(t[i + 2])
                        && LitAt(t, RunEnd(t, i + 2), year) && r.value == RunEnd(t, i + 2) + |year|
  {
    if !LitAt(t, i, "In") then None
    else
      var e := RunEnd(t, i + 2);
      if e > i + 2 && LitAt(t, e, year) then Some(e + |year|) else None
  }

  /** Whitespace fills the positions from `a` up to, not including, `b`. */
  ghost predicate SpaceBetween(t: string, a: nat, b: nat) {
    b <= |t| && forall m :: a <= m < b ==> IsSpace(t[m])
  }

  /** The regular expression's own reading of `In\s+<year>` from `i` to
      `e`: `\s+` may take any non-empty run of whitespace that the year
      follows, as a backtracking matcher may try. */
  ghost predicate PrefixSpan(t: string, i: nat, year: string, e: nat) {
    && LitAt(t, i, "In")
    && exists j :: i + 2 < j && SpaceBetween(t, i + 2, j) && LitAt(t, j, year) && e == j + |year|
  }

  /** The same reading of `w0\s+w1\s+...\s+wn` from `k` to `e`. */
  ghost predicate WordsSpan(t: string, k: nat, words: seq<string>, e: nat)
    requires words != []
    decreases |words|
  {
    && LitAt(t, k, words[0])
    && if |words| == 1 then e == k + |words[0]|
       else exists j :: k + |words[0]| < j <= e && SpaceBetween(t, k + |words[0]|, j) && WordsSpan(t, j, words[1..], e)
  }

  /** A backtracking `\s+` can succeed only with the maximal run, because
      the year does not start with whitespace: the prefix spans `i..e` in
      the regular expression's reading exactly when `PrefixEnd` returns
      `e`. */
  lemma {:induction false} PrefixEndExact(t: string, i: nat, year: string, e: nat)
    requires year != [] && !IsSpace(year[0])
    ensures PrefixEnd(t, i, year) == Some(e) <==> PrefixSpan(t, i, year, e)
  {
    if PrefixEnd(t, i, year) == Some(e) {
      var j := RunEnd(t, i + 2);
      assert SpaceBetween(t, i + 2, j);
    }
    if PrefixSpan(t, i, year, e) {
      var j :| i + 2 < j && SpaceBetween(t, i + 2, j) && LitAt(t, j, year) && e == j + |year|;
      LitAtChar(t, j, year, 0);
      SameCaseChar(t[j], year[0]);
      RunEndAt(t, i + 2, j);
    }
  }

  /** The same for the words of the phrase: whatever runs of whitespace a
      backtracking matcher tries, only the maximal ones lead to a match, so
      the words span `k..e` exactly when `WordsEnd` returns `e`. */
  lemma {:induction false} WordsEndExact(t: string, k: nat, words: seq<string>, e: nat)
    requires Wordlike(words)
    ensures WordsEnd(t, k, words) == Some(e) <==> WordsSpan(t, k, words, e)
    decreases |words|
  {
    if |words| > 1 {
      var j0 := k + |words[0]|;
      var rest := words[1..];
      assert Wordlike(rest) by {
        forall i | 0 <= i < |rest| ensures rest[i] != [] && !IsSpace(rest[i][0]) {
          assert rest[i] == words[i + 1];
        }
      }
      if WordsEnd(t, k, words) == Some(e) {
        var j := RunEnd(t, j0);
        assert WordsEnd(t, j, rest) == Some(e);
        WordsEndExact(t, j, rest, e);
        assert SpaceBetween(t, j0, j);
      }
      if WordsSpan(t, k, words, e) {
        var j :| j0 < j <= e && SpaceBetween(t, j0, j) && WordsSpan(t, j, rest, e);
        assert LitAt(t, j, words[1]);
        LitAtChar(t, j, words[1], 0);
        SameCaseChar(t[j], words[1][0]);
        RunEndAt(t, j0, j);
        WordsEndExact(t, j, rest, e);
      }
    }
  }

  /** A match can start at `i` in the regular expression's own reading:
      some way of matching `In\s+<year>` there, then, at or after its end,
      some way of matching the phrase words that an amount character
      follows. */
  ghost predicate ViableSpan(t: string, i: nat, year: string, phrase: seq<string>)
    requires phrase != []
  {
    exists e: nat, q: nat, p: nat ::
      PrefixSpan(t, i, year, e) && e <= q && WordsSpan(t, q, phrase, p) && p < |t| && IsAmountChar(t[p])
  }

  /** The search's start test agrees with that reading. */
  lemma {:induction false} ViableExact(t: string, i: nat, year: string, phrase: seq<string>)
    requires year != [] && !IsSpace(year[0]) && Wordlike(phrase)
    ensures Viable(t, i, year, phrase) <==> ViableSpan(t, i, year, phrase)
  {
    if Viable(t, i, year, phrase) {
      ViableHasSpan(t, i, year, phrase);
    }
    if ViableSpan(t, i, year, phrase) {
      SpanIsViable(t, i, year, phrase);
    }
  }

  lemma {:induction false} ViableHasSpan(t: string, i: nat, year: string, phrase: seq<string>)
    requires year != [] && !IsSpace(year[0]) && Wordlike(phrase)
    requires Viable(t, i, year, phrase)
    ensures ViableSpan(t, i, year, phrase)
  {
    var e := PrefixEnd(t, i, year).value;
    var q :| e <= q <= |t| && HasPhrase(t, q, phrase);
    var p := PhraseAt(t, q, phrase).value;
    PrefixEndExact(t, i, year, e);
    WordsEndExact(t, q, phrase, p);
    assert PrefixSpan(t, i, year, e) && e <= q && WordsSpan(t, q, phrase, p) && p < |t| && IsAmountChar(t[p]);
  }

  lemma {:induction false} SpanIsViable(t: string, i: nat, year: string, phrase: seq<string>)
    requires year != [] && !IsSpace(year[0]) && Wordlike(phrase)
    requires ViableSpan(t, i, year, phrase)
    ensures Viable(t, i, year, phrase)
  {
    var e: nat, q: nat, p: nat :|
      PrefixSpan(t, i, year, e) && e <= q && WordsSpan(t, q, phrase, p) && p < |t| && IsAmountChar(t[p]);
    PrefixEndExact(t, i, year, e);
    WordsEndExact(t, q, phrase, p);
    assert PhraseAt(t, q, phrase) == Some(p);
    assert PrefixEnd(t, i, year).value <= q <= |t| && HasPhrase(t, q, phrase);
  }

  /** Whitespace from `a` up to a character at `j` that is not whitespace
      is the maximal run at `a`. */
  lemma {:induction false} RunEndAt(t: string, a: nat, j: nat)
    requires a <= j < |t| && !IsSpace(t[j])
    requires forall m :: a <= m < j ==> IsSpace(t[m])
    ensures RunEnd(t, a) == j
    decreases j - a
  {
    if a < j {
      RunEndAt(t, a + 1, j);
    }
  }

  /** The least position in `k..n` at which `p` holds. Both searches of the
      matcher have this shape: start positions are tried from the left, and
      the lazy gap is tried shortest first. */
  function Leftmost(p: nat -> bool, k: nat, n: nat): (r: Option<nat>)
    requires k <= n
    ensures r.Some? ==> k <= r.value <= n && p(r.value)
    ensures r.Some? ==> forall m :: k <= m < r.value ==> !p(m)
    ensures r.None? ==> forall m :: k <= m <= n ==> !p(m)
    decreases n - k
  {
    if p(k) then Some(k)
    else if k == n then None
    else Leftmost(p, k + 1, n)
  }

  /** The first phrase occurrence at or after `k`: the lazy `[\s\S]*?`. */
  function FirstPhrase(t: string, k: nat, phrase: seq<string>): (r: Option<nat>)
    requires k <= |t| && phrase != []
    ensures r.Some? ==> k <= r.value <= |t| && HasPhrase(t, r.value, phrase)
    ensures r.Some? ==> forall m :: k <= m < r.value ==> !HasPhrase(t, m, phrase)
    ensures r.None? ==> forall m :: k <= m <= |t| ==> !HasPhrase(t, m, phrase)
  {
    var here := (m: nat) => HasPhrase(t, m, phrase);
    assert forall m: nat :: here(m) == HasPhrase(t, m, phrase);
    Leftmost(here, k, |t|)
  }

  /** A match can start at `i`: the prefix matches there and the phrase
      occurs somewhere at or after its end. */
  ghost predicate Viable(t: string, i: nat, year: string, phrase: seq<string>)
    requires phrase != []
  {
    PrefixEnd(t, i, year).Some? &&
    exists k :: PrefixEnd(t, i, year).value <= k <= |t| && HasPhrase(t, k, phrase)
  }

  predicate MatchesAt(t: string, i: nat, year: string, phrase: seq<string>)
    requires phrase != []
    ensures MatchesAt(t, i, year, phrase) <==> Viable(t, i, year, phrase)
  {
    PrefixEnd(t, i, year).Some? && FirstPhrase(t, PrefixEnd(t, i, year).value, phrase).Some?
  }

  /** No match starts before position `n`. */
  predicate NoMatchBefore(t: string, n: nat, year: string, phrase: seq<string>)
    requires phrase != []
  {
    forall i :: 0 <= i < n ==> !MatchesAt(t, i, year, phrase)
  }

  /** One match of the pattern: where it starts, where its phrase starts,
      and the captured amount text. */
  datatype Match = Match(start: nat, phrase: nat, amount: string)

  /** `m` is the match that a matcher returns when it tries start positions
      from the left, makes the gap as short as possible and the group as long
      as possible: the leftmost viable start, the first phrase after the
      year, and the maximal amount run after that phrase. */
  ghost predicate IsFirstMatch(t: string, year: string, phrase: seq<string>, m: Match)
    requires phrase != []
    ensures IsFirstMatch(t, year, phrase, m) ==> AllAmountChars(m.amount)
  {
    && m.start <= |t|
    && Viable(t, m.start, year, phrase)
    && (forall i :: 0 <= i < m.start ==> !Viable(t, i, year, phrase))
    && PrefixEnd(t, m.start, year).value <= m.phrase <= |t|
    && HasPhrase(t, m.phrase, phrase)
    && (forall k :: PrefixEnd(t, m.start, year).value <= k < m.phrase ==> !HasPhrase(t, k, phrase))
    && m.amount == AmountRun(t, PhraseAt(t, m.phrase, phrase).value)
  }

  /** `t.match(re)`: the first match of the pattern, or None. */
  function FirstMatch(t: string, year: string, phrase: seq<string>): Option<Match>
    requires phrase != []
  {
    var viable := (i: nat) => MatchesAt(t, i, year, phrase);
    match Leftmost(viable, 0, |t|)
    case None => None
    case Some(i) =>
      var k := FirstPhrase(t, PrefixEnd(t, i, year).value, phrase).value;
      Some(Match(i, k, AmountRun(t, PhraseAt(t, k, phrase).value)))
  }

  /** The match found is the one a backtracking matcher reports, and there
      is none exactly when no start position is viable. */
  lemma {:induction false} FirstMatchIsLeftmost(t: string, year: string, phrase: seq<string>)
    requires phrase != []
    ensures FirstMatch(t, year, phrase).Some? ==> IsFirstMatch(t, year, phrase, FirstMatch(t, year, phrase).value)
    ensures FirstMatch(t, year, phrase).None? <==> forall i :: 0 <= i <= |t| ==> !Viable(t, i, year, phrase)
  {
    var viable := (i: nat) => MatchesAt(t, i, year, phrase);
    var found := Leftmost(viable, 0, |t|);
    assert FirstMatch(t, year, phrase).None? <==> found.None?;
    if found.Some? {
      var i := found.value;
      assert viable(i);
      assert Viable(t, i, year, phrase);
      forall j | 0 <= j < i ensures !Viable(t, j, year, phrase) {
        assert !viable(j);
      }
      var m := FirstMatch(t, year, phrase).value;
      assert m.start == i;
      assert IsFirstMatch(t, year, phrase, m);
    } else {
      forall j | 0 <= j <= |t| ensures !Viable(t, j, year, phrase) {
        assert !viable(j);
      }
    }
  }

  /** At most one match meets the description of `IsFirstMatch`, so the
      description fixes the result. */
  lemma {:induction false} FirstMatchUnique(t: string, year: string, phrase: seq<string>, m1: Match, m2: Match)
    requires phrase != []
    requires IsFirstMatch(t, year, phrase, m1) && IsFirstMatch(t, year, phrase, m2)
    ensures m1 == m2
  {
    assert m1.start == m2.start;
    assert m1.phrase == m2.phrase;
  }

  /** The value of the first match in already-normalised text `t`. */
  function Locate(t: string, year: string, phrase: seq<string>): Option<nat>
    requires phrase != []
  {
    match FirstMatch(t, year, phrase)
    case None => None
    case Some(m) => Some(AmountValue(m.amount))
  }

  /** What the search returns, stated without the search: None exactly when
      no start position is viable, and otherwise the amount of the one match
      that `IsFirstMatch` describes. */
  lemma {:induction false} LocateSpec(t: string, year: string, phrase: seq<string>)
    requires phrase != []
    ensures Locate(t, year, phrase).None? <==> forall i :: 0 <= i <= |t| ==> !Viable(t, i, year, phrase)
    ensures forall m :: IsFirstMatch(t, year, phrase, m) ==> Locate(t, year, phrase) == Some(AmountValue(m.amount))
  {
    FirstMatchIsLeftmost(t, year, phrase);
    forall m | IsFirstMatch(t, year, phrase, m)
      ensures Locate(t, year, phrase) == Some(AmountValue(m.amount))
    {
      FirstMatchUnique(t, year, phrase, m, FirstMatch(t, year, phrase).value);
    }
  }

  /** `parseMedian(text, year)`: normalise the whitespace, then locate the
      phrase of the indicator; None stands for `null`. */
  function ParseMedian(text: string, year: int): Option<nat> {
    Locate(Collapse(text), YearToken(year), Phrase)
  }

  /** What `parseMedian` returns, stated without the search: `null` exactly
      when no start position in the normalised text is viable for the
      year, and otherwise the amount of the match a backtracking matcher
      reports there. */
  lemma {:induction false} ParseMedianSpec(text: string, year: int)
    ensures ParseMedian(text, year).None? <==>
      forall i :: 0 <= i <= |Collapse(text)| ==> !Viable(Collapse(text), i, YearToken(year), Phrase)
    ensures forall m :: IsFirstMatch(Collapse(text), YearToken(year), Phrase, m) ==>
      ParseMedian(text, year) == Some(AmountValue(m.amount))
  {
    var t, y := Collapse(text), YearToken(year);
    assert ParseMedian(text, year) == Locate(t, y, Phrase);
    LocateSpec(t, y, Phrase);
  }

  /** Only the normalised text matters: feeding already-normalised text
      gives the same answer. */
  lemma {:induction false} ParseMedianSeesNormalForm(text: string, year: int)
    ensures ParseMedian(Collapse(text), year) == ParseMedian(text, year)
  {
    CollapseIdempotent(text);
  }

  /** The words separated by single spaces: the plainest text that matches
      `w0\s+w1\s+...\s+wn`. */
  function Join(words: seq<string>): string
    requires words != []
    decreases |words|
  {
    if |words| == 1 then words[0] else words[0] + " " + Join(words[1..])
  }

  /** Every word is non-empty and begins with a character other than
      whitespace, as the words of the pattern do. */
  predicate Wordlike(words: seq<string>) {
    words != [] && forall i :: 0 <= i < |words| ==> words[i] != [] && !IsSpace(words[i][0])
  }

  lemma PhraseIsWordlike()
    ensures Wordlike(Phrase)
  {
  }

  lemma ExactLitAt(t: string, k: nat, lit: string)
    requires k + |lit| <= |t| && t[k..k + |lit|] == lit
    ensures LitAt(t, k, lit)
  {
  }

  lemma {:induction false} LitAtChar(t: string, m: nat, lit: string, j: nat)
    requires LitAt(t, m, lit) && j < |lit|
    ensures m + j < |t| && Lower(t[m + j]) == Lower(lit[j])
  {
    assert Fold(t[m..m + |lit|])[j] == Fold(lit)[j];
  }

  /** A literal cannot occur where its first character does not, up to
      case. */
  lemma {:induction false} NotLitAt(t: string, m: nat, lit: string)
    requires lit != [] && m < |t| && Lower(t[m]) != Lower(lit[0])
    ensures !LitAt(t, m, lit)
  {
    if m + |lit| <= |t| {
      assert Fold(t[m..m + |lit|])[0] != Fold(lit)[0];
    }
  }

  lemma WordsEndStep(t: string, k: nat, words: seq<string>)
    requires |words| > 1 && LitAt(t, k, words[0])
    requires k + |words[0]| < |t| && IsSpace(t[k + |words[0]|])
    ensures WordsEnd(t, k, words) == WordsEnd(t, RunEnd(t, k + |words[0]|), words[1..])
  {
  }

  /** The words joined by single spaces match, and the match ends where
      the joined text ends. */
  lemma {:induction false} JoinMatches(t: string, k: nat, words: seq<string>)
    requires Wordlike(words)
    requires k + |Join(words)| <= |t| && t[k..k + |Join(words)|] == Join(words)
    ensures WordsEnd(t, k, words) == Some(k + |Join(words)|)
    decreases |words|
  {
    if |words| == 1 {
      ExactLitAt(t, k, words[0]);
    } else {
      var e := JoinSplit(t, k, words);
      JoinMatches(t, e, words[1..]);
      WordsEndStep(t, k, words);
    }
  }

  /** Two words of the phrase written without whitespace between them
      (`medianmonthly`) do not match: `\s+` needs at least one character. */
  lemma {:induction false} GluedWordsNoMatch(t: string, k: nat, words: seq<string>)
    requires |words| > 1 && Wordlike(words)
    requires LitAt(t, k, words[0] + words[1])
    ensures WordsEnd(t, k, words).None?
  {
    var j := |words[0]|;
    LitAtChar(t, k, words[0] + words[1], j);
    assert (words[0] + words[1])[j] == words[1][0];
    SameCaseChar(t[k + j], words[1][0]);
  }

  /** The first word of the joined text, its single space, and the rest. */
  lemma {:induction false} JoinSplit(t: string, k: nat, words: seq<string>) returns (e: nat)
    requires Wordlike(words) && |words| > 1
    requires k + |Join(words)| <= |t| && t[k..k + |Join(words)|] == Join(words)
    ensures e == k + |words[0]| + 1 && LitAt(t, k, words[0])
    ensures k + |words[0]| < |t| && IsSpace(t[k + |words[0]|]) && RunEnd(t, k + |words[0]|) == e
    ensures Wordlike(words[1..])
    ensures e + |Join(words[1..])| <= |t| && t[e..e + |Join(words[1..])|] == Join(words[1..])
  {
    var w := words[0];
    var j := Join(words);
    var rest := Join(words[1..]);
    e := k + |w| + 1;
    assert j == w + " " + rest;
    assert t[k..k + |w|] == j[..|w|] == w;
    ExactLitAt(t, k, w);
    assert t[e - 1] == j[|w|] == ' ';
    assert t[e] == j[|w| + 1] == words[1][0];
    assert RunEnd(t, e) == e;
    assert t[e..e + |rest|] == j[|w| + 1..] == rest;
    assert Wordlike(words[1..]) by {
      forall i | 0 <= i < |words| - 1 ensures words[1..][i] != [] && !IsSpace(words[1..][i][0]) {
        assert words[1..][i] == words[i + 1];
      }
    }
  }

  /** The amount run after the phrase is exactly `a` when `a` is followed by
      the end of the text or by a character that is neither digit nor comma. */
  lemma {:induction false} AmountRunIs(t: string, p: nat, a: string)
    requires AllAmountChars(a) && p + |a| <= |t| && t[p..p + |a|] == a
    requires p + |a| < |t| ==> !IsAmountChar(t[p + |a|])
    ensures AmountRun(t, p) == a
    decreases |a|
  {
    if a != [] {
      assert t[p] == a[0];
      assert t[p + 1..p + |a|] == a[1..];
      AmountRunIs(t, p + 1, a[1..]);
    }
  }

  /** The greedy group is the text itself from `p` on: with the bounds
      `AmountRun` states and `AmountRunIs`, this pins it down exactly. */
  lemma {:induction false} AmountRunSlice(t: string, p: nat)
    requires p <= |t|
    ensures AmountRun(t, p) == t[p..p + |AmountRun(t, p)|]
    decreases |t| - p
  {
    if p < |t| && IsAmountChar(t[p]) {
      AmountRunSlice(t, p + 1);
      var b := AmountRun(t, p + 1);
      assert t[p..p + 1 + |b|] == [t[p]] + t[p + 1..p + 1 + |b|];
    }
  }

  /** A position where `p` holds, with none before it from `k`, is the one
      found. */
  lemma LeftmostIs(p: nat -> bool, k: nat, n: nat, q: nat)
    requires k <= q <= n && p(q)
    requires forall m :: k <= m < q ==> !p(m)
    ensures Leftmost(p, k, n) == Some(q)
  {
  }

  /** `In` (in either case), one space and the year match at position `i`. */
  lemma {:induction false} PrefixAt(t: string, i: nat, lead: string, y: string)
    requires SameIgnoringCase(lead, "In") && y != [] && !IsSpace(y[0])
    requires i + 3 + |y| <= |t| && t[i..i + 3 + |y|] == lead + " " + y
    ensures PrefixEnd(t, i, y) == Some(i + 3 + |y|)
  {
    var s := lead + " " + y;
    assert t[i..i + 2] == s[0..2] == lead;
    assert LitAt(t, i, "In");
    assert t[i + 2] == s[2] == ' ';
    assert t[i + 3] == s[3] == y[0];
    assert RunEnd(t, i + 3) == i + 3;
    assert t[i + 3..i + 3 + |y|] == s[3..] == y;
    ExactLitAt(t, i + 3, y);
  }

  /** No `In` can start in `pre`: no `i` (either case) in it is followed by
      an `n`. The last character is followed by the `I` of the match. */
  predicate NoLeadIn(pre: string) {
    forall i, j :: 0 <= i < |pre| && j == i + 1 < |pre| ==> Lower(pre[i]) != 'i' || Lower(pre[j]) != 'n'
  }

  /** A text laid out as one match: what precedes it, `In` (in any case),
      one space and the year, the gap, the phrase with single spaces, the
      amount, and what follows. */
  function Sentence(pre: string, lead: string, y: string, g: string, phrase: seq<string>, a: string,
                    rest: string): string
    requires phrase != []
  {
    pre + (lead + " " + y) + g + Join(phrase) + a + rest
  }

  /** Such a text yields the amount laid out in it when no match starts
      inside `pre`, no phrase occurrence starts inside the gap, and what
      follows the amount does not continue it. The gap may hold anything
      else, and nothing ties `In` or the year to word boundaries. */
  lemma {:induction false} SentenceLocates(pre: string, lead: string, y: string, g: string, phrase: seq<string>,
                                           a: string, rest: string)
    requires SameIgnoringCase(lead, "In") && y != [] && !IsSpace(y[0]) && Wordlike(phrase)
    requires a != [] && AllAmountChars(a) && (rest != [] ==> !IsAmountChar(rest[0]))
    requires NoMatchBefore(Sentence(pre, lead, y, g, phrase, a, rest), |pre|, y, phrase)
    requires forall m :: |pre| + 3 + |y| <= m < |pre| + 3 + |y| + |g| ==>
      !HasPhrase(Sentence(pre, lead, y, g, phrase, a, rest), m, phrase)
    ensures Locate(Sentence(pre, lead, y, g, phrase, a, rest), y, phrase) == Some(AmountValue(a))
  {
    var t := Sentence(pre, lead, y, g, phrase, a, rest);
    var pe := |pre| + 3 + |y|;
    var q := pe + |g|;
    var p := q + |Join(phrase)|;
    assert p <= |t| && t[|pre|..pe] == lead + " " + y && t[q..p] == Join(phrase) by {
      Layout(pre, lead + " " + y, g, Join(phrase), a, rest);
    }
    assert AmountRun(t, p) == a by {
      var u := pre + (lead + " " + y) + g + Join(phrase);
      assert |u| == p;
      AmountRunAfter(u, a, rest);
    }
    ShapeLocates(t, |pre|, lead, y, |g|, phrase, a);
  }

  /** When `In` does not occur in `pre`, no match starts inside it. */
  lemma {:induction false} LeadFreeNoEarlierMatch(pre: string, lead: string, y: string, g: string,
                                                  phrase: seq<string>, a: string, rest: string)
    requires NoLeadIn(pre) && SameIgnoringCase(lead, "In") && phrase != []
    ensures NoMatchBefore(Sentence(pre, lead, y, g, phrase, a, rest), |pre|, y, phrase)
  {
    var t := Sentence(pre, lead, y, g, phrase, a, rest);
    Layout(pre, lead + " " + y, g, Join(phrase), a, rest);
    assert |Fold(lead)| == |Fold("In")|;
    assert t[|pre|] == (lead + " " + y)[0] == lead[0];
    PreNoMatch(t, pre, lead, y);
  }

  /** When no character of the gap is, up to case, the first letter of the
      phrase, no phrase occurrence starts inside the gap. */
  lemma {:induction false} GapWithoutInitial(pre: string, lead: string, y: string, g: string,
                                             phrase: seq<string>, a: string, rest: string)
    requires SameIgnoringCase(lead, "In") && Wordlike(phrase)
    requires forall i :: 0 <= i < |g| ==> Lower(g[i]) != Lower(phrase[0][0])
    ensures forall m :: |pre| + 3 + |y| <= m < |pre| + 3 + |y| + |g| ==>
      !HasPhrase(Sentence(pre, lead, y, g, phrase, a, rest), m, phrase)
  {
    var t := Sentence(pre, lead, y, g, phrase, a, rest);
    Layout(pre, lead + " " + y, g, Join(phrase), a, rest);
    assert |Fold(lead)| == |Fold("In")|;
    var k := |pre| + 3 + |y|;
    forall m | k <= m < k + |g| ensures !HasPhrase(t, m, phrase) {
      assert t[m] == g[m - k];
      NotLitAt(t, m, phrase[0]);
    }
  }

  /** The amount run that starts right after `u` is `a` when what follows
      `a` does not continue it. */
  lemma {:induction false} AmountRunAfter(u: string, a: string, rest: string)
    requires AllAmountChars(a) && (rest != [] ==> !IsAmountChar(rest[0]))
    ensures AmountRun(u + a + rest, |u|) == a
  {
    var t := u + a + rest;
    assert t[|u|..|u| + |a|] == a;
    if rest != [] {
      assert t[|u| + |a|] == rest[0];
    }
    AmountRunIs(t, |u|, a);
  }

  /** Where each part of a text made of six parts lies. */
  lemma Layout(u0: string, u1: string, u2: string, u3: string, u4: string, u5: string)
    ensures var t := u0 + u1 + u2 + u3 + u4 + u5;
      var p1 := |u0|; var p2 := p1 + |u1|; var p3 := p2 + |u2|; var p4 := p3 + |u3|; var p5 := p4 + |u4|;
      && |t| == p5 + |u5|
      && t[..p1] == u0 && t[p1..p2] == u1 && t[p2..p3] == u2 && t[p3..p4] == u3
      && t[p4..p5] == u4 && (u5 != [] ==> t[p5] == u5[0])
  {
  }

  /** The layout above, stated by where its parts lie in `t`: the prefix
      at `s`, a gap of `n` characters, the phrase and the amount. */
  lemma {:induction false} ShapeLocates(t: string, s: nat, lead: string, y: string, n: nat, phrase: seq<string>,
                                        a: string)
    requires SameIgnoringCase(lead, "In") && y != [] && !IsSpace(y[0]) && Wordlike(phrase)
    requires a != [] && AllAmountChars(a)
    requires s + 3 + |y| + n + |Join(phrase)| <= |t|
    requires t[s..s + 3 + |y|] == lead + " " + y
    requires t[s + 3 + |y| + n..s + 3 + |y| + n + |Join(phrase)|] == Join(phrase)
    requires AmountRun(t, s + 3 + |y| + n + |Join(phrase)|) == a
    requires NoMatchBefore(t, s, y, phrase)
    requires forall m :: s + 3 + |y| <= m < s + 3 + |y| + n ==> !HasPhrase(t, m, phrase)
    ensures Locate(t, y, phrase) == Some(AmountValue(a))
  {
    var pe := s + 3 + |y|;
    var q := pe + n;
    var p := q + |Join(phrase)|;
    PrefixAt(t, s, lead, y);
    GapThenPhrase(t, pe, q, p, phrase, a);
    MatchIs(t, y, phrase, s, pe, q, p, a);
  }

  /** No match for the year can start before the `In` that follows `pre`. */
  lemma {:induction false} PreNoMatch(t: string, pre: string, lead: string, y: string)
    requires NoLeadIn(pre) && SameIgnoringCase(lead, "In")
    requires |pre| < |t| && t[..|pre|] == pre && t[|pre|] == lead[0]
    ensures forall i :: 0 <= i < |pre| ==> PrefixEnd(t, i, y).None?
  {
    SameAt(lead, "In", 0);
    forall i | 0 <= i < |pre| ensures PrefixEnd(t, i, y).None? {
      PreNoPrefix(t, pre, i);
    }
  }

  /** The match found, given where it starts, where its year ends, where
      its phrase starts, and the amount run after the phrase. */
  lemma {:induction false} MatchIs(t: string, y: string, phrase: seq<string>, s: nat, pe: nat, q: nat, p: nat,
                                   a: string)
    requires phrase != [] && s <= |t|
    requires NoMatchBefore(t, s, y, phrase)
    requires PrefixEnd(t, s, y) == Some(pe) && FirstPhrase(t, pe, phrase) == Some(q)
    requires PhraseAt(t, q, phrase) == Some(p) && AmountRun(t, p) == a
    ensures Locate(t, y, phrase) == Some(AmountValue(a))
  {
    var viable := (i: nat) => MatchesAt(t, i, y, phrase);
    forall i | 0 <= i < s ensures !viable(i) {
      assert !MatchesAt(t, i, y, phrase);
    }
    LeftmostIs(viable, 0, |t|, s);
    assert FirstMatch(t, y, phrase) == Some(Match(s, q, a));
  }

  /** After a gap from `k` to `q` in which no phrase occurrence starts, the
      first phrase is the one at `q`, and its words end at `p`. */
  lemma {:induction false} GapThenPhrase(t: string, k: nat, q: nat, p: nat, phrase: seq<string>, a: string)
    requires Wordlike(phrase) && a != [] && AllAmountChars(a)
    requires k <= q && p == q + |Join(phrase)| && p <= |t|
    requires t[q..p] == Join(phrase)
    requires forall m :: k <= m < q ==> !HasPhrase(t, m, phrase)
    requires AmountRun(t, p) == a
    ensures FirstPhrase(t, k, phrase) == Some(q)
    ensures PhraseAt(t, q, phrase) == Some(p)
  {
    JoinMatches(t, q, phrase);
    assert IsAmountChar(t[p]);
    FirstPhraseIs(t, k, q, phrase);
  }

  /** A phrase occurrence with none before it (from `k`) is the one found. */
  lemma FirstPhraseIs(t: string, k: nat, q: nat, phrase: seq<string>)
    requires phrase != [] && k <= q <= |t| && HasPhrase(t, q, phrase)
    requires forall m :: k <= m < q ==> !HasPhrase(t, m, phrase)
    ensures FirstPhrase(t, k, phrase) == Some(q)
  {
  }

  lemma {:induction false} PreNoPrefix(t: string, pre: string, i: nat)
    requires NoLeadIn(pre) && i < |pre| < |t| && t[..|pre|] == pre && Lower(t[|pre|]) == 'i'
    ensures !LitAt(t, i, "In")
  {
    if LitAt(t, i, "In") {
      LitAtChar(t, i, "In", 0);
      LitAtChar(t, i, "In", 1);
    }
  }

  /** `In` needs at least one whitespace character before the year: when
      every `In` in the text is followed directly by something else, nothing
      matches. */
  lemma {:induction false} NoSpaceNoMatch(t: string, year: string, phrase: seq<string>)
    requires phrase != []
    requires forall i :: 0 <= i && i + 2 < |t| && LitAt(t, i, "In") ==> !IsSpace(t[i + 2])
    ensures Locate(t, year, phrase) == None
  {
    LocateSpec(t, year, phrase);
    forall i | 0 <= i <= |t| ensures PrefixEnd(t, i, year).None? {
      if LitAt(t, i, "In") {
        assert RunEnd(t, i + 2) == i + 2;
      }
    }
  }

  /** A text that never holds the year (up to case) has no match. */
  lemma {:induction false} YearAbsentNoMatch(t: string, year: string, phrase: seq<string>)
    requires phrase != []
    requires forall k :: 0 <= k <= |t| ==> !LitAt(t, k, year)
    ensures Locate(t, year, phrase) == None
  {
    LocateSpec(t, year, phrase);
    forall i | 0 <= i <= |t| ensures PrefixEnd(t, i, year).None? {
      if LitAt(t, i, "In") {
        assert !LitAt(t, RunEnd(t, i + 2), year);
      }
    }
  }

  /** The match is not anchored to words: in `Within 20245 median monthly
      regular earnings was NT$1.` the year 2024 is found and the value is 1. */
  lemma {:induction false} MatchesInsideWords()
    ensures Locate(Sentence("With", "in", "2024", "5 ", Phrase, "1", "."), "2024", Phrase) == Some(1)
  {
    PhraseIsWordlike();
    assert SameIgnoringCase("in", "In") by {
      assert Lower('i') == 'i' && Lower('I') == 'i' && Lower('n') == 'n';
    }
    assert AllAmountChars("1") && AmountValue("1") == 1 by {
      assert StripCommas("1") == "1";
    }
    LeadFreeNoEarlierMatch("With", "in", "2024", "5 ", Phrase, "1", ".");
    GapWithoutInitial("With", "in", "2024", "5 ", Phrase, "1", ".");
    SentenceLocates("With", "in", "2024", "5 ", Phrase, "1", ".");
  }

  /** `a` and `b` differ at most in the case of ASCII letters. */
  predicate SameIgnoringCase(a: string, b: string) {
    Fold(a) == Fold(b)
  }

  lemma {:induction false} SameAt(a: string, b: string, i: nat)
    requires SameIgnoringCase(a, b) && i < |a|
    ensures Lower(a[i]) == Lower(b[i])
  {
    assert Fold(a)[i] == Fold(b)[i];
  }

  lemma FoldSlice(a: string, i: nat, j: nat)
    requires i <= j <= |a|
    ensures Fold(a[i..j]) == Fold(a)[i..j]
  {
  }

  /** Characters that agree up to case are equal unless they are letters,
      so whitespace, digits and commas sit at the same places in both. */
  lemma SameCaseChar(x: char, y: char)
    requires Lower(x) == Lower(y)
    ensures IsSpace(x) == IsSpace(y) && IsAmountChar(x) == IsAmountChar(y)
    ensures IsAmountChar(x) ==> x == y
  {
  }

  lemma {:induction false} RunEndIgnoresCase(a: string, b: string, j: nat)
    requires SameIgnoringCase(a, b) && j <= |a|
    ensures RunEnd(a, j) == RunEnd(b, j)
    decreases |a| - j
  {
    if j < |a| {
      SameAt(a, b, j);
      SameCaseChar(a[j], b[j]);
      RunEndIgnoresCase(a, b, j + 1);
    }
  }

  lemma {:induction false} LitAtIgnoresCase(a: string, b: string, k: nat, lit: string)
    requires SameIgnoringCase(a, b)
    ensures LitAt(a, k, lit) == LitAt(b, k, lit)
  {
    if k + |lit| <= |a| {
      FoldSlice(a, k, k + |lit|);
      FoldSlice(b, k, k + |lit|);
    }
  }

  lemma {:induction false} WordsEndIgnoresCase(a: string, b: string, k: nat, words: seq<string>)
    requires SameIgnoringCase(a, b) && words != []
    ensures WordsEnd(a, k, words) == WordsEnd(b, k, words)
    decreases |words|
  {
    LitAtIgnoresCase(a, b, k, words[0]);
    if LitAt(a, k, words[0]) && |words| > 1 {
      var e := RunEnd(a, k + |words[0]|);
      RunEndIgnoresCase(a, b, k + |words[0]|);
      WordsEndIgnoresCase(a, b, e, words[1..]);
      WordsEndSameStep(a, b, k, words);
    }
  }

  /** Two texts that agree on the first word and the run after it, and on
      the rest of the match, agree on the whole. */
  lemma WordsEndSameStep(a: string, b: string, k: nat, words: seq<string>)
    requires |words| > 1 && |a| == |b|
    requires LitAt(a, k, words[0]) && LitAt(b, k, words[0])
    requires RunEnd(a, k + |words[0]|) == RunEnd(b, k + |words[0]|)
    requires WordsEnd(a, RunEnd(a, k + |words[0]|), words[1..]) == WordsEnd(b, RunEnd(a, k + |words[0]|), words[1..])
    ensures WordsEnd(a, k, words) == WordsEnd(b, k, words)
  {
  }

  lemma {:induction false} PhraseAtIgnoresCase(a: string, b: string, k: nat, phrase: seq<string>)
    requires SameIgnoringCase(a, b) && phrase != []
    ensures PhraseAt(a, k, phrase) == PhraseAt(b, k, phrase)
  {
    WordsEndIgnoresCase(a, b, k, phrase);
    var w := WordsEnd(a, k, phrase);
    if w.Some? && w.value < |a| {
      SameAt(a, b, w.value);
      SameCaseChar(a[w.value], b[w.value]);
    }
  }

  lemma {:induction false} AmountRunIgnoresCase(a: string, b: string, p: nat)
    requires SameIgnoringCase(a, b) && p <= |a|
    ensures AmountRun(a, p) == AmountRun(b, p)
    decreases |a| - p
  {
    if p < |a| {
      SameAt(a, b, p);
      SameCaseChar(a[p], b[p]);
      AmountRunIgnoresCase(a, b, p + 1);
    }
  }

  lemma {:induction false} PrefixEndIgnoresCase(a: string, b: string, i: nat, year: string)
    requires SameIgnoringCase(a, b)
    ensures PrefixEnd(a, i, year) == PrefixEnd(b, i, year)
  {
    LitAtIgnoresCase(a, b, i, "In");
    if LitAt(a, i, "In") {
      RunEndIgnoresCase(a, b, i + 2);
      LitAtIgnoresCase(a, b, RunEnd(a, i + 2), year);
    }
  }

  /** Two searches that test the same positions find the same one. */
  lemma {:induction false} LeftmostSame(p: nat -> bool, q: nat -> bool, k: nat, n: nat)
    requires k <= n
    requires forall m :: k <= m <= n ==> p(m) == q(m)
    ensures Leftmost(p, k, n) == Leftmost(q, k, n)
    decreases n - k
  {
    if k < n {
      LeftmostSame(p, q, k + 1, n);
    }
  }

  lemma {:induction false} FirstPhraseIgnoresCase(a: string, b: string, k: nat, phrase: seq<string>)
    requires SameIgnoringCase(a, b) && k <= |a| && phrase != []
    ensures FirstPhrase(a, k, phrase) == FirstPhrase(b, k, phrase)
  {
    var p := (m: nat) => HasPhrase(a, m, phrase);
    var q := (m: nat) => HasPhrase(b, m, phrase);
    forall m | k <= m <= |a| ensures p(m) == q(m) {
      PhraseAtIgnoresCase(a, b, m, phrase);
    }
    LeftmostSame(p, q, k, |a|);
  }

  lemma {:induction false} FirstMatchIgnoresCase(a: string, b: string, year: string, phrase: seq<string>)
    requires SameIgnoringCase(a, b) && phrase != []
    ensures FirstMatch(a, year, phrase) == FirstMatch(b, year, phrase)
  {
    var p := (i: nat) => MatchesAt(a, i, year, phrase);
    var q := (i: nat) => MatchesAt(b, i, year, phrase);
    forall i | 0 <= i <= |a| ensures p(i) == q(i) {
      PrefixEndIgnoresCase(a, b, i, year);
      var e := PrefixEnd(a, i, year);
      if e.Some? {
        FirstPhraseIgnoresCase(a, b, e.value, phrase);
      }
    }
    LeftmostSame(p, q, 0, |a|);
    var r := Leftmost(p, 0, |a|);
    if r.Some? {
      var i := r.value;
      PrefixEndIgnoresCase(a, b, i, year);
      var k := FirstPhrase(a, PrefixEnd(a, i, year).value, phrase).value;
      FirstPhraseIgnoresCase(a, b, PrefixEnd(a, i, year).value, phrase);
      PhraseAtIgnoresCase(a, b, k, phrase);
      AmountRunIgnoresCase(a, b, PhraseAt(a, k, phrase).value);
    }
  }

  /** Normalising keeps two texts equal up to case. */
  lemma {:induction false} CollapseIgnoresCase(a: string, b: string)
    requires SameIgnoringCase(a, b)
    ensures SameIgnoringCase(Collapse(a), Collapse(b))
    decreases |a|
  {
    if a != [] {
      SameAt(a, b, 0);
      SameCaseChar(a[0], b[0]);
      var n := if IsSpace(a[0]) then RunEnd(a, 0) else 1;
      if IsSpace(a[0]) {
        RunEndIgnoresCase(a, b, 0);
      }
      SameIgnoringCaseDrop(a, b, n);
      CollapseIgnoresCase(a[n..], b[n..]);
      ConsIgnoresCase(if IsSpace(a[0]) then ' ' else a[0], if IsSpace(b[0]) then ' ' else b[0],
        Collapse(a[n..]), Collapse(b[n..]));
    }
  }

  lemma {:induction false} SameIgnoringCaseDrop(a: string, b: string, j: nat)
    requires SameIgnoringCase(a, b) && j <= |a|
    ensures SameIgnoringCase(a[j..], b[j..])
  {
    FoldSlice(a, j, |a|);
    FoldSlice(b, j, |b|);
  }

  lemma {:induction false} ConsIgnoresCase(x: char, y: char, a: string, b: string)
    requires Lower(x) == Lower(y) && SameIgnoringCase(a, b)
    ensures SameIgnoringCase([x] + a, [y] + b)
  {
    assert Fold([x] + a) == [Lower(x)] + Fold(a);
    assert Fold([y] + b) == [Lower(y)] + Fold(b);
  }

  /** The match is case-insensitive: texts that differ only in the case of
      ASCII letters yield the same value. */
  lemma {:induction false} ParseMedianIgnoresCase(a: string, b: string, year: int)
    requires SameIgnoringCase(a, b)
    ensures ParseMedian(a, year) == ParseMedian(b, year)
  {
    CollapseIgnoresCase(a, b);
    FirstMatchIgnoresCase(Collapse(a), Collapse(b), YearToken(year), Phrase);
  }
}
