/** Decimal numerals: how a number is written into the pattern
    (`${year}`, src/scrape.js:20) and how the captured amount is read back
    (`Number(m[1].replace(/,/g, ""))`, src/scrape.js:24). */
module Numerals {

  /** `\d` without the `u` flag: the ASCII digits only. */
  predicate IsDigit(c: char) {
    '0' <= c <= '9'
  }

  /** The character class `[\d,]` of the amount capture. */
  predicate IsAmountChar(c: char) {
    IsDigit(c) || c == ','
  }

  predicate AllDigits(s: string) {
    forall i :: 0 <= i < |s| ==> IsDigit(s[i])
  }

  predicate AllAmountChars(s: string) {
    forall i :: 0 <= i < |s| ==> IsAmountChar(s[i])
  }

  function DigitValue(c: char): (d: nat)
    requires IsDigit(c)
    ensures d < 10
  {
    c as int - '0' as int
  }

  function DigitChar(d: nat): (c: char)
    requires d < 10
    ensures IsDigit(c) && DigitValue(c) == d
  {
    ('0' as int + d) as char
  }

  /** The decimal rendering of a non-negative integer, as `String(n)` gives
      it: digits only, and no leading zero except for zero itself. */
  function NatToString(n: nat): (s: string)
    ensures s != [] && AllDigits(s)
    ensures s[0] == '0' <==> n == 0
    decreases n
  {
    if n < 10 then [DigitChar(n)] else NatToString(n / 10) + [DigitChar(n % 10)]
  }

  /** The integer a string of decimal digits denotes; the empty string
      denotes 0, as `Number("")` does. Leading zeros are ignored. */
  function DecimalValue(s: string): nat
    requires AllDigits(s)
    decreases |s|
  {
    if s == [] then 0 else DecimalValue(s[..|s| - 1]) * 10 + DigitValue(s[|s| - 1])
  }

  /** Reading back the rendering of `n` gives `n`. */
  lemma {:induction false} DecimalRoundTrip(n: nat)
    ensures DecimalValue(NatToString(n)) == n
    decreases n
  {
    if n >= 10 {
      var s := NatToString(n);
      DecimalRoundTrip(n / 10);
      assert s[..|s| - 1] == NatToString(n / 10);
    }
  }

  /** `s.replace(/,/g, "")`: the string with every comma removed. */
  function StripCommas(s: string): (r: string)
    ensures |r| <= |s|
    ensures forall i :: 0 <= i < |r| ==> r[i] != ','
    ensures AllAmountChars(s) ==> AllDigits(r)
  {
    if s == [] then []
    else if s[0] == ',' then StripCommas(s[1..])
    else [s[0]] + StripCommas(s[1..])
  }

  lemma {:induction false} StripCommasAppend(a: string, b: string)
    ensures StripCommas(a + b) == StripCommas(a) + StripCommas(b)
    decreases |a|
  {
    if a == [] {
      assert a + b == b;
    } else {
      assert (a + b)[0] == a[0];
      assert (a + b)[1..] == a[1..] + b;
      StripCommasAppend(a[1..], b);
    }
  }

  /** The number a captured `[\d,]+` run stands for: commas are dropped and
      the remaining digits read as one decimal integer. */
  function AmountValue(a: string): nat
    requires AllAmountChars(a)
  {
    DecimalValue(StripCommas(a))
  }

  /** A comma anywhere in the capture is ignored: the value is the one of
      the same run without it. */
  lemma {:induction false} AmountValueSkipsComma(a: string, b: string)
    requires AllAmountChars(a) && AllAmountChars(b)
    ensures AllAmountChars(a + [','] + b)
    ensures AmountValue(a + [','] + b) == AmountValue(a + b)
  {
    StripCommasAppend(a + [','], b);
    StripCommasAppend(a, [',']);
    StripCommasAppend(a, b);
    assert StripCommas([',']) == [];
    assert StripCommas(a) + [] == StripCommas(a);
  }

  /** A run made only of commas reads as 0 (`Number("")`). */
  lemma {:induction false} CommasOnlyIsZero(a: string)
    requires forall i :: 0 <= i < |a| ==> a[i] == ','
    ensures AmountValue(a) == 0
    decreases |a|
  {
    if a != [] {
      CommasOnlyIsZero(a[1..]);
    }
  }

  /** A digit string with a comma before every group of three digits
      counted from the right, as the source publishes amounts ("37,274"). */
  function Group(d: string): (g: string)
    requires AllDigits(d)
    ensures AllAmountChars(g) && |d| <= |g|
    decreases |d|
  {
    if |d| <= 3 then d else Group(d[..|d| - 3]) + [','] + d[|d| - 3..]
  }

  function Grouped(n: nat): string {
    Group(NatToString(n))
  }

  lemma {:induction false} StripGroup(d: string)
    requires AllDigits(d)
    ensures StripCommas(Group(d)) == d
    decreases |d|
  {
    if |d| <= 3 {
      NoCommaFixed(d);
    } else {
      var hi, lo := d[..|d| - 3], d[|d| - 3..];
      assert AllDigits(hi) && AllDigits(lo);
      var gh := Group(hi);
      assert Group(d) == gh + [','] + lo;
      StripGroup(hi);
      StripCommasAppend(gh + [','], lo);
      StripCommasAppend(gh, [',']);
      assert StripCommas([',']) == [];
      NoCommaFixed(lo);
      assert hi + [] == hi;
      assert StripCommas(Group(d)) == hi + lo;
      assert hi + lo == d;
    }
  }

  /** How a grouped amount looks: a leading block of one to three digits,
      then every comma followed by exactly three digits and then either
      another comma or the end. */
  ghost predicate ThousandsGrouped(g: string) {
    && g != [] && IsDigit(g[0])
    && (|g| > 3 ==> ',' in g[1..4])
    && forall i :: 0 <= i < |g| && g[i] == ',' ==>
         && i + 3 < |g| && IsDigit(g[i + 1]) && IsDigit(g[i + 2]) && IsDigit(g[i + 3])
         && (i + 4 == |g| || g[i + 4] == ',')
  }

  lemma {:induction false} GroupShape(d: string)
    requires AllDigits(d) && d != []
    ensures ThousandsGrouped(Group(d))
    decreases |d|
  {
    if |d| > 3 {
      var hi, lo := d[..|d| - 3], d[|d| - 3..];
      assert AllDigits(hi) && AllDigits(lo);
      GroupShape(hi);
      var gh := Group(hi);
      var g := gh + [','] + lo;
      assert Group(d) == g;
      if |gh| > 3 {
        assert g[1..4] == gh[1..4];
      } else {
        assert g[1..4][|gh| - 1] == ',';
      }
      forall i | 0 <= i < |g| && g[i] == ','
        ensures i + 3 < |g| && IsDigit(g[i + 1]) && IsDigit(g[i + 2]) && IsDigit(g[i + 3])
        ensures i + 4 == |g| || g[i + 4] == ','
      {
        if i < |gh| {
          assert gh[i] == ',';
        }
      }
    }
  }

  lemma {:induction false} NoCommaFixed(d: string)
    requires AllDigits(d)
    ensures StripCommas(d) == d
    decreases |d|
  {
    if d != [] {
      NoCommaFixed(d[1..]);
    }
  }

  /** Writing `n` with thousands separators and reading it back as the
      source reads a captured amount gives `n`: 37274 -> "37,274" -> 37274. */
  lemma {:induction false} GroupedRoundTrip(n: nat)
    ensures AmountValue(Grouped(n)) == n
  {
    StripGroup(NatToString(n));
    DecimalRoundTrip(n);
  }

  function Pow10(n: nat): (r: nat)
    ensures r >= 1
  {
    if n == 0 then 1 else 10 * Pow10(n - 1)
  }

  /** Decimal reading is positional: the digits of `a` stand `|b|` places
      to the left of those of `b`, so leading zeros add nothing. */
  lemma {:induction false} DecimalAppend(a: string, b: string)
    requires AllDigits(a) && AllDigits(b)
    ensures DecimalValue(a + b) == DecimalValue(a) * Pow10(|b|) + DecimalValue(b)
    decreases |b|
  {
    if b == [] {
      assert a + b == a;
    } else {
      var b0, c := b[..|b| - 1], b[|b| - 1];
      assert (a + b)[..|a + b| - 1] == a + b0;
      assert (a + b)[|a + b| - 1] == c;
      DecimalAppend(a, b0);
      var x, p, v := DecimalValue(a), Pow10(|b0|), DecimalValue(b0);
      ShiftDigit(x, p, v, DigitValue(c));
      calc {
        DecimalValue(a + b);
        DecimalValue(a + b0) * 10 + DigitValue(c);
        (x * p + v) * 10 + DigitValue(c);
        x * (p * 10) + (v * 10 + DigitValue(c));
        DecimalValue(a) * Pow10(|b|) + DecimalValue(b);
      }
    }
  }

  lemma ShiftDigit(x: int, p: int, v: int, d: int)
    ensures (x * p + v) * 10 + d == x * (p * 10) + (v * 10 + d)
  {
  }

  /** Appending a digit multiplies by ten and adds it. */
  lemma {:induction false} DecimalSnoc(s: string, c: char)
    requires AllDigits(s) && IsDigit(c)
    ensures DecimalValue(s + [c]) == DecimalValue(s) * 10 + DigitValue(c)
  {
    assert (s + [c])[..|s|] == s;
  }

  /** The amount the release prints reads as the number it stands for. */
  lemma {:induction false} PublishedAmount()
    ensures AmountValue("37,274") == 37274
  {
    PublishedDigits();
    PublishedNumber();
  }

  /** The number the source reads back is printed with the same grouping. */
  lemma {:induction false} PublishedGrouping()
    ensures Grouped(37274) == "37,274"
  {
    assert NatToString(3) == "3";
    NextDigit(37, "3", '7');
    NextDigit(372, "37", '2');
    NextDigit(3727, "372", '7');
    NextDigit(37274, "3727", '4');
    assert Group("37274") == "37,274" by {
      assert "37274"[..2] == "37" && "37274"[2..] == "274";
    }
  }

  /** The decimal text of `n` is that of `n / 10` followed by its last digit. */
  lemma {:induction false} NextDigit(n: nat, s: string, c: char)
    requires n >= 10 && NatToString(n / 10) == s && c == DigitChar(n % 10)
    ensures NatToString(n) == s + [c]
  {
  }

  lemma {:induction false} PublishedDigits()
    ensures StripCommas("37,274") == "37274"
  {
    CommaAfterTwo('3', '7', '2', '7', '4');
  }

  /** The separator of a five-digit amount is dropped, the digits kept. */
  lemma {:induction false} CommaAfterTwo(a: char, b: char, c: char, d: char, e: char)
    requires IsDigit(a) && IsDigit(b) && IsDigit(c) && IsDigit(d) && IsDigit(e)
    ensures StripCommas([a, b, ',', c, d, e]) == [a, b, c, d, e]
  {
    assert [a, b, ',', c, d, e] == [a, b] + [','] + [c, d, e];
    StripCommasAppend([a, b] + [','], [c, d, e]);
    StripCommasAppend([a, b], [',']);
    assert StripCommas([',']) == [];
    NoCommaFixed([a, b]);
    NoCommaFixed([c, d, e]);
    assert [a, b] + [] + [c, d, e] == [a, b, c, d, e];
  }

  lemma {:induction false} PublishedNumber()
    ensures DecimalValue("37274") == 37274
  {
    FiveDigits('3', '7', '2', '7', '4');
  }

  /** A five-digit numeral, by place value. */
  lemma {:induction false} FiveDigits(a: char, b: char, c: char, d: char, e: char)
    requires IsDigit(a) && IsDigit(b) && IsDigit(c) && IsDigit(d) && IsDigit(e)
    ensures DecimalValue([a, b, c, d, e]) ==
      DigitValue(a) * 10000 + DigitValue(b) * 1000 + DigitValue(c) * 100 + DigitValue(d) * 10 + DigitValue(e)
  {
    DecimalSnoc([], a);
    assert [] + [a] == [a];
    DecimalSnoc([a], b);
    assert [a] + [b] == [a, b];
    DecimalSnoc([a, b], c);
    assert [a, b] + [c] == [a, b, c];
    DecimalSnoc([a, b, c], d);
    assert [a, b, c] + [d] == [a, b, c, d];
    DecimalSnoc([a, b, c, d], e);
    assert [a, b, c, d] + [e] == [a, b, c, d, e];
  }
}
