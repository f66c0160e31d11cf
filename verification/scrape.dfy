/** The decision logic around the locator (src/scrape.js:27-65): the two
    adapters `parseHtml` and `parsePdf`, the try/catch that chooses between
    them in `main`, and the record written to `public/median.json`.

    Network, HTML and PDF decoding, the clock and the file system are not
    modelled: what the fetch and decode steps of an adapter delivered is an
    input (`Retrieval`), and the run year and the timestamp are parameters. */
module Scrape {
  import opened Wrappers
  import opened Whitespace
  import opened Numerals
  import opened Locator

  const HtmlUrl: string := "https://eng.dgbas.gov.tw/News_Content.aspx?n=4438&s=234608"
  const PdfUrl: string :=
    "https://ws.dgbas.gov.tw/Download.ashx?u=LzAwMS9VcGxvYWQvNDY0L3JlbGZpbGUvMTA4NTQvMjM0NjA4L2VuZXdzMTEzMTIucGRm&n=ZW5ld3MxMTMxMi5wZGY%3d"

  /** The two adapters, in the order they are tried. */
  datatype Adapter = Html | Pdf

  /** The address each adapter fetches. */
  function Url(s: Adapter): string {
    match s
    case Html => HtmlUrl
    case Pdf => PdfUrl
  }

  /** The key under which a result records where it came from. */
  function Key(s: Adapter): string {
    match s
    case Html => "html"
    case Pdf => "pdf"
  }

  /** The word that starts each adapter's error messages. */
  function Label(s: Adapter): string {
    match s
    case Html => "HTML"
    case Pdf => "PDF"
  }

  /** A thrown `Error`, by its message. */
  datatype Failure = Failure(message: string)

  function FetchFailed(s: Adapter): Failure {
    Failure(Label(s) + " fetch failed")
  }

  function ParseFailed(s: Adapter): Failure {
    Failure(Label(s) + " parse failed")
  }

  /** What the I/O steps of an adapter delivered: the text of the page or
      document, a response whose status was not ok, or an exception raised
      by the fetch, by reading the body or by the HTML or PDF text
      extraction (kept with its message). */
  datatype Retrieval = Text(text: string) | NotOk | Threw(failure: Failure)

  /** `{ value, source }`: an adapter's successful result. */
  datatype Extraction = Extraction(value: nat, source: map<string, string>)

  /** `parseMedian(text, year) ?? parseMedian(text, year - 1)`: the previous
      year is consulted only when the run year gives no match (`null`); a
      match for the run year wins, even when its value is 0. */
  function YearValue(text: string, year: int): (r: Option<nat>)
    ensures r.Some? <==> ParseMedian(text, year).Some? || ParseMedian(text, year - 1).Some?
    ensures ParseMedian(text, year).Some? ==> r == ParseMedian(text, year)
    ensures r != ParseMedian(text, year) ==> ParseMedian(text, year).None? && r == ParseMedian(text, year - 1)
  {
    match ParseMedian(text, year)
    case Some(v) => Some(v)
    case None => ParseMedian(text, year - 1)
  }

  /** The fallback, stated by the matches themselves: the previous year's
      value is taken exactly when no position of the normalised text starts
      a match for the run year; otherwise the value is the amount of the run
      year's first match. */
  lemma {:induction false} YearValueSpec(text: string, year: int)
    ensures (forall i :: 0 <= i <= |Collapse(text)| ==> !Viable(Collapse(text), i, YearToken(year), Phrase))
            <==> YearValue(text, year) == ParseMedian(text, year - 1) && ParseMedian(text, year).None?
    ensures forall m :: IsFirstMatch(Collapse(text), YearToken(year), Phrase, m) ==>
              YearValue(text, year) == Some(AmountValue(m.amount))
  {
    LocateSpec(Collapse(text), YearToken(year), Phrase);
  }

  /** `parseHtml(year)` and `parsePdf(year)`: the same steps for each
      adapter. A status that is not ok, a value that is `null` or 0, and an
      exception from the I/O steps all fail; a success carries a positive
      value and exactly one provenance key, holding the adapter's URL. */
  function RunAdapter(s: Adapter, got: Retrieval, year: int): (r: Result<Extraction, Failure>)
    ensures r.Ok? <==> got.Text? && YearValue(got.text, year).Some? && YearValue(got.text, year).value != 0
    ensures r.Ok? ==> r.value.value > 0 && r.value.value == YearValue(got.text, year).value
    ensures r.Ok? ==> r.value.source.Keys == {Key(s)} && r.value.source[Key(s)] == Url(s)
    ensures got.NotOk? ==> r == Err(FetchFailed(s))
    ensures got.Threw? ==> r == Err(got.failure)
    ensures got.Text? && r.Err? ==> r.error == ParseFailed(s)
  {
    match got
    case NotOk => Err(FetchFailed(s))
    case Threw(f) => Err(f)
    case Text(text) =>
      var value := YearValue(text, year);
      if value.None? || value.value == 0 then Err(ParseFailed(s))
      else Ok(Extraction(value.value, map[Key(s) := Url(s)]))
  }

  /** What `main` ends up with, and which adapters it ran, in order. */
  datatype Run = Run(result: Result<Extraction, Failure>, attempted: seq<Adapter>)

  /** The try/catch of `main`: the HTML adapter first; on any failure the
      PDF adapter, exactly once, whose outcome (success or error) is final. */
  function Orchestrate(html: Retrieval, pdf: Retrieval, year: int): (run: Run)
    ensures run.attempted != [] && run.attempted[0] == Html && |run.attempted| <= 2
    ensures RunAdapter(Html, html, year).Ok? ==> run == Run(RunAdapter(Html, html, year), [Html])
    ensures RunAdapter(Html, html, year).Err? ==> run == Run(RunAdapter(Pdf, pdf, year), [Html, Pdf])
    ensures run.result.Err? ==> run.attempted == [Html, Pdf]
    ensures run.result.Err? ==> run.result.error in {FetchFailed(Pdf), ParseFailed(Pdf)} || pdf == Threw(run.result.error)
  {
    match RunAdapter(Html, html, year)
    case Ok(e) => Run(Ok(e), [Html])
    case Err(_) => Run(RunAdapter(Pdf, pdf, year), [Html, Pdf])
  }

  /** When the HTML adapter succeeds, what the PDF source would have
      delivered makes no difference. */
  lemma PdfUnusedAfterHtml(html: Retrieval, pdf1: Retrieval, pdf2: Retrieval, year: int)
    requires RunAdapter(Html, html, year).Ok?
    ensures Orchestrate(html, pdf1, year) == Orchestrate(html, pdf2, year)
    ensures Orchestrate(html, pdf1, year).result.value.source == map["html" := HtmlUrl]
  {
  }

  const Indicator: string := "median_monthly_regular_earnings_all_employees"
  const Currency: string := "TWD"
  const ParserVersion: string := "1.0.0"

  /** The published value whose reference year is fixed to 2024. */
  const KnownValue: nat := 37274
  const KnownYear: int := 2024

  /** The record written to `public/median.json`. */
  datatype IndicatorRecord = IndicatorRecord(
    year: int,
    indicator: string,
    value: nat,
    currency: string,
    source: map<string, string>,
    lastUpdatedUtc: string,
    parserVersion: string)

  /** `payload`: the constants, the winning result copied through, the
      timestamp, and the year, which is 2024 for the known value 37274 and
      the run year otherwise. */
  function BuildRecord(result: Extraction, runYear: int, now: string): (rec: IndicatorRecord)
    ensures result.value == KnownValue ==> rec.year == KnownYear
    ensures result.value != KnownValue ==> rec.year == runYear
    ensures rec.value == result.value && rec.source == result.source
    ensures rec.indicator == Indicator && rec.currency == Currency && rec.parserVersion == ParserVersion
    ensures rec.lastUpdatedUtc == now
  {
    IndicatorRecord(
      if result.value == KnownValue then KnownYear else runYear,
      Indicator,
      result.value,
      Currency,
      result.source,
      now,
      ParserVersion)
  }

  /** One run of the script: the record it writes, or the error that ends
      it (printed, with exit status 1). Every record holds a positive value
      and names exactly one of the two sources; a failing run reports the
      PDF adapter's error. */
  function Generate(html: Retrieval, pdf: Retrieval, runYear: int, now: string): (r: Result<IndicatorRecord, Failure>)
    ensures r.Ok? <==> RunAdapter(Html, html, runYear).Ok? || RunAdapter(Pdf, pdf, runYear).Ok?
    ensures r.Ok? ==> r.value.value > 0
    ensures r.Ok? ==> r.value.source == map["html" := HtmlUrl] || r.value.source == map["pdf" := PdfUrl]
    ensures RunAdapter(Html, html, runYear).Ok? ==> r.Ok? && r.value.source == map["html" := HtmlUrl]
    ensures r.Err? ==> RunAdapter(Pdf, pdf, runYear) == Err(r.error)
    ensures r.Ok? ==> r.value.indicator == Indicator && r.value.currency == Currency
  {
    match Orchestrate(html, pdf, runYear).result
    case Ok(e) => Ok(BuildRecord(e, runYear, now))
    case Err(f) => Err(f)
  }

  /** The sentence of the release that carries the indicator, between
      whatever precedes it and whatever follows it in the normalised text. */
  function Release(pre: string, y: string, amount: string, rest: string): string {
    Sentence(pre, "In", y, ", the ", Phrase, amount, rest)
  }

  /** A release sentence whose amount is `v` written with thousands
      separators yields `v` when no match starts before it and what follows
      the amount does not continue it. */
  lemma {:induction false} ReleaseLocates(pre: string, y: string, v: nat, rest: string)
    requires y != [] && !IsSpace(y[0]) && (rest != [] ==> !IsAmountChar(rest[0]))
    requires NoMatchBefore(Release(pre, y, Grouped(v), rest), |pre|, y, Phrase)
    ensures Locate(Release(pre, y, Grouped(v), rest), y, Phrase) == Some(v)
  {
    PhraseIsWordlike();
    assert Phrase[0][0] == 'm';
    GroupedRoundTrip(v);
    GapWithoutInitial(pre, "In", y, ", the ", Phrase, Grouped(v), rest);
    SentenceLocates(pre, "In", y, ", the ", Phrase, Grouped(v), rest);
  }

  /** A page whose text yields a positive value for the run year (or,
      failing that, for the year before): the HTML adapter succeeds and its
      value is written, dated 2024 when it is 37274. */
  lemma {:induction false} HtmlRecord(html: string, pdf: Retrieval, runYear: int, now: string, v: nat)
    requires YearValue(html, runYear) == Some(v) && v > 0
    ensures Generate(Text(html), pdf, runYear, now) ==
      Ok(IndicatorRecord(if v == KnownValue then KnownYear else runYear, Indicator, v, Currency,
                         map["html" := HtmlUrl], now, ParserVersion))
  {
    assert RunAdapter(Html, Text(html), runYear) == Ok(Extraction(v, map["html" := HtmlUrl]));
  }

  /** The HTML adapter fails and the PDF text yields a positive value: that
      value is written with the PDF as source. */
  lemma {:induction false} FallbackRecord(html: Retrieval, pdf: string, runYear: int, now: string, v: nat)
    requires RunAdapter(Html, html, runYear).Err?
    requires YearValue(pdf, runYear) == Some(v) && v > 0
    ensures Generate(html, Text(pdf), runYear, now) ==
      Ok(IndicatorRecord(if v == KnownValue then KnownYear else runYear, Indicator, v, Currency,
                         map["pdf" := PdfUrl], now, ParserVersion))
  {
    assert RunAdapter(Pdf, Text(pdf), runYear) == Ok(Extraction(v, map["pdf" := PdfUrl]));
  }

  /** A page whose normalised text holds the release for the run year, with
      no match starting before it, yields the amount of that release. */
  lemma {:induction false} CurrentRelease(text: string, runYear: int, pre: string, v: nat, rest: string)
    requires Collapse(text) == Release(pre, YearToken(runYear), Grouped(v), rest)
    requires rest != [] ==> !IsAmountChar(rest[0])
    requires NoMatchBefore(Collapse(text), |pre|, YearToken(runYear), Phrase)
    ensures YearValue(text, runYear) == Some(v)
  {
    ReleaseLocates(pre, YearToken(runYear), v, rest);
  }

  /** A text that holds the previous year's release, with no match for that
      year before it, and in which no position starts a match for the run
      year (the run year may still occur, say in a date line), gives nothing
      for the run year and the amount of that release through the
      fallback. */
  lemma {:induction false} PreviousRelease(text: string, runYear: int, pre: string, v: nat, rest: string)
    requires Collapse(text) == Release(pre, YearToken(runYear - 1), Grouped(v), rest)
    requires rest != [] ==> !IsAmountChar(rest[0])
    requires NoMatchBefore(Collapse(text), |pre|, YearToken(runYear - 1), Phrase)
    requires forall i :: 0 <= i <= |Collapse(text)| ==> !Viable(Collapse(text), i, YearToken(runYear), Phrase)
    ensures ParseMedian(text, runYear).None?
    ensures YearValue(text, runYear) == Some(v)
  {
    ParseMedianSpec(text, runYear);
    ReleaseLocates(pre, YearToken(runYear - 1), v, rest);
  }

  /** An empty text holds no match for any year. */
  lemma {:induction false} EmptyTextFails(s: Adapter, year: int)
    ensures YearValue("", year).None?
    ensures RunAdapter(s, Text(""), year) == Err(ParseFailed(s))
  {
    assert Collapse("") == "";
    YearAbsentNoMatch("", YearToken(year), Phrase);
    YearAbsentNoMatch("", YearToken(year - 1), Phrase);
  }

  /** Both adapters fail: an empty page, then a PDF request that is not
      ok. The run ends with the PDF adapter's error; the HTML one is lost. */
  lemma {:induction false} BothFail(runYear: int, now: string)
    ensures Generate(Text(""), NotOk, runYear, now) == Err(FetchFailed(Pdf))
    ensures Generate(Text(""), NotOk, runYear, now).error.message == "PDF fetch failed"
  {
    EmptyTextFails(Html, runYear);
    var r := Generate(Text(""), NotOk, runYear, now);
    assert r == Err(FetchFailed(Pdf));
    PdfFetchMessage();
  }

  lemma {:induction false} PdfFetchMessage()
    ensures FetchFailed(Pdf).message == "PDF fetch failed"
  {
    assert Label(Pdf) == "PDF";
  }
}
