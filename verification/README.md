# dgbas-median in Dafny

A model of `src/scrape.js` of dgbas-median. The script reads Taiwan's median monthly regular earnings from the DGBAS English press release. It tries the HTML page first and the PDF of the same release second. It writes the value, with provenance, to `public/median.json`.

The model is functional, like the script's own logic:

- `Whitespace` models the normalisation `text.replace(/\s+/g, " ")`.
- `Numerals` covers how the year is written into the pattern and how the captured amount is read back: commas removed, then `Number(...)`.
- `Locator` models `parseMedian`. It writes the regular expression `In\s+<year>[\s\S]*?median\s+monthly\s+regular\s+earnings\s+was\s+NT\$([\d,]+)` with flag `i` as a deterministic search:
  - the leftmost start wins;
  - the lazy gap takes the first phrase after the year;
  - the greedy group takes the maximal run of digits and commas;
  - every `\s+` takes the maximal run of whitespace.

  `IsFirstMatch` states which start, phrase and amount a backtracking matcher reports, and `FirstMatchIsLeftmost` proves that the search finds exactly that match. The pieces `IsFirstMatch` is built from read each `\s+` as the maximal run. `PrefixEndExact`, `WordsEndExact` and `ViableExact` prove that this loses nothing: in the regular expression's own reading, where `\s+` may take any non-empty run of whitespace, the same matches exist and they end at the same places.
- `Scrape` models the rest:
  - the adapters `parseHtml` and `parsePdf`, with the `?? parseMedian(text, year - 1)` fallback and the `!value` check;
  - the try/catch in `main` that runs the PDF adapter only after the HTML adapter fails;
  - the record that is written, whose year is pinned to 2024 for the value 37274.

What the fetch and decode steps deliver is an input of type `Retrieval`: the decoded text, a response that is not ok, or a thrown error. The run year and the timestamp are parameters.

## Model

| member | source | states |
|---|---|---|
| Whitespace.IsSpaceExactly | src/scrape.js:18 | `\s` matches exactly the 25 characters of the ECMAScript WhiteSpace and LineTerminator sets, listed one by one, and no other |
| Whitespace.RunEnd | src/scrape.js:18 | a greedy `\s+` at `j` consumes exactly the maximal run of whitespace: every character before the returned end is whitespace and the one at the end is not |
| Whitespace.Collapse | src/scrape.js:18 | the output is no longer than the input, and its first and last characters are the input's, with whitespace turned into ' ': a leading or trailing run becomes one space and is not trimmed |
| Whitespace.CollapseIsNormal | src/scrape.js:18 | after normalising, every whitespace character is ' ' and no two whitespace characters are adjacent |
| Whitespace.CollapseFixesExactlyNormal | src/scrape.js:18 | a text is left unchanged by normalising if and only if it is already normal |
| Whitespace.CollapseIdempotent | src/scrape.js:18 | normalising twice equals normalising once |
| Whitespace.CollapseKeepsVisible | src/scrape.js:18 | the non-whitespace characters are kept, in order, and none is added |
| Whitespace.CollapseRun | src/scrape.js:18 | a maximal whitespace run of any length and any whitespace characters, wherever it stands in the text, becomes exactly one ' ', and the text on either side is normalised on its own |
| Whitespace.CollapseSplit | src/scrape.js:18 | the global replace works piece by piece: normalising a concatenation cut after a non-whitespace character equals normalising each piece |
| Numerals.NatToString | src/scrape.js:20 | `${year}` is a non-empty digit string with no leading zero except for 0 |
| Numerals.DecimalAppend | src/scrape.js:24 | `Number` of a digit string is positional: the value of `a + b` is the value of `a` times 10 to the power of the length of `b`, plus the value of `b`; leading zeros add nothing |
| Numerals.DecimalRoundTrip | src/scrape.js:24 | reading back the decimal rendering of `n` gives `n` |
| Numerals.StripCommas | src/scrape.js:24 | `replace(/,/g, "")` leaves no comma, never lengthens the text, and leaves only digits when given digits and commas |
| Numerals.StripCommasAppend | src/scrape.js:24 | removing commas distributes over concatenation |
| Numerals.AmountValueSkipsComma | src/scrape.js:24 | a comma anywhere in the captured run is dropped: the run with it and without it read as the same number |
| Numerals.CommasOnlyIsZero | src/scrape.js:24 | a capture made only of commas reads as 0 (`Number("")`) |
| Numerals.GroupedRoundTrip | src/scrape.js:24 | any value written with thousands separators reads back as itself |
| Numerals.PublishedAmount | src/scrape.js:24 | the published amount `37,274` reads as 37274 |
| Numerals.GroupShape | src/scrape.js:24 | an amount written with thousands separators has a leading block of one to three digits, and every comma is followed by exactly three digits and then another comma or the end |
| Numerals.PublishedGrouping | src/scrape.js:24 | 37274 written with thousands separators is `37,274`, the form the release prints |
| Locator.Lower | src/scrape.js:21 | the `i` flag maps each ASCII capital to its own small letter (the code point 32 higher) and leaves every other character alone |
| Locator.YearToken | src/scrape.js:20 | `${year}` is the year's decimal text: non-empty and not starting with whitespace; for a year of zero or more, digits that read back as the year with no leading zero unless the year is 0; for a negative year, '-' followed by digits that read back as its magnitude |
| Locator.YearTokenInjective | src/scrape.js:33 | different years give different year texts, so the fallback for `year - 1` searches for a different pattern than the first attempt |
| Locator.WordsEnd | src/scrape.js:20 | a match of `w0\s+w1...` at `k` starts with the first word (up to case), ends inside the text, and when there is a second word the first is followed directly by whitespace and the second starts where that run of whitespace ends |
| Locator.GluedWordsNoMatch | src/scrape.js:20 | two words written with no whitespace between them do not match `w0\s+w1...`: `\s+` needs at least one whitespace character |
| Locator.PhraseAt | src/scrape.js:20 | a phrase match at `k` ends exactly where the words matched at `k` end, and a digit or comma stands there inside the text, as `([\d,]+)` requires |
| Locator.AmountRun | src/scrape.js:20 | the greedy group holds only digits and commas, lies inside the text, and is not followed by another digit or comma |
| Locator.AmountRunSlice | src/scrape.js:20 | the greedy group is the text itself from the start position on; with `AmountRun` and `AmountRunIs` this characterises the capture exactly |
| Locator.AmountRunIs | src/scrape.js:20 | a run of digits and commas that is not followed by another one is exactly what the greedy group captures |
| Locator.PrefixEnd | src/scrape.js:20 | when `In\s+<year>` matches at `i`: `In` in any case stands at `i`, whitespace follows it, the year starts where that run of whitespace ends, and the match ends right after the year, inside the text |
| Locator.PrefixEndExact | src/scrape.js:20 | `PrefixEnd` returns `e` exactly when the regular expression, with `\s+` free to take any non-empty run of whitespace, can match `In\s+<year>` from `i` to `e`; so only the maximal run can succeed |
| Locator.WordsEndExact | src/scrape.js:20 | `WordsEnd` returns `e` exactly when the regular expression, with every `\s+` free to take any non-empty run of whitespace, can match `w0\s+w1...` from `k` to `e` |
| Locator.ViableExact | src/scrape.js:20 | the search's test for a start position holds exactly when the regular expression can match the prefix there and, at or after its end, the phrase words followed by a digit or comma |
| Locator.Leftmost | src/scrape.js:23 | the search returns the least position in range that satisfies the test, and None only when none does |
| Locator.FirstPhrase | src/scrape.js:20 | the lazy gap ends at the first phrase occurrence at or after the year; None exactly when there is none |
| Locator.MatchesAt | src/scrape.js:20 | the search's test for a start position is equivalent to the specification predicate `Viable` |
| Locator.FirstMatchIsLeftmost | src/scrape.js:19-23 | the match `FirstMatch` finds is the one `IsFirstMatch` describes (leftmost viable start, first phrase after it, maximal amount run), and there is none exactly when no start is viable |
| Locator.FirstMatchUnique | src/scrape.js:19-23 | at most one match meets that description |
| Locator.LocateSpec | src/scrape.js:23-24 | the value `Locate` returns is None exactly when no start is viable, and otherwise the amount of the match that `IsFirstMatch` describes |
| Locator.ParseMedianSpec | src/scrape.js:17-25 | `parseMedian` returns `null` exactly when no start position of the normalised text is viable for the year, and otherwise the number read from the amount of the match a backtracking matcher reports there |
| Locator.ParseMedianSeesNormalForm | src/scrape.js:17-18 | only the normalised text matters: feeding normalised text gives the same result |
| Locator.JoinMatches | src/scrape.js:20 | the words joined by single spaces match `w0\s+w1...` and the match ends where the joined text ends |
| Locator.SentenceLocates | src/scrape.js:17-24 | a text made of a prefix, `In` in any case, one space, the year, a gap, the phrase, an amount and anything that does not continue the amount yields the value of that amount whenever no match starts in the prefix and no phrase occurrence starts in the gap |
| Locator.LeadFreeNoEarlierMatch | src/scrape.js:20 | when the prefix holds no `in` in any case, no match starts in it |
| Locator.GapWithoutInitial | src/scrape.js:20 | when no character of the gap is the first letter of the phrase in any case, no phrase occurrence starts in the gap |
| Locator.NoSpaceNoMatch | src/scrape.js:20 | when no `In` is followed by whitespace there is no match: at least one whitespace character is required |
| Locator.YearAbsentNoMatch | src/scrape.js:20 | a text that never holds the year has no match |
| Locator.MatchesInsideWords | src/scrape.js:20 | the pattern is not anchored to words: `Within 20245 median ... NT$1.` yields 1 for the year 2024 |
| Locator.ParseMedianIgnoresCase | src/scrape.js:19-22 | texts that differ only in the case of ASCII letters yield the same value |
| Scrape.YearValue | src/scrape.js:33 | `??`: a value exists iff the run year or the year before matches; the run year's result wins whenever it exists, even when it is 0; the year before is consulted only when the run year gives None |
| Scrape.YearValueSpec | src/scrape.js:33 | the fallback is taken exactly when no start position is viable for the run year; otherwise the value is the amount of the run year's first match |
| Scrape.RunAdapter | src/scrape.js:27-46 | an adapter succeeds iff it got text whose value exists and is not 0; a success has a positive value and exactly one source key, holding that adapter's URL; a response that is not ok gives "fetch failed", a thrown error propagates, and text without a usable value gives "parse failed" |
| Scrape.Orchestrate | src/scrape.js:48-55 | the HTML adapter runs first; on success its result is final and the PDF adapter is not run; on any failure the PDF adapter runs once and its outcome, success or error, is final |
| Scrape.PdfUnusedAfterHtml | src/scrape.js:51-55 | after an HTML success, whatever the PDF source would deliver makes no difference |
| Scrape.BuildRecord | src/scrape.js:57-65 | the year is 2024 when the value is 37274 and the run year otherwise; value and source are copied unchanged; the constant fields and the timestamp are as given |
| Scrape.Generate | src/scrape.js:48-65 | a record is written iff one adapter succeeds; it holds a positive value and exactly one source, the HTML one whenever HTML succeeds; a failed run reports the PDF adapter's error |
| Scrape.ReleaseLocates | src/scrape.js:17-24 | the release sentence `In <year>, the median monthly regular earnings was NT$<amount>` yields the amount for any amount written with thousands separators, whatever follows it that does not continue the amount, when no match starts before it |
| Scrape.HtmlRecord | src/scrape.js:57-65 | a page with a positive value for the run year produces the full record with the HTML source, dated 2024 when the value is 37274 |
| Scrape.FallbackRecord | src/scrape.js:51-65 | when HTML fails and the PDF text has a positive value, the full record with the PDF source is written |
| Scrape.CurrentRelease | src/scrape.js:33 | a page holding the run year's release, with no match for the run year before it, yields that release's amount |
| Scrape.PreviousRelease | src/scrape.js:33 | a text holding the previous year's release, with no match for that year before it, and with no position that starts a match for the run year (the run year may still occur), gives None for the run year and that release's amount through the fallback |
| Scrape.EmptyTextFails | src/scrape.js:33-34 | an empty text has no value for either year, so the adapter fails with "parse failed" |
| Scrape.BothFail | src/scrape.js:51-55 | when both adapters fail the run ends with the PDF error ("PDF fetch failed"); the HTML error is lost |

## Left out

- Network access, the `res.ok` status test and reading the body are not modelled. Their outcome is the `Retrieval` input: text, a response that is not ok, or a thrown error with its message.
- The HTML text extraction with cheerio (`$("body").text()`) and the PDF text extraction with pdf-parse are not part of this model. They are foreign code, and their output is the text in `Retrieval`.
- The clock (`new Date().getUTCFullYear()` and `toISOString()`) is not modelled: the run year and the timestamp are parameters.
- The file system (`mkdir`, `writeFile`), JSON serialisation, the console and `process.exit(1)` are not modelled. `Generate` returns the record, or the error that would be printed before exiting with status 1.
- Asynchrony is not modelled: the `await` steps run in sequence, so the model is sequential.
- Numerals.AmountValue: does not model `Number` precision above 2^53, because it returns the exact integer where JavaScript would round; amounts on the page are far below that bound.
- Strings are sequences of Unicode scalar values, not UTF-16 code units, so a lone surrogate in the page text cannot be expressed.
- Locator.Lower: folds ASCII capitals only, because with the `i` flag and no `u` flag no non-ASCII character matches an ASCII letter of this all-ASCII pattern.
- The search functions take the year text and the phrase words as parameters. `ParseMedian` supplies `${year}` and the fixed words. No other regular expression is modelled.
- The scenario lemmas (`SentenceLocates`, `ReleaseLocates`, `CurrentRelease`, `PreviousRelease`) describe texts that hold the sentence laid out with single spaces after normalisation. The general behaviour is stated by `LocateSpec`, `ParseMedianSpec` and `FirstMatchIsLeftmost`.
