# Margin calculators: a Dafny model

This project models the deterministic core of two scripts that compute
profit margins from a company's latest (or a chosen year's) 10-K filing
with the SEC:

- `calculate_margins_xbrl.py` reads the SEC "companyfacts" XBRL payload. It
  resolves each financial figure through an ordered list of us-gaap concept
  names. For each name it flattens the concept's facts across units and
  narrows them with five relaxing stages (period end + 10-K + full year,
  period end + 10-K, 10-K + full year, any 10-K, same calendar year). It keeps
  the most recently filed survivor and takes its value. Gross profit and
  EBITDA are derived when they are not tagged, and four margins are computed
  over net sales.
- `calculate_margins_llm.py` has three parts in the model:
  - the same 10-K selection over the submissions arrays;
  - the same margin arithmetic;
  - the small pure string steps around the language-model call: turning
    table rows into tab/newline text, checking and recovering the JSON
    object in the answer, and the case-insensitive ticker -> CIK lookup.

Everything fetched over HTTP arrives as input data. Python's semantics are
written out where they matter:
- the stable `sort(..., reverse=True)[0]` is "a greatest key, the first such
  in input order" (`Seqs.FirstMaxIndex`);
- string `<=` is lexicographic by code point (`Strings.LexLe`);
- `in` on strings is a substring test;
- `int(...)` on text strips whitespace, takes an optional sign and decimal
  digits with single underscores, and rejects the separators U+001C..U+001F
  that `strip()` would remove (`Strings.PyInt`);
- `zip` stops at the shortest list;
- `re.search(r'\{.*\}', s, re.DOTALL)` matches from the first `{` to the
  last `}`.

Every exception the modelled code raises on the inputs the model admits
becomes a `Failure` of `Values.Result` (the `KeyError`s of malformed JSON
are under "## Left out"):
- `int` of a year prefix or of a CIK failing;
- no 10-K filing;
- an unknown ticker;
- empty model output;
- no JSON object found;
- an undecodable JSON block.

Modules, one file each: `Values`, `Strings`, `Seqs`, `Facts`, `Resolver`,
`Filings`, `Margins`, `Extraction`, `Tickers`, `JsonRecovery`, `TableText`.

## Model

| member | source | states |
|---|---|---|
| Strings.Strip | calculate_margins_llm.py:186 | `str.strip()` as a definition: whitespace removed at either end; its properties are the two lemmas below |
| Strings.StripIsTrimmedSlice | calculate_margins_llm.py:186 | `str.strip()` over Python's whitespace set returns a contiguous slice of the text, with only whitespace before and after it |
| Strings.StripEnds | calculate_margins_llm.py:186 | `str.strip()` gives the empty string exactly when the text is blank, and otherwise text that neither starts nor ends with whitespace |
| Strings.Head | calculate_margins_xbrl.py:211 | `s[:n]`: the first `min(n, len(s))` characters |
| Strings.PyInt | calculate_margins_xbrl.py:211-217 | `int()` on text as a definition: surrounding whitespace, an optional sign, ASCII digits with single underscores, and no U+001C..U+001F separator anywhere; what it reads and rejects is stated by the three lemmas below |
| Strings.SeparatorIsRejected | calculate_margins_llm.py:87 | `int()` raises on text holding a U+001C..U+001F separator anywhere, although `isspace()` holds for it |
| Strings.PyIntOfDecimalString | calculate_margins_llm.py:50 | `int()` reads back the decimal text of any natural number |
| Strings.PyIntOfFourDigits | calculate_margins_llm.py:87 | a date starting with four ASCII digits yields that four-digit year from `int(rdate[:4])` |
| Strings.Upper | calculate_margins_llm.py:49 | `upper()` keeps the length |
| Strings.UpperIdempotent | calculate_margins_llm.py:57 | upper-casing twice is upper-casing once |
| Strings.Contains | calculate_margins_xbrl.py:181 | the `in` test on strings as a definition; ContainsAt and ContainsWitness make it "some slice equals the pattern", both directions |
| Strings.ContainsAt | calculate_margins_xbrl.py:181 | a slice equal to the pattern makes `in` true |
| Strings.ContainsWitness | calculate_margins_xbrl.py:181 | when `in` is true, some slice equals the pattern |
| Strings.LexLe | calculate_margins_llm.py:100 | Python's `<=` on strings as a definition (lexicographic by code point, a prefix first); the three lemmas below make it a total order |
| Strings.LexLeTotal | calculate_margins_llm.py:100 | any two report dates are comparable under Python's string order |
| Strings.LexLeAntisymmetric | calculate_margins_llm.py:100 | two strings each `<=` the other are equal |
| Strings.LexLeTransitive | calculate_margins_xbrl.py:227 | the string order used as sort key is transitive |
| Strings.Join | calculate_margins_llm.py:187-188 | `sep.join(parts)` as a definition; SplitJoin is its inverse |
| Strings.SplitJoin | calculate_margins_llm.py:188 | splitting a one-character join recovers the parts when no part holds the separator |
| Seqs.Filter | calculate_margins_llm.py:104 | a list comprehension with a condition: an order-preserving subsequence holding every element that meets the condition and nothing else, empty exactly when none does; how many copies are kept is stated by Seqs.FilterKeepsEveryCopy |
| Seqs.FilterKeepsEveryCopy | calculate_margins_llm.py:104 | a list comprehension keeps every copy: an element meeting the condition occurs in the result as often as in the list, any other element not at all |
| Seqs.FilterOrigin | calculate_margins_llm.py:104 | the `k`-th kept element sits at some position of the list, and every earlier element meeting the condition is among the first `k` kept |
| Seqs.FilterMembers | calculate_margins_llm.py:109 | an element is kept iff it is in the list and meets the condition |
| Seqs.FirstMaxIndex | calculate_margins_llm.py:100-101 | `sort(reverse=True)[0]` with a stable sort: a greatest key, and no earlier position holds that key |
| Facts.Flatten | calculate_margins_xbrl.py:127-139 | the flattened list has one entry per fact of every unit |
| Facts.FlattenPosition | calculate_margins_xbrl.py:134-138 | fact `k` of unit `u` sits, tagged with its unit, right after all facts of earlier units: every fact exactly once, in order |
| Resolver.FilterFacts | calculate_margins_xbrl.py:170-189 | an order-preserving subsequence whose facts meet every enabled constraint (end equals the target, form contains "10-K" with a missing form read as "", fp is FY, Y or absent), holding every fact that meets them; how many copies are kept is stated by Resolver.FilterFactsKeepsEveryCopy |
| Resolver.FilterFactsKeepsEveryCopy | calculate_margins_xbrl.py:176-189 | facts that are equal in the model are kept or dropped together, every copy |
| Resolver.SameYear | calculate_margins_xbrl.py:210-221 | stage 5 keeps exactly the facts whose end has at least four characters and whose four-character prefix parses to the target year; how many copies are kept is stated by Resolver.SameYearKeepsEveryCopy |
| Resolver.SameYearKeepsEveryCopy | calculate_margins_xbrl.py:212-221 | stage 5 keeps every copy of a fact whose year matches |
| Resolver.StageCandidates | calculate_margins_xbrl.py:191-221 | the candidates are a subsequence of the flattened facts; the only error is an unparsable target year, raised only in stage 5 |
| Resolver.StagesArePipeline | calculate_margins_xbrl.py:193-221 | the cascade equals running the stages strictly in order and taking the first non-empty one; stages 1, 2 and 5 exist only with a target end |
| Resolver.LastResortWithoutTenK | calculate_margins_xbrl.py:201-221 | with no 10-K-family fact, the result is empty without a target, the year error for an unparsable target, and otherwise the same-year facts |
| Resolver.TenKFactShadowsLastResort | calculate_margins_xbrl.py:205-210 | one 10-K-family fact keeps stage 5 from running: the candidates are non-empty, all 10-K-family, and no error is raised |
| Resolver.NoTargetKeepsTenKStages | calculate_margins_xbrl.py:193-210 | without a target end the cascade never fails and only returns 10-K-family facts |
| Resolver.ExactEndPreferred | calculate_margins_xbrl.py:193-199 | a 10-K-family fact for exactly the target end means every candidate has that end and is 10-K-family, and all are full-year if that fact is |
| Resolver.ChosenIndex | calculate_margins_xbrl.py:226-228 | the chosen candidate has a `filed` (missing read as "0000-00-00") at least every other candidate's, and no earlier candidate has the same `filed` |
| Resolver.ResolvedValueIsLatestFiled | calculate_margins_xbrl.py:223-235 | a resolved value is the numeric `val` of a latest-filed candidate, the earliest such |
| Resolver.LatestFiledValueResolves | calculate_margins_xbrl.py:223-235 | conversely, when the latest-filed candidate (the earliest such) has a numeric `val`, the concept resolves to that value |
| Resolver.StageErrorRaises | calculate_margins_xbrl.py:217-219 | a concept with facts whose stages raise makes the concept raise the year error |
| Resolver.NoRetryWithinConcept | calculate_margins_xbrl.py:230-237 | when the chosen fact's `val` is missing or not numeric the concept is passed over, whatever the other candidates hold |
| Resolver.ConceptOutcome | calculate_margins_xbrl.py:162-237 | one concept's turn of the loop: a concept with no facts is passed over, as is one whose stages keep nothing; it raises exactly when it has facts and the stages raise, and the only error is the unparsable target year; ResolvedValueIsLatestFiled, LatestFiledValueResolves and NoRetryWithinConcept state the value in both directions |
| Resolver.FirstResolved | calculate_margins_xbrl.py:161-239 | the result's value and concept are both present or both absent, and a concept comes from the list |
| Resolver.PickFactValue | calculate_margins_xbrl.py:142-239 | `pick_fact_value`: value and concept both present or both absent, a concept from the list asked about; which concept and value come back is stated by PickReturnsFirstResolvingConcept and PickUnresolvedIff over ConceptOutcome |
| Resolver.ResolvedNameIsFirst | calculate_margins_xbrl.py:161-237 | the returned name is the first whose outcome is a value; every earlier name was passed over without error |
| Resolver.FirstResolvingNameIsReturned | calculate_margins_xbrl.py:161-237 | conversely, the first name whose outcome is a value is the one returned, with that value |
| Resolver.UnresolvedIff | calculate_margins_xbrl.py:161-239 | `(None, None)` comes back iff every name is passed over |
| Resolver.FailureIsFirstUndecided | calculate_margins_xbrl.py:161-221 | the loop raises only when the first name not passed over raises |
| Resolver.PickReturnsFirstResolvingConcept | calculate_margins_xbrl.py:159-237 | for `pick_fact_value`: the returned concept is the first in list order that resolves, and every earlier concept was passed over |
| Resolver.PickUnresolvedIff | calculate_margins_xbrl.py:159-239 | `pick_fact_value` returns `(None, None)` iff no concept name resolves |
| Resolver.NoErrorNoFailure | calculate_margins_xbrl.py:161-239 | the loop cannot raise when no name's outcome is an error |
| Resolver.ConceptOutcomeSucceeds | calculate_margins_xbrl.py:209-211 | with a target whose year prefix parses, a concept never raises |
| Resolver.PickSucceedsForParsableTarget | calculate_margins_xbrl.py:211 | with a target whose year prefix parses, `pick_fact_value` never raises |
| Filings.Zip | calculate_margins_llm.py:82 | `zip` of the four arrays: row `i` holds the `i`-th element of each, and the length is that of the shortest array |
| Filings.CollectCandidates | calculate_margins_llm.py:81-93 | building the candidates raises exactly when some 10-K row with a non-empty report date has a year the parse rejects (the metadata step parses with `int(rdate[:4])`) |
| Filings.CandidatesMatchAnnualRows | calculate_margins_llm.py:82-93 | the candidates are the rows with form exactly "10-K" and a non-empty report date, one for one and in order, each carrying that row's accession, document, date and parsed year |
| Filings.CandidateOrigin | calculate_margins_llm.py:82-93 | every candidate was built from a 10-K row with a non-empty report date |
| Filings.CandidatesComeFromAnnualRows | calculate_margins_llm.py:82-93 | every candidate was built from a 10-K row with a non-empty report date (all candidates at once) |
| Filings.LatestIndex | calculate_margins_llm.py:100-101 | the candidate `sort(key=report_date, reverse=True)[0]` returns: a greatest report date, the first such |
| Filings.Latest | calculate_margins_llm.py:106-107 | the returned candidate is in the list, its report date is at least every other's, and no earlier candidate has that date (the stable sort keeps the first of ties) |
| Filings.LatestIsFirstLatest | calculate_margins_llm.py:100-101 | the latest of a whole list is its first latest candidate |
| Filings.LatestOfGroup | calculate_margins_llm.py:103-114 | sorting a filtered group and taking the head gives the group member with the latest report date, no earlier group member having that date, counted in the full list |
| Filings.FirstLatestIsUnique | calculate_margins_llm.py:100-117 | at most one candidate is the first latest of a group, so each rule of the selection determines its result |
| Filings.EarlierYearSelected | calculate_margins_llm.py:109-114 | with no candidate of the target year, the first latest candidate of the years up to it is selected |
| Filings.SelectFiling | calculate_margins_llm.py:95-117 | raises iff there is no candidate; without a year, the first candidate with the latest report date; with one, the first latest of that year's candidates if any, else the first latest of the earlier years, else the first latest overall; a later year only when every candidate is later |
| Filings.FilingFromRows | calculate_margins_llm.py:81-117 | from the joined rows, for any year parse: "no 10-K" iff no row is a 10-K with a report date; the year error iff such a row's year does not parse; otherwise the selection over the candidates, built from such a row; it succeeds exactly when some such row exists and every such row's year parses, and raises nothing else |
| Filings.GetTenKMetadata | calculate_margins_llm.py:75-117 | "no 10-K" iff no row is a 10-K with a report date; the year error iff such a row's year does not parse; success exactly when some such row exists and every such year parses, and then the selection over the candidates, built from such a row; no other error |
| Filings.UniqueYearMatchIsSelected | calculate_margins_llm.py:103-108 | the only candidate of the target year is selected, wherever it sits |
| Filings.NearestEarlierYearExample | calculate_margins_llm.py:109-114 | candidates for 2020, 2021 and 2023 with target 2022 give the 2021 filing, not the later one, whenever the 2021 report date sorts after the 2020 one |
| Filings.NearestEarlierYearWithDates | calculate_margins_llm.py:109-114 | the same with report dates "2020-12-31", "2021-12-31" and "2023-12-31" |
| Margins.SafeDiv | calculate_margins_llm.py:345-351 | `safe_div` is defined exactly when both sides are numbers and the denominator is non-zero, and then times the denominator gives the numerator |
| Margins.ComputeMargins | calculate_margins_llm.py:336-365 | each of the four margins is its numerator over net sales, defined exactly when both are numbers and net sales is non-zero |
| Margins.RatioIsUnique | calculate_margins_xbrl.py:302-308 | the ratio property determines the margin: any two values meeting it are equal |
| Margins.ScaledRatio | calculate_margins_xbrl.py:302-308 | one ratio is unchanged when numerator and denominator are scaled by the same non-zero factor |
| Margins.MarginsScaleInvariant | calculate_margins_xbrl.py:316-321 | the margins do not depend on the reporting scale: scaling every figure by a non-zero factor gives the same margins |
| Margins.MissingNetSalesGivesNoMargins | calculate_margins_xbrl.py:303-304 | a missing or zero net sales makes every margin None |
| Margins.WorkedExample | calculate_margins_xbrl.py:293-322 | figures 1000, 400, 200, 100, 250 give margins 0.1, 0.4, 0.2 and 0.25 |
| Margins.NonNumericFigureIsIsolated | calculate_margins_llm.py:348-351 | a figure `float` rejects leaves only its own margin undefined |
| Extraction.DeriveGrossProfit | calculate_margins_xbrl.py:381-388 | a tagged gross profit is kept; otherwise, with both inputs, the derived label and a value that plus cost of revenue gives net sales; otherwise unchanged |
| Extraction.DeriveEbitda | calculate_margins_xbrl.py:405-412 | a tagged EBITDA is kept; otherwise, with both inputs, the derived label and a value that minus D&A gives operating income; otherwise unchanged |
| Extraction.ExtractWith | calculate_margins_xbrl.py:352-412 | the results dictionary has the target end and "USD"; net sales, cost of revenue, operating income, net income and D&A are their own lookups; gross profit is its lookup when tagged or an input is missing, else the derived label with a value that plus cost of revenue gives net sales, and EBITDA likewise from operating income and D&A; each figure's concept comes from its own list or its derivation label; it raises iff one of the seven lookups raises |
| Extraction.DerivedOnlyWhenUntagged | calculate_margins_xbrl.py:381-412 | a tagged gross profit or EBITDA is never overwritten, and the derived label appears iff the tagged lookup found nothing and both inputs are present |
| Extraction.PickAt | calculate_margins_xbrl.py:372 | `pick_fact_value` against the report date gives paired answers from the list asked about |
| Extraction.ExtractFinancials | calculate_margins_xbrl.py:345-412 | the extraction in `main` raises iff one of the seven `pick_fact_value` calls raises; otherwise it carries the report date and "USD", stores each lookup's answer with gross profit and EBITDA derived as above, and every concept is from its own list or, for gross profit and EBITDA, the derivation label |
| Extraction.ExtractionSucceeds | calculate_margins_xbrl.py:345-412 | for a report date whose year prefix parses, the extraction does not raise |
| Extraction.MarginsOf | calculate_margins_xbrl.py:293-322 | the XBRL margins are the four ratios over net sales, with absent figures giving None |
| Extraction.DerivedGrossMargin | calculate_margins_xbrl.py:383-386 | with a derived gross profit, the gross margin is one minus cost of revenue over net sales |
| Tickers.CikOf | calculate_margins_llm.py:50 | `int(entry["cik_str"])`: a number is kept; text is the CIK error exactly when `int` rejects it, and otherwise its `int` value |
| Tickers.CikOfDecimalText | calculate_margins_llm.py:50 | a CIK published as decimal text is read back as that number |
| Tickers.BuildTickerMap | calculate_margins_llm.py:46-52 | building raises iff some entry's CIK is rejected, and then with the CIK error |
| Tickers.MapKeysAreTickers | calculate_margins_llm.py:48-51 | the map's keys are exactly the upper-cased tickers of the entries |
| Tickers.LastEntryWins | calculate_margins_llm.py:48-51 | a key maps to the CIK of the last entry with that upper-cased ticker |
| Tickers.CikForTicker | calculate_margins_llm.py:46-60 | a found CIK belongs to the last entry whose upper-cased ticker equals the upper-cased query; "not found" iff the map builds and no entry matches; the CIK error iff some entry's CIK is rejected, wherever it sits; found exactly when every CIK is accepted and some entry's upper-cased ticker matches, and no other error |
| Tickers.LookupIgnoresCase | calculate_margins_llm.py:57 | looking up a ticker and its upper-cased form give the same answer |
| Tickers.DuplicateTickerExample | calculate_margins_llm.py:48-51 | entries "abc" -> 1 then "ABC" -> 2 make "Abc" look up 2 |
| JsonRecovery.RecoverObjectText | calculate_margins_llm.py:318-324 | a block is found iff some `{` has a `}` after it; the block starts with `{` and ends with `}` |
| JsonRecovery.RecoveredIsLeftmostLongest | calculate_margins_llm.py:318 | the block is the contiguous slice from the first `{` to the last `}`: among all `{...}` spans it starts first and reaches furthest |
| JsonRecovery.RecoverFromProse | calculate_margins_llm.py:316-324 | an object surrounded by prose with no `{` before it and no `}` after it is recovered exactly |
| JsonRecovery.DecodeResponse | calculate_margins_llm.py:309-331 | the empty-content error iff the content is null, empty or blank; non-blank text that decodes is the answer; otherwise "no JSON object" iff there is no `{...}` span, and with a span the decoded block, or the decode error exactly when the block does not decode |
| JsonRecovery.ObjectInProseIsDecoded | calculate_margins_llm.py:316-326 | an answer wrapping one decodable object in brace-free prose, and not decodable as a whole, decodes to that object |
| JsonRecovery.PureJsonIsTakenWhole | calculate_margins_llm.py:313-314 | a non-blank answer that decodes is returned as decoded |
| JsonRecovery.ProseExample | calculate_margins_llm.py:318-324 | `Sure! {"net_sales": 500}` yields `{"net_sales": 500}` |
| TableText.KeptRows | calculate_margins_llm.py:186-187 | the kept rows are an order-preserving subsequence holding every row with a non-blank cell and only such rows; how many copies are kept is stated by TableText.KeptRowsKeepEveryCopy |
| TableText.KeptRowsKeepEveryCopy | calculate_margins_llm.py:183-187 | a repeated row with content is kept as often as it occurs |
| TableText.TableToText | calculate_margins_llm.py:182-188 | the text is empty iff no row has a non-blank cell |
| TableText.TableRoundTrip | calculate_margins_llm.py:183-188 | with cells free of tabs and newlines, splitting the text at newlines and tabs gives back exactly the kept rows |
| TableText.BlankRowsDropped | calculate_margins_llm.py:186-188 | a row of blank cells and a row with no cells are dropped |

## Left out

- Network I/O: every `requests` call is left out. This covers the ticker list, the submissions, the companyfacts, the 10-K document and the DeepSeek POST. Their decoded JSON is an input.
- `find_income_statement_table` and the BeautifulSoup cell extraction in `html_table_to_text` are left out. They are library heuristics; a table arrives as its rows of cell texts.
- `json.loads`: it is the parameter `loads` of `JsonRecovery.DecodeResponse`, with `None` standing for `JSONDecodeError`.
- The DeepSeek prompt and payload, and the check for an `"error"` key in the response envelope, are left out. The first is plumbing; the second is the remote API's protocol.
- Floating point: amounts are `real`, and `float(...)` is abstracted as `Values.Val`. `Val` separates a missing value, a value `float` rejects, and a number. NaN, infinities, rounding and the `.4f`/`.2f` formatting are left out.
- Margins.SafeDiv: a numerator and denominator `float` accepts are given as `Num`. Python's `den in (None, 0)` test and the `ZeroDivisionError` that `float(num) / float(den)` raises for a denominator such as `"0"` (caught, giving None) therefore collapse into one case, a zero denominator. The outcome is the same in both cases.
- `main`'s printing, argv parsing, TSV debug file writes and `sys.exit` are left out. So are the URL building (`zfill(10)`, removing the dashes from accession numbers) and the four download scripts.
- Strings.Upper: only ASCII letters are upper-cased. Python's full Unicode case mapping is not modelled.
- Strings.PyInt: only ASCII digits are accepted. Python's `int` also accepts other Unicode decimal digits.
- Facts.FormOf: a JSON `null` "form" or "filed" is read as absent. Python would raise `TypeError` on `"10-K" in None`, or when comparing `None` sort keys.
- Tickers.CikOf: a `cik_str` that is a JSON float (which `int` truncates) is not modelled. The SEC publishes an integer.
- Filings.GetTenKMetadata: report dates and forms are strings. A JSON `null` in those arrays is not modelled.
- Tickers.BuildTickerMap: a directory entry without a "ticker" or "cik_str" key (a `KeyError` in Python) is not modelled; a `TickerEntry` always has both.
