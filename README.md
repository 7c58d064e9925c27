# naver-etf-scraper core, modelled in Dafny

This project models the computational core of a Korean ETF data collector.
It covers three source files.

- **`src/analyzer.py`** turns per-security dividend payout events into one
  profile per security. The events are `(code, ex-dividend date text,
  amount)`. Each profile holds:
  - a payout-frequency class (월배당, 분기배당, 반기배당, 연배당, 배당없음);
  - the trailing one-year payout total;
  - a year-over-year growth rate, with a fixed policy for zero bases.
- **`src/processor.py`** normalises scraped text fields:
  - Korean magnitude strings ("1조 2억", "1,000") become numbers counted
    in 억;
  - `"label(num%), …"` ratio strings become ordered label→value maps;
  - each row's ratio map is spread into ranked `prefix_i` / `prefix_i_pct`
    columns of a table.
- **`src/scraper.py`** shapes JSON responses into flat records:
  - `YYYYMMDD` dates become `YYYY-MM-DD`;
  - sector and country weight lists become the top-N string that
    `parse_ratio_string` reads back;
  - the basic-quote and analysis records are built from the JSON fields.

Modules:

| module | file | content |
|---|---|---|
| `Py` | py.dfy | `Option`, and `Outcome` (a value, or a raised Python exception) |
| `Text` | text.dfy | `str.strip`, `split`, `join`, digit strings, `str(int)` |
| `Numbers` | numbers.dfy | decimal text parsing (`float()`), JSON number rendering (`str(float)`), two-decimal rounding |
| `Dates` | dates.dfy | calendar dates, instants, subtracting years, ISO parsing |
| `Seqs`, `Sorting`, `Ordering` | seqs.dfy, sorting.dfy, ordering.dfy | filter, sum and map over sequences; Python's stable `sorted(..., reverse=True)`; the group-key order of `groupby` |
| `Json` | json.dfy | JSON values, `dict.get`, truthiness, `str()` of a value |
| `Analyzer` | analyzer.dfy | `analyze_dividend_metrics` and `_calculate_metrics` |
| `Processor` | processor.dfy | `convert_to_number` and `parse_ratio_string` |
| `Frames` | frames.dfy | the DataFrame, as the class `Frame` over a column table; `split_ratio_columns` and `preprocess_etf_data` |
| `Scraper` | scraper.dfy | `_format_date`, `_parse_weight_list`, `parse_etf_basic`, `parse_etf_analysis` |
| `RatioRoundTrip` | ratio_roundtrip.dfy | `parse_ratio_string` reading back what `_parse_weight_list` writes |

Modelling decisions:

- **Clock.** The evaluation instant `now` is a parameter. It is a date plus a
  microsecond tick within the day, because `datetime.now()` carries a time
  of day. Payout dates are at midnight, so the event exactly one year back
  counts only when `now` is itself at midnight.
- **Exceptions.** Python exceptions are the `Raised` outcome. Examples are
  `float("1.2.3")` inside `convert_to_number`, and a non-dict where
  `.get` is called.
- **Numbers.** Numbers are exact reals. A JSON number is an `Int` or a
  decimal `Float(mantissa, scale)`, printed as its plain decimal text.
- **Dicts.** Python dicts that keep insertion order are sequences of
  `(label, value)` pairs with distinct labels.
- **Tables.** A table is a column order, a map from column name to cells,
  and a height. A cell is `Null`, `Num` or `Str`.

`convert_to_number` is not total. Its `float()` calls on the 조 and 억
groups (`src/processor.py:16` and `:21`) are outside the `try` at
`src/processor.py:25-29`. So a unit-prefixed number with two dots, such as
"1.2.3조", raises `ValueError` (`Processor.ConvertRaises`).

## Model

| member | source | states |
|---|---|---|
| Analyzer.NormaliseDate | src/analyzer.py:17-18 | a date is produced only from some text, and it is a valid calendar date inside the pandas timestamp range; anything else is unknown |
| Analyzer.DottedDateRead | src/analyzer.py:17-18 | every valid date written `YYYY.MM.DD` is read back as that same date (dots replaced by dashes, then parsed) |
| Analyzer.IsoDateRead | src/analyzer.py:17-18 | a date already in `YYYY-MM-DD` form is read back as itself |
| Analyzer.NormaliseAmount | src/analyzer.py:21 | a numeric amount is kept, a missing amount becomes 0, and text that is not a decimal becomes 0 |
| Analyzer.AmountTextRead | src/analyzer.py:21 | an amount given as the text of a JSON number is read as that number's value |
| Analyzer.Normalise | src/analyzer.py:14-21 | no row is dropped or reordered; each row keeps its code and gets its normalised date and amount |
| Analyzer.OneYearAgo | src/analyzer.py:40 | one year back is a valid instant strictly before `now` |
| Analyzer.TwoYearsAgo | src/analyzer.py:70 | two years back is a valid instant strictly before one year back |
| Analyzer.InRecent | src/analyzer.py:41 | an event in the recent window has a known date |
| Analyzer.InPrior | src/analyzer.py:71 | an event in the prior window has a known date and is not in the recent window |
| Analyzer.Frequency | src/analyzer.py:41-43 | the count is at most the group size, and is 0 if and only if no event of the group is recent |
| Analyzer.LastTotal | src/analyzer.py:67 | with non-negative amounts the trailing-year total is non-negative |
| Analyzer.PriorTotal | src/analyzer.py:71 | with non-negative amounts the prior-year total is non-negative |
| Analyzer.WindowNonNegative | src/analyzer.py:67-71 | the sum of any window of non-negative amounts is non-negative |
| Analyzer.WindowsDisjoint | src/analyzer.py:67-71 | no event is in both the recent and the prior window, and the two-year window is exactly their union |
| Analyzer.UnknownDateInNoWindow | src/analyzer.py:41 | an event with an unknown date is in no window |
| Analyzer.FutureEventIsRecent | src/analyzer.py:41 | the recent window has no upper bound: an event dated after `now` counts as recent |
| Analyzer.AnniversaryCountsAtMidnightOnly | src/analyzer.py:40-41 | an event on the date exactly one year back is recent if and only if `now` is at midnight |
| Analyzer.TwoYearTotal | src/analyzer.py:67-71 | the payouts of the last two years are the trailing-year total plus the prior-year total |
| Analyzer.LabelInjective | src/analyzer.py:45-54 | distinct frequency classes carry distinct Korean labels |
| Analyzer.Classify | src/analyzer.py:45-54 | the class's threshold never exceeds the frequency; 배당없음 exactly when the frequency is 0; 월배당 exactly when it is at least 10 |
| Analyzer.ClassifyHighest | src/analyzer.py:45-54 | first-match: the chosen class is the highest one whose threshold the frequency reaches |
| Analyzer.ClassifyMonotone | src/analyzer.py:45-54 | more payouts never give a lower class |
| Analyzer.Growth | src/analyzer.py:73-80 | the four-way policy: the relative change in percent when both totals are positive; 100 from a zero base; −100 down to zero; 0 in every other case |
| Analyzer.GrowthFloor | src/analyzer.py:73-80 | with non-negative totals the rate is at least −100, and exactly −100 if and only if prior > 0 and last = 0 |
| Analyzer.GrowthSign | src/analyzer.py:73-80 | with non-negative totals the rate is positive if and only if last > prior, and negative if and only if last < prior |
| Analyzer.GrowthInverse | src/analyzer.py:74-75 | applying the rate to a positive prior total gives back the trailing total |
| Analyzer.CalculateMetrics | src/analyzer.py:28-86 | the class is that of the trailing-year count; the total and the rate are within 0.005 of the exact trailing sum and growth; the rate is present exactly for a non-empty group |
| Analyzer.NoDividendMetrics | src/analyzer.py:60-86 | a group classed 배당없음 has trailing total 0 and a growth rate of 0 or −100 |
| Analyzer.RoundedTotalNonNegative | src/analyzer.py:60-85 | with non-negative amounts the reported (rounded) trailing total is non-negative, for empty groups too |
| Analyzer.RoundedGrowthFloor | src/analyzer.py:73-85 | with non-negative amounts the reported (rounded) rate is never below −100 |
| Analyzer.MetricsPermutation | src/analyzer.py:33 | the per-group metrics do not depend on the order of the events, so the date sort changes nothing |
| Analyzer.UnknownDateIrrelevant | src/analyzer.py:41 | adding an event with an unknown date to a non-empty group does not change its metrics |
| Analyzer.GroupOf | src/analyzer.py:24 | every event of a group carries the group's code |
| Analyzer.GroupNonEmpty | src/analyzer.py:24 | a code has a non-empty group if and only if some event carries it |
| Analyzer.KnownCodes | src/analyzer.py:24 | the group keys are exactly the codes with a non-empty group; rows with no code are dropped |
| Analyzer.AnalyzeDividendMetrics | src/analyzer.py:6-26 | empty input gives an empty result; one row per distinct code, in increasing code order; each row holds the metrics of its group; every rate is present |
| Analyzer.AnalyzeOrderIndependent | src/analyzer.py:24 | two inputs with the same events in any order give the same result |
| Dates.SubtractYears | src/analyzer.py:40 | `DateOffset(years=n)`: same month and day n years back, with 29 February clamped to 28 February in a common year |
| Dates.YearsBefore | src/analyzer.py:70 | one or more years back is strictly earlier than `now` |
| Dates.YearsBeforeOrdered | src/analyzer.py:70 | two years back is before one year back, so the prior window is well ordered |
| Dates.BeforeTransitive | src/analyzer.py:41 | the instant order is transitive |
| Dates.BeforeTotal | src/analyzer.py:41 | the instant order is total and asymmetric |
| Dates.ParseIso | src/analyzer.py:18 | a parsed date is valid, in range, and prints back as exactly the parsed text |
| Dates.ParseFormatIso | src/analyzer.py:18 | every valid in-range date printed in ISO form is parsed back to itself |
| Dates.FormatWith | src/analyzer.py:16-18 | a date printed with a separator is ten characters: four, two and two digits with the separator after the year and the month |
| Dates.DottedToIso | src/analyzer.py:17 | replacing dots by dashes turns the dotted form of a date into its ISO form |
| Ordering.SortedKeys | src/analyzer.py:24 | the group keys are strictly increasing and are exactly the codes present |
| Ordering.SortedKeysBySet | src/analyzer.py:24 | the key order depends only on the set of codes |
| Ordering.IncreasingUnique | src/analyzer.py:24 | two strictly increasing key sequences with the same members are equal |
| Ordering.LessTransitive | src/analyzer.py:24 | string order is transitive |
| Ordering.LessTotal | src/analyzer.py:24 | string order is total and asymmetric |
| Seqs.FilterPermutation | src/analyzer.py:43 | reordering events does not change which events a window selects or how many |
| Seqs.FilterEmpty | src/analyzer.py:43 | a filter is empty if and only if no element passes it |
| Seqs.SumOfPermutation | src/analyzer.py:67 | reordering events does not change a window's sum |
| Numbers.ParseDecimal | src/processor.py:27 | `float()` on digits, `.` and `-`: it accepts exactly the decimal forms; the result is ≤ 0 after a leading minus and ≥ 0 otherwise |
| Numbers.RenderRoundTrip | src/processor.py:27 | the text of a JSON number parses back to its value |
| Numbers.ParseDigits | src/processor.py:27 | a digit string parses to its decimal value |
| Numbers.Round2 | src/analyzer.py:83-85 | `round(x, 2)` is within 0.005 of x |
| Numbers.Round2Exact | src/analyzer.py:83-85 | a value with at most two decimals is unchanged by rounding |
| Numbers.Round2Monotone | src/analyzer.py:83-85 | rounding preserves order |
| Text.Split | src/processor.py:47 | the parts contain no separator, and joining them with it gives back the text |
| Text.SplitJoinCommaSpace | src/processor.py:47 | splitting a `", "`-joined list at commas gives the first part and the other parts each led by one space |
| Text.StripLeadingSpace | src/processor.py:50 | stripping removes leading whitespace and keeps a stripped tail unchanged |
| Text.NatToString | src/scraper.py:55 | the decimal text of n has no leading zero and reads back as n |
| Processor.ConvertToNumber | src/processor.py:5-31 | a missing value gives 0, a number is kept, and text goes through the text conversion |
| Processor.ConvertText | src/processor.py:7-10 | a blank token ("-", "", "N/A", "null" after stripping) gives 0; otherwise the commas are removed, the text is stripped and converted |
| Processor.UnitMatchAt | src/processor.py:14 | a match of `(-?[\d.]+)\s*unit` starting at position i yields a non-empty number made of digits, dots and minus signs, which is exactly the text at that position |
| Processor.UnitSearch | src/processor.py:14 | the group `re.search` finds is a non-empty number made of digits, dots and minus signs |
| Processor.UnitSearchNone | src/processor.py:14-15 | the search finds nothing if and only if the pattern matches at no position |
| Processor.UnitSearchFirst | src/processor.py:14 | the search is leftmost: when the first match is at position j, the search returns the group matched there |
| Processor.UnitTerm | src/processor.py:14-21 | no unit match adds 0; the term raises exactly when the matched group is not a valid `float`; otherwise it is `float(group)` |
| Processor.UnitTotal | src/processor.py:11-21 | the total raises exactly when the 조 or the 억 term raises; otherwise it is 10000 × the 조 number + the 억 number, and 0 when neither unit matches |
| Processor.ConvertCleaned | src/processor.py:11-31 | raises exactly when the unit total raises; a non-zero unit total is the result; a unit total of 0 falls back to the digit parse |
| Processor.Fallback | src/processor.py:24-29 | the `[0-9.-]` characters kept from the text are parsed as `float` when they form a decimal, and give 0 otherwise (also when nothing is kept); numeric text is parsed as is |
| Processor.FallbackDigitsSuffix | src/processor.py:26-27 | digits followed by characters outside `[0-9.-]` fall back to the value of the digits |
| Processor.ConvertDigitsSuffix | src/processor.py:10-31 | digits followed by a unit word with no comma, space, digit, dot, minus, 조 or 억 convert to the value of the digits |
| Processor.WonExample | src/processor.py:24-27 | "1234원" converts to 1234 |
| Processor.ConvertJoEok | src/processor.py:13-31 | for any digit strings a and b, "a조 b억" converts to 10000 × a + b |
| Text.FilterChars | src/processor.py:26 | `re.sub` with a negated class (and `replace(",", "")` at line 10): every kept character passes the test; text whose characters all pass is unchanged, and text with none passing becomes empty |
| Text.FilterCharsConcat | src/processor.py:26 | filtering keeps order: the kept characters of a + b are those of a followed by those of b |
| Processor.ConvertRaises | src/processor.py:14-21 | a conversion raises if and only if a 조 or 억 match holds a number `float` rejects |
| Processor.ConvertRenderedNumber | src/processor.py:24-27 | the text of any JSON number converts back to its value |
| Processor.ConvertNumericText | src/processor.py:24-27 | plain numeric text converts to the value it parses to |
| Processor.JoEokExample | src/processor.py:13-21 | "1조 2억" converts to 10002 |
| Processor.RatioMatchFrom | src/processor.py:50 | a match found from label length k on has a label of at least k characters without a newline and a non-empty number, and the text starts with exactly `label(number%)` |
| Processor.RatioMatchNone | src/processor.py:50-51 | the match fails if and only if no label length from k on fits `label(number%)` |
| Processor.RatioMatchShortest | src/processor.py:50 | the label is lazy: when j is the shortest label length that fits, the match is the first j characters and the number run after them |
| Processor.ParseRatioPart | src/processor.py:50-55 | a part that is read yields a stripped label |
| Processor.ParseRatioPartMatch | src/processor.py:50-57 | a part is read if and only if the pattern matches its stripped text and `float()` accepts the number; the entry is then the stripped label and that number |
| Processor.Put | src/processor.py:55 | assigning a label keeps the labels distinct and in first-insertion order, and a new label goes at the end |
| Processor.PutFind | src/processor.py:55 | after an assignment the label maps to the new value and every other label is unchanged |
| Processor.RatioEntriesFind | src/processor.py:47-57 | each label maps to the value of its last matching part; parts that do not match are skipped |
| Processor.ParseRatioText | src/processor.py:41-59 | labels are distinct, and blank text gives an empty map |
| Processor.ParseRatio | src/processor.py:38-43 | a missing cell gives an empty map |
| Processor.ParseRatioString | src/processor.py:33-59 | the looping parser returns exactly the specified map |
| Processor.FillRatios | src/processor.py:45-57 | the loop that fills the dict computes exactly the entries of all the parts |
| Sorting.SortDesc | src/processor.py:74 | the sorted row is in descending value order and is a permutation of the parsed entries |
| Sorting.SortDescStable | src/processor.py:74 | the sort is stable: entries with equal value keep their parse order |
| Sorting.SortDescOfSorted | src/processor.py:74 | an already descending sequence is left unchanged |
| Sorting.SortDescDistinct | src/scraper.py:36 | sorting keeps the items' names distinct |
| Frames.Ranked | src/processor.py:73-75 | each row's entries sorted by descending value: sorted, and a permutation of the parsed map |
| Frames.RankedRow | src/processor.py:73-75 | entries with equal value keep their parse order |
| Frames.MaxLen | src/processor.py:79 | the column count bounds every row's entry count and is attained by some row, or is 0 |
| Frames.RankNamesDistinct | src/processor.py:85-86 | the generated `prefix_i` and `prefix_i_pct` names are pairwise distinct |
| Frames.AddRanksColumns | src/processor.py:84-89 | column `prefix_i` holds each row's i-th label and `prefix_i_pct` its value, for every rank below the count |
| Frames.AddRanksOthers | src/processor.py:84-89 | existing columns keep their position, and a column that is not a rank column keeps its cells |
| Frames.SplitRatio | src/processor.py:61-95 | the split table is well formed and has the height of the input |
| Frames.SplitRatioColumnsContent | src/processor.py:84-89 | in row j, rank column i holds the row's i-th entry by descending value, or `None` when the row has fewer entries |
| Frames.SplitRatioColumnsOthers | src/processor.py:65-93 | the original column is kept if and only if `keep_original` holds; every other column that is not one of the rank columns below `max_len` keeps position and cells; the only new columns are those rank columns |
| Frames.Frame.constructor | src/processor.py:102 | a frame holds exactly the given table |
| Frames.Frame.Copy | src/processor.py:102 | `df.copy()` is a fresh frame with the same table |
| Frames.Frame.SetColumn | src/processor.py:88-89 | assigning a column replaces or appends it and changes nothing else |
| Frames.Frame.Drop | src/processor.py:92-93 | `drop(columns=[c])` is a fresh frame without that column |
| Frames.SplitRatioColumns | src/processor.py:61-95 | the result is the split table; an absent column leaves the frame as it is; the input frame gains the rank columns in place |
| Frames.ConvertColumn | src/processor.py:112 | a converted column has as many cells as the original |
| Frames.ConvertColumns | src/processor.py:110-112 | a converted table is well formed, with the same columns in the same order and the same height |
| Frames.ConvertColumnCells | src/processor.py:112 | a column converts if and only if every cell does, and then each cell is its converted number |
| Frames.ConvertColumnsOk | src/processor.py:110-112 | the conversion succeeds if and only if every listed column present converts |
| Frames.ConvertColumnsValues | src/processor.py:110-112 | a converted frame has the listed columns converted cell by cell, and every other column unchanged |
| Frames.ConvertFailurePersists | src/processor.py:110-112 | once a column raises, the whole preprocessing raises |
| Frames.ConvertNumericColumns | src/processor.py:107-112 | the in-place loop over the six money columns succeeds exactly when the conversion does, and then leaves the frame holding the converted table |
| Frames.Preprocess | src/processor.py:97-128 | the preprocessed table is well formed and keeps the height of the input |
| Frames.PreprocessEtfData | src/processor.py:97-128 | the method raises exactly when the specification does, and otherwise returns exactly the specified table |
| Frames.PreprocessKeeps | src/processor.py:102-125 | column order is kept; listed numeric columns are converted cell by cell; the ratio text columns, and every column that is neither listed nor a rank column, keep their cells |
| Frames.SplitWeightsKeeps | src/processor.py:119-125 | splitting the sector and country weights keeps the original columns in front, and keeps the cells of the numeric columns, the two weight columns and every column that is not a rank column |
| Scraper.FormatDate | src/scraper.py:46-50 | an 8-character string gets dashes after the year and month; other strings and falsy values are returned unchanged; `len()` of a number or a boolean raises |
| Scraper.FormatDateIdempotent | src/scraper.py:46-50 | formatting an already formatted date changes nothing |
| Scraper.ListedDateIso | src/scraper.py:48-49 | a compact `YYYYMMDD` date becomes its ISO form, which parses back to the date |
| Scraper.WeightKey | src/scraper.py:36 | the sort key is the weight's number, and a missing weight counts as 0 |
| Scraper.ItemText | src/scraper.py:40-42 | an item with a numeric weight and no `detailTypeCode` is always written, without raising |
| Scraper.ItemTextFormat | src/scraper.py:40-42 | the text raises exactly when the name or the weight is a list or dict; a string name and a numeric weight give `name(w%)` with the weight's decimal text; a missing name gives `Unknown(w%)` |
| Scraper.ItemTextDefaults | src/scraper.py:40-41 | an item with neither a name nor a weight is written as `Unknown(0%)` |
| Scraper.ItemTexts | src/scraper.py:39-42 | every item is written, in order, or the first one that cannot be written raises |
| Scraper.WeightList | src/scraper.py:29-44 | empty or missing lists give `None`; a non-list or a list holding a non-dict raises; two or more items whose weights are not all numbers or booleans raise; otherwise a string is returned |
| Scraper.TopItems | src/scraper.py:36-39 | the items kept are all dicts (which ones: `WeightListTop`) |
| Scraper.WeightListTop | src/scraper.py:36-39 | the items written are the first `top_n` of the descending sort, each outweighing or tying every item left out |
| Scraper.WeightListTexts | src/scraper.py:36-44 | once the checks pass, the result is the `", "`-join of the top items' texts, or a raise when one of them raises |
| Scraper.ParseWeightList | src/scraper.py:29-44 | the method returns exactly the specified string |
| Scraper.WriteTexts | src/scraper.py:38-42 | the appending loop writes each item's text in order, or raises at the first item that cannot be written |
| Scraper.PyInt | src/scraper.py:55 | `int()` succeeds only on text that is not blank after stripping |
| Scraper.PyIntRoundTrip | src/scraper.py:55 | `int()` reads back the decimal text of n and of −n |
| Scraper.PyIntRejectsPoint | src/scraper.py:55-57 | `int()` rejects any text that contains a dot |
| Scraper.ClosePrice | src/scraper.py:55-57 | raises if and only if `closePrice` is not a string (`.replace` missing) |
| Scraper.ClosePriceDigits | src/scraper.py:55 | a price whose comma-free text is the digits of n gives n |
| Scraper.ClosePriceMissing | src/scraper.py:55 | a missing price gives 0 |
| Scraper.ClosePriceFraction | src/scraper.py:56-57 | a price with a decimal point gives 0 |
| Scraper.ParseEtfBasic | src/scraper.py:52-64 | falsy input gives `None`, a non-dict raises, and otherwise the record has exactly code, name, price and change_rate: `itemCode`, `stockName`, the parsed price and `fluctuationsRatio` |
| Scraper.BasicRecord | src/scraper.py:59-64 | the record's four keys, each holding its response field (`None` when absent) or the price |
| Scraper.Section | src/scraper.py:69-71 | a missing sub-object is empty, and a present non-object raises |
| Scraper.HoldingNames | src/scraper.py:74 | every asset's `itemName` in order, or a raise when one is missing |
| Scraper.TopHoldings | src/scraper.py:73-74 | a string in place of the asset list yields text only when it is empty; any other non-list raises |
| Scraper.TopHoldingsSplit | src/scraper.py:93 | splitting `top_holdings` at commas gives back the names of the first five assets |
| Scraper.AnalysisMap | src/scraper.py:76-96 | the record has exactly the sixteen output fields |
| Scraper.AnalysisMapValues | src/scraper.py:76-96 | each of the sixteen fields holds its source: the response's `nav`, `marketValue`, `totalFee`, `deviationRate`, `issuerName`, `etfBaseIndex`, `chaseErrorRate`; the dividend, inflow and return sections' entries; the formatted listing date; the joined holdings; the two weight strings or `None` |
| Scraper.AnalysisProjections | src/scraper.py:69-91 | in a record built from a response, the twelve copied fields equal the response's entries or those of its `themeReturns`, `dividend` and `cumulativeNetInflowList` sections |
| Scraper.ParseEtfAnalysis | src/scraper.py:66-96 | falsy input gives `None`; a non-dict raises; a record has exactly the sixteen output fields |
| Scraper.AnalysisSectionRaises | src/scraper.py:69-71 | a present but non-object sub-section makes the record raise |
| Scraper.AnalysisRecord | src/scraper.py:84-95 | a built record routes `listed_date` through `_format_date`, the weights through `_parse_weight_list` with `top_n=3`, and the holdings through the first five names |
| Json.GetOr | src/scraper.py:40 | `dict.get(key, default)` returns the stored value if present and the default otherwise |
| Json.PyStr | src/processor.py:41 | `str()` raises for lists and dicts, keeps strings, and writes a number as decimal text that parses back to its value |
| RatioRoundTrip.ItemTextParses | src/processor.py:50-55 | the text written for a plain item parses back, with or without a leading space, to its name and weight |
| RatioRoundTrip.EntriesOfParts | src/processor.py:47-57 | parts that each parse to distinct labels yield exactly those entries in order |
| RatioRoundTrip.TopDistinctSorted | src/scraper.py:36-39 | the written items have distinct names and descending weights |
| RatioRoundTrip.WeightListRoundTrip | src/scraper.py:29-44 | for items with plain distinct names, reading the weight string back gives the name→weight map of the top `top_n` items, in order |
| RatioRoundTrip.RankedRoundTrip | src/processor.py:73-75 | ranking that string back gives the top items in the order they were written |

## Left out

- The `fetch_*` functions, HTTP, sleeping, logging and `print` are not part of this model. Neither are the loader, the database, configuration or the entry-point scripts. They are I/O.
- Both reads of `datetime.now()` in `_calculate_metrics` are modelled as one instant passed in, so a run that crosses midnight is not modelled.
- Floating point is not modelled: amounts, weights and totals are exact reals. Exponent forms (`1e5`), `inf` and `nan` are not accepted by the model's `float()`.
- Numbers.Round2: modelled as half-to-even rounding of the exact value times 100, not numpy's binary-float `round`.
- Numbers.Render: a float's repr is its plain decimal text. Python's exponent repr for very large or very small floats is not modelled.
- Only ASCII digits count as `\d`, and the `int()`/`float()` forms only accept ASCII digits. Python also accepts other Unicode decimal digits.
- `pd.to_numeric(errors="coerce")` is modelled for numbers, missing values and decimal text only.
- Analyzer.NormaliseDate: pandas date inference beyond the `YYYY-MM-DD` form (after the dots are replaced) is not modelled; other texts become unknown.
- Table cells are `Null`, `Num` or `Str`. Lists, dicts and booleans in a frame cell are not modelled.
- Json.PyStr: `str()` of a list or dict is modelled as raising instead of producing Python's repr. A ratio cell holding one then parses differently.
- Scraper.WeightList: sorting a list of two or more items whose weights are not all numbers is modelled as raising. Python would sort all-string weights without error.
- Scraper.FormatDate: a `listedDate` that is an 8-element list or dict is modelled as raising. Python would raise when slicing a dict, but would slice a list.
- Processor.ParseRatio: the `isinstance(d, dict)` guard in `split_ratio_columns` always holds, because `parse_ratio_string` always returns a dict.
- The `print` progress lines in `split_ratio_columns` and `preprocess_etf_data` are left out.
