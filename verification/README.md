# stock-advisor-bot, modelled in Dafny

stock-advisor-bot is a Streamlit dashboard. For a ticker typed in the sidebar it
fetches a month of daily closes and derives a price record (`get_stock_stats`).
It labels the tone of the latest five headlines (`get_sentiment`). It asks a
hosted language model for a short narrative (`analyze_stock`). It keeps the three
results in the session, shows them with a candlestick and volume chart, and
offers a PDF whose "The Bottom Line" paragraph is cut out of the narrative and
sanitised (`clean_text`).

This project models the deterministic rules inside that glue as pure Dafny
functions over already-fetched data:

- `Text`: the pieces of Python's `str` that the rules use. These are `find`,
  `split` (left to right, non-overlapping), `[0]` and `[-1]`, slicing `[:n]`,
  character deletion, `strip` with Python's `isspace` set, and `upper`.
- `Series`: `sum`, mean, minimum and maximum of a series of reals.
- `PdfText`: `clean_text`, plus the choice of the Bottom Line excerpt and its
  fallback of 300 characters followed by `...`.
- `StockData`: `get_stock_stats`, with the closes given as a `seq<real>`.
- `NewsSentiment`: `get_sentiment`, with news items as a JSON-like `Value`
  datatype.
- `Orchestrator`: `analyze_stock`. It returns the narrative together with the
  trace of outside calls made, so "no request is sent" can be stated.
- `Dashboard`: the session written by the button, the gate between the
  dashboard and the prompt, the metric row, and the volume-bar colours.

The outside world enters as parameters. The closes and the news list form a
`World`. TextBlob's polarity (`string -> real`), Python's `round(x, 2)`
(`real -> real`) and the chat-completion call (`Request -> Completion`) form
the `Oracles`. A Python exception that the source raises becomes a
`Failure` carrying the text `str(e)` would give; where the source catches it,
the model turns that `Failure` into the value the `except` branch returns.

Where the repository's own expectations and its code differ, the model follows
the code:

- tests/test_agents.py:10 expects a narrative longer than 50 characters. The
  code returns the first choice's content verbatim
  (agents/orchestrator.py:32), so the narrative can be empty. The dashboard
  gate therefore also requires a non-empty stored report, not just a matching
  ticker (app.py:95).
- The comment at app.py:44 says the section "The Bottom Line" is extracted.
  app.py:50 takes the text after the LAST mention of "Bottom Line" anywhere in
  the narrative, so that is what the model takes.
- The gate does not treat the error record as "no data". It opens on it, and
  the metric row then reads a missing `price` key (see Findings).

## Model

| member | source | states |
|---|---|---|
| Text.IndexOf | app.py:49 | `"Bottom Line" in report_text`: the first occurrence at or after a position, or none at all |
| Text.SplitFromPiecesFree | app.py:50 | no piece of `split(sep)` contains `sep` |
| Text.JoinSplit | app.py:50 | joining the pieces of `split(sep)` with `sep` gives back the input, and no piece contains `sep`; so the pieces are exactly the text between separators |
| Text.SplitHead | app.py:50 | `split(sep)[0]` is a prefix with no `sep`, followed by `sep` exactly when the text contains one |
| Text.SplitLast | app.py:50 | `split(sep)[-1]` is a suffix with no `sep`; it is the whole text when `sep` is absent, and follows a `sep` otherwise |
| Text.SplitLastAfter | app.py:50 | for a separator whose first character does not recur in it (both markers qualify): when nothing after the final separator contains it, `[-1]` is exactly that trailing text |
| Text.SplitHeadBefore | app.py:50 | for a separator whose first character does not recur in it (both markers qualify): when the text before a separator has none, `[0]` is exactly that text |
| Text.Take | app.py:53 | Python's `s[:n]`: the first `n` items, or all of them when there are fewer |
| Text.Filter | app.py:15-16 | deleting elements keeps only elements that pass the test and never lengthens the sequence |
| Text.FilterFilter | app.py:15-16 | two deletions in a row are one deletion by both tests |
| Text.FilterIsSubsequence | app.py:15-16 | deletion yields a subsequence of its input |
| Text.Strip | app.py:16 | `strip()` leaves no Python whitespace at either end |
| Text.StripSlice | app.py:16 | `strip()` is the slice between the first and last non-blank characters, with only blanks cut off |
| Text.StripAt | app.py:16 | any slice with only blanks outside and non-blank ends (or all blank) is the stripped text |
| Text.StripAppendSpace | app.py:16 | trailing blanks do not change the stripped text |
| Text.Upper | tools/stock_data.py:12 | `upper()` keeps the length, upper-cases each character by the ASCII rule, leaves no lower-case letter and changes nothing else |
| Text.UpperIdempotent | app.py:81 | upper-casing twice equals upper-casing once |
| Series.Mean | tools/stock_data.py:9 | the mean times the number of readings is their sum |
| Series.MeanWithin | tools/stock_data.py:9 | the mean of readings in `[lo, hi]` lies in `[lo, hi]` |
| Series.MeanBetweenExtremes | tools/stock_data.py:9 | the mean lies between the smallest and the largest reading |
| Series.MeanOfConstant | tools/stock_data.py:9 | the mean of a constant series is that constant |
| Series.MeanBelowNewHigh | tools/stock_data.py:15 | with at least one earlier reading, appending a reading above all earlier ones leaves the mean strictly below it |
| PdfText.CleanText | app.py:13-16 | the cleaned text has no blank at either end |
| PdfText.CleanTextSinglePass | app.py:15-16 | the three deletions equal one pass keeping ASCII characters other than `#` and `*` |
| PdfText.CleanTextOutput | app.py:15-16 | every output character is ASCII (code below 128) and neither `#` nor `*`, and neither end is blank |
| PdfText.CleanTextSubsequence | app.py:15-16 | the output is a subsequence of the input: characters are only deleted |
| PdfText.CleanTextFixedPoints | app.py:13-16 | `clean_text` returns its input unchanged iff every character is ASCII and neither `#` nor `*` and neither end is blank |
| PdfText.CleanTextIdempotent | app.py:13-16 | cleaning twice equals cleaning once |
| PdfText.CleanTextIgnoresTail | app.py:15-16 | appending only deleted or blank characters does not change the cleaned text |
| PdfText.BottomLineSnippet | app.py:50 | the excerpt is no longer than the narrative and contains neither "Bottom Line" nor "Key Drivers" |
| PdfText.BottomLineText | app.py:49-53 | with "Bottom Line", the cleaned excerpt. Without it, `clean_text` of the first 300 characters followed by `...`: 3 to 303 characters, clean before the `...`, a subsequence of those characters, and exactly them plus `...` when they are already clean |
| PdfText.LastBottomLine | app.py:50 | `split("Bottom Line")[-1]` is the text after the last "Bottom Line" |
| PdfText.SnippetFollowsLastMarker | app.py:49-50 | with "Bottom Line", the excerpt is a contiguous substring right after the LAST "Bottom Line". It contains neither marker and ends at the report's end or at the next "Key Drivers" |
| PdfText.TemplateSnippet | app.py:49-50 | for a narrative shaped like the prompt's template, the excerpt is the section body followed by the decoration of the "Key Drivers" heading |
| PdfText.TemplateSectionExtracted | app.py:49-51 | a narrative shaped like the prompt's template (agents/prompts.py:9,12) prints exactly the cleaned body of its Bottom Line section |
| StockData.GetStockStats | tools/stock_data.py:3-16 | an empty history yields the error record "Invalid Ticker". Otherwise: the upper-cased symbol, rounded last close, rounded mean, and Bullish iff the unrounded last close exceeds the unrounded mean |
| StockData.StockStats.Lookup | app.py:100 | `stats[key]` yields a value iff the key is among the record's keys |
| StockData.StatsKeys | tools/stock_data.py:6-16 | the error record has only the key `error` and no `price`; a valid record has exactly symbol, price, ma_20 and trend |
| StockData.SymbolIsUpperCase | tools/stock_data.py:12 | the symbol has no lower-case letter, and an upper-case ticker comes back unchanged |
| StockData.AaplSymbol | tools/stock_data.py:12 | "aapl" and "AAPL" both give the symbol "AAPL" |
| StockData.AverageWithinRange | tools/stock_data.py:9-14 | under a monotone rounding, `ma_20` lies between the rounded lowest and highest closes |
| StockData.FlatHistoryIsBearish | tools/stock_data.py:15 | equality of last close and mean is Bearish: a flat history is Bearish |
| StockData.LastAtLowIsBearish | tools/stock_data.py:15 | a last close at the month's low is Bearish |
| StockData.NewHighIsBullish | tools/stock_data.py:15 | with at least one earlier close, a last close above every earlier close is Bullish |
| StockData.BullishWithEqualRoundedValues | tools/stock_data.py:13-15 | the trend is decided before rounding, so a Bullish record can show price equal to ma_20 (closes 100.00 and 100.002) |
| NewsSentiment.Get | tools/news_sentiment.py:19-20 | `.get` on a dict gives the value or the default; on anything else it raises AttributeError with Python's message |
| NewsSentiment.TitleOf | tools/news_sentiment.py:19-20 | an item faults iff it is not a dict or its `content` is not a dict, with the AttributeError text of that value; otherwise the title is `title` of `content` when present, else of the item, else "" |
| NewsSentiment.CollectTitles | tools/news_sentiment.py:16-22 | the loop fails exactly when some item faults, with the error of the first faulting item. Otherwise the titles kept are exactly the truthy titles of the items, in order: at most one per item, and none iff every title is falsy |
| NewsSentiment.CollectStep | tools/news_sentiment.py:17-22 | one turn of the loop keeps a truthy first title in front of the titles kept from the remaining items |
| NewsSentiment.Polarities | tools/news_sentiment.py:27 | one polarity per title, in order; an error exactly when some title is not a string, carrying TextBlob's TypeError text for the first such title |
| NewsSentiment.Classify | tools/news_sentiment.py:30-32 | Positive iff average > 0.1, Negative iff average < -0.1, Neutral iff it lies in [-0.1, 0.1] |
| NewsSentiment.GetSentiment | tools/news_sentiment.py:5-36 | every result begins with Positive, Negative or Neutral. A fetch error gives the error label; an empty list gives "Neutral (No recent news found)" |
| NewsSentiment.OnlyFirstFiveItemsMatter | tools/news_sentiment.py:17 | two news lists agreeing on their first five items get the same label |
| NewsSentiment.AtMostFiveTitles | tools/news_sentiment.py:17 | at most five titles are averaged |
| NewsSentiment.TitleFallback | tools/news_sentiment.py:19-20 | the title comes from `content` when present, else from the item itself, and is "" when missing |
| NewsSentiment.UntitledItemsSkipped | tools/news_sentiment.py:20-22 | an item whose title reads without error but is falsy (missing, "", None, 0, or a `content` without title) adds nothing and raises nothing |
| NewsSentiment.NoTitlesNoAverage | tools/news_sentiment.py:24-25 | when no title among the first five is usable, the result is "Neutral (Could not parse headlines)" and no average is taken |
| NewsSentiment.ItemFaultBecomesErrorLabel | tools/news_sentiment.py:17-36 | when item k among the first five is the first whose title cannot be read, the label is "Neutral (Sentiment Error: ...)" carrying that item's AttributeError text |
| NewsSentiment.NonStringTitleBecomesErrorLabel | tools/news_sentiment.py:27 | when the first non-string title kept is the k-th, the label is the error label carrying TextBlob's TypeError text for it |
| NewsSentiment.NonStringTitleExample | tools/news_sentiment.py:27 | a one-item list titled with a truthy non-string value gives that error label |
| NewsSentiment.ClassifyMonotone | tools/news_sentiment.py:30-32 | a higher average never gives a lower label |
| NewsSentiment.UniformHeadlines | tools/news_sentiment.py:28-32 | scores all above 0.1 average to Positive; scores all below -0.1 average to Negative |
| NewsSentiment.SentimentOfTitles | tools/news_sentiment.py:16-32 | when no item among the first five faults, no truthy title gives the "could not parse" label, and string titles give the threshold rule on the mean polarity of exactly those titles |
| NewsSentiment.PositiveHeadlines | tools/news_sentiment.py:27-30 | when no item faults, at least one title is kept, and every kept title is a string scoring above 0.1, `get_sentiment` returns Positive |
| NewsSentiment.NoNewsOnlyWhenEmpty | tools/news_sentiment.py:11-12 | "Neutral (No recent news found)" is returned iff the fetched list is empty |
| Orchestrator.AnalysisRequest | agents/orchestrator.py:23-31 | the request names "llama-3.3-70b-versatile", temperature 0.2 and 1024 max tokens, with the system prompt then the user prompt built from the ticker, record and label |
| Orchestrator.Narrative | agents/orchestrator.py:22-34 | the first choice's content, or "Error connecting to Groq: " plus the error text, including for an empty choice list |
| Orchestrator.AnalyzeStock | agents/orchestrator.py:13-34 | price history and news are always fetched. A request is sent iff there is a history, and without one the text is the fixed no-data message |
| Orchestrator.RequestCarriesInputs | agents/orchestrator.py:15-27 | the request carries the ticker as given, plus the record and label computed from the same data |
| Orchestrator.NoRequestWithoutData | agents/orchestrator.py:18-19 | with no history, the result does not depend on the language model or the news, and no completion call appears |
| Orchestrator.TextFollowsCompletion | agents/orchestrator.py:22-34 | with a history, the text is the model's first choice or the connection-error text |
| Orchestrator.TextOrigin | agents/orchestrator.py:13-34 | every text is the no-data message, a choice the model returned, or starts with "Error connecting to Groq: ". No failure escapes |
| Dashboard.Press | app.py:88-93 | a press stores the upper-cased ticker, `get_stock_stats` of it (rounded last close and mean), the news label, and the narrative the model gave for a request carrying that record and label; an invalid ticker stores the no-data message |
| Dashboard.PressShowsNarrative | app.py:88-100 | a press with a price history whose request gets a non-empty first choice opens the dashboard on that choice, a valid record priced at the rounded last close, and the news label |
| Dashboard.Step | app.py:88-93 | without a press the session is unchanged; a press stores the upper-cased input |
| Dashboard.Run | app.py:88-93 | after any reruns, the session is the initial one or what one of the presses stored |
| Dashboard.RunAppend | app.py:88-93 | two batches of reruns act as their concatenation |
| Dashboard.QuietRerunsIgnored | app.py:88 | reruns without a press can be inserted anywhere without changing the resulting session |
| Dashboard.RunReflectsLastPress | app.py:88-93 | after any sequence of reruns, the session holds what the last press stored |
| Dashboard.Shown | app.py:95 | when the gate opens, a non-empty report is stored under a ticker that is already upper-case |
| Dashboard.GateIgnoresCase | app.py:81-95 | the gate opens for a typed text iff it opens for its upper-cased form |
| Dashboard.ViewAsWritten | app.py:95 | the dashboard shows iff a non-empty report is stored for the same upper-cased ticker; the record is never inspected |
| Dashboard.TrendColor | app.py:103 | green iff Bullish, red iff Bearish |
| Dashboard.RenderMetrics | app.py:99-104 | reading the metric row fails iff the record lacks `price`, with the KeyError text `'price'`. Otherwise it shows price, ma_20, the rounded difference, the record's trend with its colour, and the news label |
| Dashboard.GateAfterPress | app.py:81-95 | after the last press, the dashboard shows iff the typed ticker upper-cases to the pressed one and the report is non-empty |
| Dashboard.PromptBeforeAnyPress | app.py:150-151 | before any press, the prompt is shown whatever is typed |
| Dashboard.InvalidTickerReachesPriceLookup | app.py:95-100 | a press for a ticker with no history opens the gate, and the metric row then fails on the missing `price` |
| Dashboard.ViewCorrected | app.py:95-100 | same gate, but an error record shows its stored message instead of the dashboard |
| Dashboard.BoardAlwaysHasPrice | app.py:100 | with the correction, every dashboard shown has a readable metric row |
| Dashboard.CorrectionAgreesOnValidStats | app.py:95 | the correction changes nothing when the stored record is valid |
| Dashboard.InvalidTickerShowsNotice | app.py:95-100 | with the correction, an invalid-ticker press shows the no-data message |
| Dashboard.VolumeColors | app.py:127 | one colour per zipped (open, close) pair: "#26a69a" iff close >= open, "#ef5350" iff close < open |

## Left out

- Streamlit widgets, layout and reruns are left out. The script's rerun is modelled as one `Event` (text, button, fetched data). Selecting a chart timeframe reruns the script without a press, an `Event` with `pressed == false`; `Dashboard.Run` and `Dashboard.QuietRerunsIgnored` state that such reruns leave the session alone.
- Plotly figure construction is left out. The candlestick, the 20-period rolling mean with its NaNs and the chart data fetch (app.py:112-130) are outside the model; only the volume colour rule is kept.
- The FPDF layout, the metric lines and the Kaleido image embedding (app.py:18-47, app.py:55-66) are left out. Only the Bottom Line text is modelled.
- `re.sub(r'[^\x00-\x7F]+', '', …)` is modelled as deleting every character with a code of 128 or more, which is what the pattern matches.
- Network fetches through yfinance are parameters (`World.closes`, `World.news`). An exception from the price fetch is not modelled: `get_stock_stats` does not catch it. When the fetch inside `analyze_stock` (agents/orchestrator.py:15) raises after app.py:90-91 have stored new `stats` and `sentiment`, the session keeps them beside the previous `ai_report` and `current_ticker`. `Dashboard.Session` does not represent that mixed state.
- TextBlob and the Groq client are function parameters in `Oracles`. The prompt texts of agents/prompts.py are not modelled, apart from the two headings the excerpt looks for.
- Floating point: prices and scores are mathematical reals, and `round(…, 2)` is an arbitrary function. `StockData.NearestCent` is one admissible instance, used only for a concrete example.
- The dashboard fetches prices and news twice per press: once directly (app.py:90-91) and once inside `analyze_stock`. The model gives both fetches the same `World`, so live data that changes between them is not modelled.
- `stock.news` returning `None` is modelled as the empty list. Both are falsy and give the same label.
- The language model's reply is treated as a function of the request (`Oracles.complete`, shared by every rerun): two presses sending the same request get the same narrative, while a model sampled at temperature 0.2 may answer differently each time.
- `message.content` being `None` in a completion is modelled as a string choice; the `None` case is not separated.
- Text.Upper: only ASCII letters are upper-cased. Python's `upper()` also maps other scripts (e.g. `ß` to `SS`), which tickers do not use.
- tools/technical_ta.py is a pandas_ta wrapper and is not part of this model.
- tests/test_tools.py expects a `current_price` key, and tests/test_agents.py imports `analyze_with_gpt`. Neither exists in the code, and neither is encoded.

## Findings

| source | as written | input that shows it | evidently intended | confidence | as-written member | corrected member |
|---|---|---|---|---|---|---|
| app.py:95-100 | the gate opens whenever a non-empty report is stored for the typed ticker. It never checks that the stored record is not the error record, and the metric row then reads `stats['price']` | press "Generate Full Analysis" for a ticker whose one-month history is empty (e.g. INVALID_TICKER_123). The record is `{"error": "Invalid Ticker"}` and the report is the non-empty no-data message, so `stats['price']` raises KeyError | show the no-data message instead of the dashboard when the record carries `error` | not executed | Dashboard.InvalidTickerReachesPriceLookup | Dashboard.ViewCorrected |
