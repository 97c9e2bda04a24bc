# Binance spot klines assembly, modelled in Dafny

This project models how the Binance spot market client assembles its most
recent candlestick series (`BinanceSpotMarket.most_recent_market_data` in
`main.py`). The client first reads a timeframe token such as `"1h"` and works
out how many candles to fetch. It then pages backwards through the
`/api/v3/klines` endpoint, at most 1000 rows per request. Each request after
the first ends at the earliest close time of the page before it; when that
close time is 0, the request carries no end time at all. The pages
are concatenated, sorted by open time and stripped of duplicate rows. A
candle that is still open is dropped. Finally the close times are recomputed
from the open times and the `ignore` column is removed.

The model is pure functions over immutable data. The only loop is the paging
loop, `Paging.FetchPages`, and its invariant ties it to the recursive
reference `Paging.Paginate`.

- `Basics`: `Option`, `Result`, the error kinds the
  assembly can raise, and `Min`/`Max`.
- `Seqs`: keep-first duplicate removal (pandas `drop_duplicates`), described
  by the first index of each element.
- `Candles`: a 12-column raw row and an 11-column finished candle with its two
  timestamps.
- `Timeframe`: the seconds table, the candle count and the `Timedelta`
  seconds component.
- `Requests`: the klines query as an insertion-ordered dictionary, and the
  URL of an unsigned request (`send_public_request`).
- `Paging`: the countdown of page limits, the cursor, and the loop.
- `Series`: concatenation, sorting, deduplication, live-candle trimming and
  finishing.
- `Market`: the whole assembly.
- `Exchange`: the assembly against an idealised klines endpoint, to count
  the candles that come back.
- `ExchangeSample`: a concrete endpoint that behaves as the idealised one,
  so the `Exchange` hypotheses can be met.

The outside world enters as parameters:

- The HTTP GET and the query encoder form an `Endpoint` of two total
  functions. A request that fails in transport, or whose body is not JSON,
  is `None` and ends the assembly with `FetchError`. An error reply of the
  endpoint is a JSON object; the twelve named columns pick nothing out of
  it, so it is a page of no rows and ends the assembly with `EmptyPage`.
- The wall clock is `nowMillis`.

The model follows the code in three places where a plain reading of the
intended behaviour would say otherwise:

- The token is read one character at a time. A two-digit multiplier such as
  `"15m"` therefore fails on the unit lookup with `KeyError('5')`
  (`Timeframe.TwoDigitScenario`).
- The close-time offset is the `seconds` component of a pandas `Timedelta`,
  which lies within one day. For day and week tokens the recomputed close
  time therefore equals the open time, not the open time plus the duration
  (`Timeframe.DurationVersusCount`).
- The margin of 10 extra candles does not cover the page boundaries. The
  `Exchange` module models an endpoint that answers, for a cursor, the
  latest rows closing at or before it. Then each page after the first repeats
  the oldest row of the page before. A run of `p` pages returns
  `count + 11 - p` candles, one fewer when the newest candle is still open.
  That is fewer than `count` beyond 11 pages, or beyond 10 when the newest
  candle is still open: "1h" with factor 5 asks for 18000 and gets at most
  17992 (`Exchange.OneHourShortfall`). A concrete endpoint with 17992 hourly
  candles behind it shows it happens (`ExchangeSample.SampleShortfall`).

## Model

| member | source | states |
|---|---|---|
| Timeframe.CandleCount | main.py:75-76 | Succeeds exactly for a digit followed by a table unit, with digit × unit seconds × factor. An empty or one-character token is an IndexError, a non-digit first character a ValueError, an unknown unit a KeyError on that character. |
| Timeframe.CandleCountOfToken | main.py:76 | Reading a token written from a multiplier and unit gives back multiplier × unit seconds × factor, or KeyError on the unit, whatever follows. |
| Timeframe.TwoDigitScenario | main.py:76 | "15m" fails with KeyError('5'). |
| Timeframe.OneHourScenario | main.py:75-76 | "1h" with factor 5 asks for 18000 candles; its close-time offset is 3600 seconds. |
| Timeframe.DurationSeconds | main.py:113 | The offset is below one day, and defined exactly for two-character well-formed tokens. |
| Timeframe.DurationVersusCount | main.py:113 | For s/m/h tokens, offset × factor equals the candle count; for d/w tokens the offset is 0. |
| Requests.KlinesParams | main.py:125-132 | The query of a klines call, built by dictionary assignment over the keyword arguments. It has no contract of its own: `Requests.KlinesParamsHead`, `Requests.KlinesParamsLookup` and `Requests.KlinesParamsOrder` state what it holds. |
| Requests.Put | main.py:128-132 | Dictionary assignment: the key maps to the new value, other keys keep theirs, an existing key keeps its place, a new key goes last. |
| Requests.KlinesParamsHead | main.py:125 | The query starts with symbol = pair and then interval = timeframe, and looking either up gives them back. |
| Requests.KlinesParamsLookup | main.py:126-132 | startTime, endTime and limit are present iff the matching keyword was given, holding the last such value, the limit clamped to 1000. |
| Requests.KlinesParamsOrder | main.py:125-132 | The parameter names are symbol, interval and then the set names, in first-set order with no repeats. |
| Requests.PublicUrl | main.py:37-40 | The URL extends base + path, equals it iff the query is empty, and otherwise continues with '?' and exactly the query. |
| Requests.QueryRoundTrip | main.py:37-40 | The query can be read back from the URL after base + path; an empty query leaves none. |
| Paging.CallKwargs | main.py:79-91 | Read as the klines call reads its keyword arguments: the limit is the request's limit, there is never a start time, and there is an end time exactly when the cursor is not 0. |
| Paging.Requester | main.py:80-91 | The page source that sends each request to the endpoint. It has no contract of its own; `Paging.RequesterSpec` states the URL it requests. |
| Paging.RequesterSpec | main.py:79-91 | Every page request is the endpoint's GET of the base URL + /api/v3/klines + '?' + the encoding of exactly symbol = pair, interval = timeframe, limit = min(limit, 1000), and then endTime = the cursor only when the cursor is not 0. |
| Paging.CallParamsShape | main.py:79-91 | A page request's query is exactly symbol, interval, the limit clamped to 1000, then endTime only when the cursor is set. |
| Paging.CallParamsSpec | main.py:79-91 | A page request carries pair, interval and the clamped limit, never a start time, and an end time iff the cursor is set. |
| Paging.MinCloseTime | main.py:102-103 | The cursor is a close time of the page and no row of the page closes earlier. |
| Paging.PageLimits | main.py:77-78 | The countdown's limits as a reference list. It has no contract of its own; the next four lemmas state its properties. |
| Paging.PageLimitsBounded | main.py:77-78 | Every request's limit lies between 1 and 1000. |
| Paging.PageLimitsSum | main.py:77-104 | The limits add up to max(0, count + 10), so the countdown stops exactly at zero. |
| Paging.PageLimitsCount | main.py:77-104 | There are ⌈(count + 10) / 1000⌉ requests, none when count + 10 ≤ 0. |
| Paging.PageLimitsFull | main.py:78 | Every request but the last asks for a full page of 1000. |
| Paging.FiveSecondScenario | main.py:77-78 | "5s" with factor 1 is one request with limit 15. |
| Paging.Paginate | main.py:77-104 | The paging loop as a recursive reference: fetch while candles remain, stopping at the first failed request or empty page. It has no contract of its own; the three lemmas below and `Paging.FetchPages` state its properties. |
| Paging.PaginateLimits | main.py:77-104 | A completed run issues exactly the countdown's limits, in order. |
| Paging.PaginatePages | main.py:80-101 | Every page of a completed run is non-empty and is what the endpoint answered to that request. |
| Paging.PaginateCursors | main.py:79-103 | The first request has no cursor, and each later one ends at the earliest close time of the page before. |
| Paging.FetchPages | main.py:73-104 | The loop equals the recursive reference. It fails only on a failed request or an empty page. On success it made ⌈(count + 10) / 1000⌉ requests with limits in [1, 1000] adding up to max(0, count + 10). |
| Series.Concat | main.py:105 | A row is in the concatenation iff it is in one of the pages. |
| Series.SortByOpenTime | main.py:106 | The result is ordered by open time and is a permutation of the input. |
| Seqs.DropDuplicates | main.py:107 | The result has no repeats and has the same elements as the input. Survivors keep the order of their first occurrences. |
| Seqs.DropDuplicatesMembers | main.py:107 | An element survives duplicate removal iff it was there. |
| Seqs.DropDuplicatesShorter | main.py:107 | Removing duplicates never lengthens the series. |
| Seqs.DropDuplicatesOfDistinct | main.py:107 | A series without repeats passes through unchanged. |
| Seqs.DropDuplicatesIdempotent | main.py:107 | Removing duplicates twice equals removing them once. |
| Series.DropDuplicatesKeepsOrder | main.py:106-107 | Removing duplicates from a series ordered by open time keeps it ordered. |
| Series.SortAndDeduplicate | main.py:105-107 | The result is ordered by open time, holds no row twice, has exactly the rows of the input, and is no longer than it. |
| Series.SortedDistinctIsStrict | main.py:106-107 | When open time is a key, the sorted, deduplicated series has strictly increasing open times. |
| Series.StrictSeriesUnique | main.py:106-107 | Two strictly ordered series with the same rows are equal. |
| Series.SortChoiceIrrelevant | main.py:106-107 | When open time is a key, every ordering the unstable sort may choose deduplicates to the same series. |
| Series.CutoffMillis | main.py:109 | The cutoff is the wall clock truncated to whole seconds, in milliseconds. |
| Series.MaxCloseTime | main.py:109 | The latest close time is one row's and no row closes later. |
| Series.TrimLive | main.py:109-110 | Drops exactly the last row when some row closes after the cutoff, and otherwise changes nothing. |
| Series.LiveCandleDropped | main.py:109-110 | A still-open last candle of a strictly ordered series is gone and the series is one shorter. |
| Series.ToCandle | main.py:113 | The candle keeps the open time and closes offset × 1000 ms later. |
| Series.ToCandleKeepsColumns | main.py:111-116 | Finishing loses only the close time and `ignore`: the row is rebuilt from the candle and those two. The timestamps are the open and close instants. |
| Series.Finish | main.py:111-116 | Every row is finished in place, so the length and order are kept. |
| Series.FinishIsSeries | main.py:113-115 | Finishing a series ordered by open time gives ordered candles, each closing one offset after it opens, with matching timestamps. |
| Market.PostProcess | main.py:105-116 | No page is a failed concatenation. Otherwise the result exists iff the offset does. It is an ordered candle series with the recomputed close times, no longer than the fetched rows, and every candle is the finished form of a fetched row. |
| Market.AssembledSeries | main.py:105-110 | When open time is a key, the finished open times strictly increase. Every fetched row but the latest is in it. The latest is in it iff no fetched candle closes after the cutoff. |
| Market.MarketData | main.py:69-117 | The whole assembly as one composition of the count, the loop and the post-processing. It has no contract of its own; `Market.MostRecentMarketData` and the `Exchange` lemmas state its properties. |
| Market.MostRecentMarketData | main.py:69-117 | A malformed token fails before any request with the count's own error. A count with count + 10 ≤ 0 fails on the empty concatenation. A result is a finished series with the token's offset, and only two-character tokens give one. |
| Exchange.ExchangePages | main.py:77-104 | Against the idealised endpoint with enough history, the loop fetches every page. The pages hold exactly the newest count + 10 − (pages − 1) rows, because each page repeats the oldest row of the page before. |
| Exchange.DeduplicatesToRun | main.py:105-107 | Rows holding exactly the members of a run ordered strictly by open time sort and deduplicate into that run. |
| Exchange.ExchangeAssembly | main.py:69-117 | Against the idealised endpoint with enough history, the result is the finished form of the newest count + 11 − pages rows, less a still-open newest candle. So its length is count + 11 − pages, or one fewer, and never below count + 10 − pages. |
| Exchange.OneHourShortfall | main.py:71-78 | "1h" with factor 5 asks for 18000 candles, but against the idealised endpoint only 17991 or 17992 come back. |
| ExchangeSample.SampleServes | main.py:79-91 | The sample endpoint, reached through the page requests' URLs, answers every limit from 1 to 1000 as the idealised endpoint does. |
| ExchangeSample.SampleShortfall | main.py:71-78 | With 17992 hourly candles behind the sample endpoint, "1h" with factor 5 succeeds with fewer than the 18000 candles it asks for. |

## Left out

- HTTP plumbing (`dispatch_request`, sessions, headers, `response.json()`, `server_time`, `current_price`, main.py:17-66): the request is the `get` function of an `Endpoint`. Its transport and JSON-decoding failures are one `FetchError`; an error reply of the endpoint is a page of no rows.
- `urlencode` internals: the encoder is the `urlencode` function of an `Endpoint`. Only how its output is placed in the URL is modelled.
- The command-line entry point, CSV and SQLite persistence, `ui.py` and `plotly_test.py`: they are not part of the assembly.
- Floating point and `pd.to_numeric` (main.py:111-112): prices and volumes are kept as opaque decimal text, and times are already integers.
- The datetime round trip of the cursor (main.py:102-103): converting milliseconds to a timestamp and back is taken as the identity on integer milliseconds.
- The wall clock (main.py:109): `time.time()` is the parameter `nowMillis`.
- Timeframe.DurationSeconds: only two-character tokens are given an offset. The general pandas `Timedelta` grammar for longer strings is not modelled; such tokens give `UnsupportedDuration`.
- The re-indexing (main.py:108): row positions in the sequence play the part of the index.
- `int()` on non-ASCII digit characters: only '0'-'9' count as digits.
- The 64-bit integer width of numpy and pandas: counts, limits and times are unbounded integers.
- The unstable `sort_values`: one fixed sort is modelled. `Series.SortChoiceIrrelevant` shows the choice does not matter when open time is a key.
- Keyword arguments are modelled as a sequence, which may repeat a name; a Python call cannot repeat one, so the model is more general.
- Market.MostRecentMarketData: it does not state the URLs requested. Those are given by `Paging.RequesterSpec` and the `Paging.Paginate` lemmas.
- Market.MostRecentMarketData: it does not promise the n_candles candles its docstring names, because the code does not deliver them once the page boundaries outnumber the margin. `Exchange.ExchangeAssembly` gives the exact count against the idealised endpoint, and `ExchangeSample.SampleShortfall` shows an endpoint where it falls short.
- The real endpoint's answers: the Binance klines endpoint is not part of this model. `Exchange.Answer` is an assumption about it (the latest rows closing at or before the cursor, at most 1000 of them, within a history whose open and close times strictly increase), used only by the `Exchange` lemmas. Only the limits 1 to 1000, the ones the loop sends, are assumed to be answered that way.
