/**
 * The assembly against an idealised klines endpoint, to count the candles it
 * returns. The endpoint holds a history of rows whose open and close times
 * both strictly increase. Without a cursor it answers the latest `limit`
 * rows; with one, the latest `limit` rows that close at or before it; it
 * never serves more than the page maximum. The assembly only depends on its
 * answers to the requests the loop can make, limits from 1 to 1000. Under
 * that endpoint each page after the first shares one row with the page
 * before, so a run of `p` pages covers `count + 10 - (p - 1)` distinct rows.
 */
module Exchange {
  import opened Basics
  import opened Candles
  import opened Timeframe
  import opened Requests
  import opened Series
  import opened Paging
  import opened Market

  /** Rows in open-time order whose close times strictly increase and lie after the epoch. */
  predicate History(h: seq<RawRow>) {
    && StrictlyIncreasing(h)
    && (forall i, j :: 0 <= i < j < |h| ==> h[i].closeTime < h[j].closeTime)
    && (forall i :: 0 <= i < |h| ==> h[i].closeTime > 0)
  }

  /** How many leading rows of the history close at or before `endTime`. */
  function ClosedBy(h: seq<RawRow>, endTime: int): (j: nat)
    ensures j <= |h|
    ensures j > 0 ==> h[j - 1].closeTime <= endTime
    ensures forall i :: j <= i < |h| ==> h[i].closeTime > endTime
  {
    if |h| == 0 then 0
    else if h[|h| - 1].closeTime <= endTime then |h|
    else ClosedBy(h[..|h| - 1], endTime)
  }

  /**
   * The idealised endpoint's answer: the latest `limit` rows, or those
   * closing by the cursor, and never more than the page maximum.
   */
  function Answer(h: seq<RawRow>, c: Call): Option<Page> {
    var top := if c.endTime == 0 then |h| else ClosedBy(h, c.endTime);
    var n := Min(Min(Max(0, c.limit), MaxLimit), top);
    Some(h[top - n..top])
  }

  /** The endpoint answers every request the loop can make as the idealised endpoint over `h` does. */
  ghost predicate Serves(ep: Endpoint, pair: string, timeframe: string, h: seq<RawRow>) {
    forall c: Call :: 1 <= c.limit <= MaxLimit ==> Requester(ep, pair, timeframe)(c) == Answer(h, c)
  }

  /** The distinct rows a full run from `remaining` covers: one row is shared at each page boundary. */
  function Covered(remaining: int): int {
    if remaining <= 0 then 0 else remaining - PageCount(remaining) + 1
  }

  /** A cursor at a row's close time leaves that row as the latest eligible one. */
  lemma ClosedByRow(h: seq<RawRow>, a: nat)
    requires History(h) && a < |h|
    ensures ClosedBy(h, h[a].closeTime) == a + 1
  {
  }

  /** The earliest close time of a slice of the history is that of its first row. */
  lemma MinCloseOfSlice(h: seq<RawRow>, a: nat, b: nat)
    requires History(h) && a < b <= |h|
    ensures MinCloseTime(h[a..b]) == h[a].closeTime
  {
    var page := h[a..b];
    var k :| 0 <= k < |page| && page[k].closeTime == MinCloseTime(page);
    assert page[0] == h[a];
    if k > 0 {
      assert page[k] == h[a + k];
    }
  }

  /** One more page covers its limit less the one row it shares with the next. */
  lemma CoveredStep(remaining: int)
    requires remaining > 0
    ensures var limit := Min(MaxLimit, remaining);
      var rest := remaining - limit;
      && Covered(remaining) >= limit
      && Covered(remaining) == limit + (if rest > 0 then Covered(rest) - 1 else 0)
      && (rest > 0 ==> Covered(rest) >= 1)
  {
    var rest := remaining - Min(MaxLimit, remaining);
    if rest > 0 {
      assert PageCount(remaining) == PageCount(rest) + 1;
      PageCountAtMost(rest);
    }
  }

  lemma PageCountAtMost(remaining: int)
    requires remaining > 0
    ensures PageCount(remaining) <= remaining
  {
  }

  /** Two overlapping windows of a sequence join into one. */
  lemma SliceUnion(h: seq<RawRow>, lo: nat, a: nat, top: nat)
    requires lo <= a < top <= |h|
    ensures forall x :: (x in h[a..top] || x in h[lo..a + 1]) <==> x in h[lo..top]
  {
    assert h[lo..top] == h[lo..a] + h[a..top];
    assert h[lo..a + 1] == h[lo..a] + [h[a]];
    assert h[a..top][0] == h[a];
  }

  lemma ConcatCons(f: Fetched, rest: seq<Fetched>)
    ensures Concat(PagesOf([f] + rest)) == f.page + Concat(PagesOf(rest))
  {
    assert PagesOf([f] + rest) == [f.page] + PagesOf(rest);
    assert ([f.page] + PagesOf(rest))[1..] == PagesOf(rest);
  }

  /**
   * Against the idealised endpoint, with enough history below the current
   * top, the loop fetches every page and the pages together hold exactly the
   * `Covered(remaining)` rows just below the top.
   */
  lemma {:induction false} ExchangePages(h: seq<RawRow>, fetch: PageSource, remaining: int, endTime: int, top: nat)
    requires History(h)
    requires forall c: Call :: 1 <= c.limit <= MaxLimit ==> fetch(c) == Answer(h, c)
    requires top == if endTime == 0 then |h| else ClosedBy(h, endTime)
    requires Covered(remaining) <= top <= |h|
    ensures Paginate(fetch, remaining, endTime).Ok?
    ensures remaining > 0 ==> |Paginate(fetch, remaining, endTime).value| > 0
    ensures forall x ::
              (x in Concat(PagesOf(Paginate(fetch, remaining, endTime).value))) == (x in h[top - Covered(remaining)..top])
    decreases remaining
  {
    if remaining <= 0 {
      assert PagesOf([]) == [];
    } else {
      var limit := Min(MaxLimit, remaining);
      var rest := remaining - limit;
      var a := top - limit;
      CoveredRest(remaining, top);
      FullWindow(h, fetch, limit, endTime, top);
      MinCloseOfSlice(h, a, top);
      ClosedByRow(h, a);
      ExchangePages(h, fetch, rest, h[a].closeTime, a + 1);
      ExchangeStep(h, fetch, remaining, endTime, top, Paginate(fetch, rest, h[a].closeTime).value);
    }
  }

  /** One page in front of the rest of a run extends the run of rows it holds. */
  lemma ExchangeStep(h: seq<RawRow>, fetch: PageSource, remaining: int, endTime: int, top: nat, fs: seq<Fetched>)
    requires remaining > 0 && Min(MaxLimit, remaining) <= top <= |h|
    requires var a := top - Min(MaxLimit, remaining);
      && fetch(Call(Min(MaxLimit, remaining), endTime)) == Some(h[a..top])
      && MinCloseTime(h[a..top]) == h[a].closeTime
      && Paginate(fetch, remaining - Min(MaxLimit, remaining), h[a].closeTime) == Ok(fs)
    requires var rest := remaining - Min(MaxLimit, remaining);
      var a := top - Min(MaxLimit, remaining);
      && Covered(rest) <= a + 1
      && (forall x :: (x in Concat(PagesOf(fs))) == (x in h[a + 1 - Covered(rest)..a + 1]))
      && top - Covered(remaining) == (if rest > 0 then a + 1 - Covered(rest) else a)
      && (rest > 0 ==> top - Covered(remaining) <= a)
    ensures Paginate(fetch, remaining, endTime).Ok?
    ensures |Paginate(fetch, remaining, endTime).value| > 0
    ensures forall x ::
              (x in Concat(PagesOf(Paginate(fetch, remaining, endTime).value))) == (x in h[top - Covered(remaining)..top])
  {
    var limit := Min(MaxLimit, remaining);
    var rest := remaining - limit;
    var a := top - limit;
    var page := h[a..top];
    PaginateStep(fetch, remaining, endTime, page);
    ConcatCons(Fetched(Call(limit, endTime), page), fs);
    if rest > 0 {
      JoinRuns(h, top - Covered(remaining), a, top, Concat(PagesOf(fs)));
    } else {
      assert fs == [] && PagesOf(fs) == [];
      assert page + [] == page;
    }
  }

  /** With at least `limit` rows below the top, the endpoint answers the full window below it. */
  lemma FullWindow(h: seq<RawRow>, fetch: PageSource, limit: int, endTime: int, top: nat)
    requires forall c: Call :: 1 <= c.limit <= MaxLimit ==> fetch(c) == Answer(h, c)
    requires top == if endTime == 0 then |h| else ClosedBy(h, endTime)
    requires 1 <= limit <= top && limit <= MaxLimit
    ensures fetch(Call(limit, endTime)) == Some(h[top - limit..top])
  {
    assert fetch(Call(limit, endTime)) == Answer(h, Call(limit, endTime));
  }

  /** The history left below a page covers the rest of the countdown. */
  lemma CoveredRest(remaining: int, top: nat)
    requires remaining > 0 && Covered(remaining) <= top
    ensures var limit := Min(MaxLimit, remaining);
      var rest := remaining - limit;
      && 1 <= limit <= top
      && Covered(rest) <= top - limit + 1
      && top - Covered(remaining) == (if rest > 0 then top - limit + 1 - Covered(rest) else top - limit)
      && (rest > 0 ==> top - Covered(remaining) <= top - limit)
  {
    CoveredStep(remaining);
  }

  /** A page on top of rows that hold the run just below and sharing its first row makes one run. */
  lemma JoinRuns(h: seq<RawRow>, lo: nat, a: nat, top: nat, rows: seq<RawRow>)
    requires lo <= a < top <= |h|
    requires forall x :: (x in rows) == (x in h[lo..a + 1])
    ensures forall x :: (x in h[a..top] + rows) == (x in h[lo..top])
  {
    SliceUnion(h, lo, a, top);
  }

  lemma StrictSlice(h: seq<RawRow>, lo: nat)
    requires StrictlyIncreasing(h) && lo <= |h|
    ensures StrictlyIncreasing(h[lo..])
  {
    forall i, j | 0 <= i < j < |h[lo..]| ensures h[lo..][i].openTime < h[lo..][j].openTime {
      assert h[lo..][i] == h[lo + i] && h[lo..][j] == h[lo + j];
    }
  }

  lemma StrictIsWellKeyed(s: seq<RawRow>)
    requires StrictlyIncreasing(s)
    ensures WellKeyed(s)
  {
    forall i, j | 0 <= i < |s| && 0 <= j < |s| && s[i].openTime == s[j].openTime ensures s[i] == s[j] {
      assert i == j;
    }
  }

  /** Rows holding exactly the members of a strictly ordered run sort and deduplicate into that run. */
  lemma DeduplicatesToRun(rows: seq<RawRow>, run: seq<RawRow>)
    requires StrictlyIncreasing(run)
    requires forall x :: x in rows <==> x in run
    ensures SortAndDeduplicate(rows) == run
  {
    var unique := SortAndDeduplicate(rows);
    StrictIsWellKeyed(run);
    WellKeyedSubset(rows, run);
    WellKeyedSubset(unique, rows);
    SortedDistinctIsStrict(unique);
    StrictSeriesUnique(unique, run);
  }

  /** A run of the history has a live candle iff its newest row does not close by the cutoff. */
  lemma TrimmedRun(h: seq<RawRow>, lo: nat, cutoff: int)
    requires History(h) && lo < |h|
    ensures |TrimLive(h[lo..], cutoff)| == |h| - lo - (if h[|h| - 1].closeTime > cutoff then 1 else 0)
  {
    var s := h[lo..];
    assert s[|s| - 1] == h[|h| - 1];
    if h[|h| - 1].closeTime <= cutoff {
      forall i | 0 <= i < |s| ensures s[i].closeTime <= cutoff {
        assert s[i] == h[lo + i];
        if lo + i < |h| - 1 {
          assert h[lo + i].closeTime < h[|h| - 1].closeTime;
        }
      }
    }
  }

  /** Pages holding exactly a run of the history post-process into that run, finished and trimmed. */
  lemma RunPostProcessed(pages: seq<Page>, timeframe: string, nowMillis: nat, h: seq<RawRow>, lo: nat)
    requires |pages| > 0 && DurationSeconds(timeframe).Ok?
    requires History(h) && lo < |h|
    requires forall x :: x in Concat(pages) <==> x in h[lo..]
    ensures var c := PostProcess(pages, timeframe, nowMillis).value;
      && c == Finish(TrimLive(h[lo..], CutoffMillis(nowMillis)), DurationSeconds(timeframe).value)
      && |c| == |h| - lo - (if h[|h| - 1].closeTime > CutoffMillis(nowMillis) then 1 else 0)
  {
    PostProcessValue(pages, timeframe, nowMillis);
    StrictSlice(h, lo);
    DeduplicatesToRun(Concat(pages), h[lo..]);
    TrimmedRun(h, lo, CutoffMillis(nowMillis));
  }

  /** A full countdown from `n` against the idealised endpoint fetches exactly the newest `Covered(n)` rows. */
  lemma FetchedRun(h: seq<RawRow>, fetch: PageSource, n: int) returns (fs: seq<Fetched>)
    requires History(h)
    requires forall c: Call :: 1 <= c.limit <= MaxLimit ==> fetch(c) == Answer(h, c)
    requires n > 0 && Covered(n) <= |h|
    ensures Paginate(fetch, n, 0) == Ok(fs)
    ensures |fs| > 0
    ensures forall x :: (x in Concat(PagesOf(fs))) == (x in h[|h| - Covered(n)..])
  {
    ExchangePages(h, fetch, n, 0, |h|);
    fs := Paginate(fetch, n, 0).value;
    assert h[|h| - Covered(n)..|h|] == h[|h| - Covered(n)..];
  }

  /** A run of the loop that fetched `fs` is post-processed into the result. */
  lemma MarketDataOfPages(ep: Endpoint, pair: string, timeframe: string, nPerSecond: int, nowMillis: nat,
                          fs: seq<Fetched>)
    requires CandleCount(timeframe, nPerSecond).Ok?
    requires Paginate(Requester(ep, pair, timeframe), CandleCount(timeframe, nPerSecond).value + SafetyMargin, 0)
               == Ok(fs)
    ensures MarketData(ep, pair, timeframe, nPerSecond, nowMillis) == PostProcess(PagesOf(fs), timeframe, nowMillis)
  {
  }

  /**
   * The whole assembly against the idealised endpoint with enough history:
   * the result is the finished form of the `Covered(count + 10)` newest rows,
   * less a live newest candle. So `count + 11 - p` candles come back from
   * `p` pages, one fewer when the newest candle is still open, and never
   * fewer than `count + 10 - p`.
   */
  lemma ExchangeAssembly(ep: Endpoint, pair: string, timeframe: string, nPerSecond: int, nowMillis: nat,
                         h: seq<RawRow>)
    requires |timeframe| == 2 && WellFormed(timeframe)
    requires CandleCount(timeframe, nPerSecond).value + SafetyMargin > 0
    requires History(h)
    requires Serves(ep, pair, timeframe, h)
    requires Covered(CandleCount(timeframe, nPerSecond).value + SafetyMargin) <= |h|
    ensures var n := CandleCount(timeframe, nPerSecond).value + SafetyMargin;
      var r := MarketData(ep, pair, timeframe, nPerSecond, nowMillis);
      && r.Ok?
      && r.value == Finish(TrimLive(h[|h| - Covered(n)..], CutoffMillis(nowMillis)), DurationSeconds(timeframe).value)
      && |r.value| == n - PageCount(n) + 1 - (if h[|h| - 1].closeTime > CutoffMillis(nowMillis) then 1 else 0)
      && |r.value| >= n - PageCount(n)
  {
    var n := CandleCount(timeframe, nPerSecond).value + SafetyMargin;
    var fs := FetchedRun(h, Requester(ep, pair, timeframe), n);
    MarketDataOfPages(ep, pair, timeframe, nPerSecond, nowMillis, fs);
    CoveredStep(n);
    RunPostProcessed(PagesOf(fs), timeframe, nowMillis, h, |h| - Covered(n));
  }

  /**
   * "1h" with factor 5 asks for 18000 candles. The countdown from 18010 takes
   * 19 pages, so against the idealised endpoint at most 17992 candles come
   * back, fewer than were asked for.
   */
  lemma OneHourShortfall(ep: Endpoint, pair: string, nowMillis: nat, h: seq<RawRow>)
    requires History(h) && |h| >= 17992
    requires Serves(ep, pair, "1h", h)
    ensures var r := MarketData(ep, pair, "1h", 5, nowMillis);
      r.Ok? && 17991 <= |r.value| <= 17992 < CandleCount("1h", 5).value
  {
    OneHourScenario();
    assert PageCount(18010) == 19;
    assert Covered(18010) == 17992;
    ExchangeAssembly(ep, pair, "1h", 5, nowMillis, h);
  }
}
