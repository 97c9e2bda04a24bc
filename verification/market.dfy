/**
 * The whole assembly of the most recent market data for a pair: the candle
 * count from the timeframe, the paging loop, and the post-processing of the
 * fetched pages into a finished series.
 */
module Market {
  import opened Basics
  import opened Candles
  import opened Timeframe
  import opened Series
  import opened Paging
  import Seqs

  function PagesOf(fs: seq<Fetched>): (pages: seq<Page>)
    ensures |pages| == |fs|
    ensures forall i :: 0 <= i < |fs| ==> pages[i] == fs[i].page
  {
    seq(|fs|, i requires 0 <= i < |fs| => fs[i].page)
  }

  /**
   * From fetched pages to the finished series. With no page there is nothing
   * to concatenate; otherwise the series is ordered by open time, each close
   * time lies one offset after its open time, it is no longer than the
   * fetched rows, and each candle is the finished form of a fetched row.
   */
  function PostProcess(pages: seq<Page>, timeframe: string, nowMillis: nat): (r: Result<seq<Candle>>)
    ensures |pages| == 0 ==> r == Err(NothingToConcatenate)
    ensures |pages| > 0 ==> (r.Ok? <==> DurationSeconds(timeframe).Ok?)
    ensures r.Ok? ==> CandleSeries(r.value, DurationSeconds(timeframe).value)
    ensures r.Ok? ==> |r.value| <= |Concat(pages)|
    ensures r.Ok? ==> FinishedFromRows(r.value, Concat(pages), DurationSeconds(timeframe).value)
  {
    if |pages| == 0 then Err(NothingToConcatenate)
    else
      var rows := Concat(pages);
      var unique := SortAndDeduplicate(rows);
      var series := TrimLive(unique, CutoffMillis(nowMillis));
      var duration := DurationSeconds(timeframe);
      if duration.Err? then Err(duration.error)
      else
        TrimmedFacts(rows, unique, series);
        FinishIsSeries(series, duration.value);
        FinishedFrom(series, rows, duration.value);
        Ok(Finish(series, duration.value))
  }

  lemma TrimmedFacts(rows: seq<RawRow>, unique: seq<RawRow>, series: seq<RawRow>)
    requires SortedByOpenTime(unique) && |unique| <= |rows| && series <= unique
    requires forall x :: x in unique ==> x in rows
    ensures SortedByOpenTime(series) && |series| <= |rows|
    ensures forall i :: 0 <= i < |series| ==> series[i] in rows
  {
    assert forall i :: 0 <= i < |series| ==> series[i] == unique[i];
  }

  /** Every candle is the finished form of one of the given rows. */
  predicate FinishedFromRows(c: seq<Candle>, rows: seq<RawRow>, offset: int) {
    forall i :: 0 <= i < |c| ==> c[i] in Finish(rows, offset)
  }

  lemma FinishedFrom(series: seq<RawRow>, rows: seq<RawRow>, offset: int)
    requires forall i :: 0 <= i < |series| ==> series[i] in rows
    ensures FinishedFromRows(Finish(series, offset), rows, offset)
  {
    var c := Finish(series, offset);
    forall i | 0 <= i < |c| ensures c[i] in Finish(rows, offset) {
      var k :| 0 <= k < |rows| && rows[k] == series[i];
      assert Finish(rows, offset)[k] == c[i];
    }
  }

  /** The value of a successful post-processing, spelled out step by step. */
  lemma PostProcessValue(pages: seq<Page>, timeframe: string, nowMillis: nat)
    requires |pages| > 0 && DurationSeconds(timeframe).Ok?
    ensures PostProcess(pages, timeframe, nowMillis).value
              == Finish(TrimLive(SortAndDeduplicate(Concat(pages)), CutoffMillis(nowMillis)),
                        DurationSeconds(timeframe).value)
  {
    assert |pages| > 0;
    var series := TrimLive(SortAndDeduplicate(Concat(pages)), CutoffMillis(nowMillis));
    assert PostProcess(pages, timeframe, nowMillis) == Ok(Finish(series, DurationSeconds(timeframe).value));
  }

  /** Open times strictly increase along the candles. */
  predicate StrictCandles(c: seq<Candle>) {
    forall i, j :: 0 <= i < j < |c| ==> c[i].openTime < c[j].openTime
  }

  /** Every row that some other row opens after is finished into the candles. */
  predicate EarlierRowsIn(c: seq<Candle>, rows: seq<RawRow>, offset: int) {
    forall x, y :: x in rows && y in rows && x.openTime < y.openTime ==> ToCandle(x, offset) in c
  }

  /** A latest-opening row is finished into the candles iff no row closes after the cutoff. */
  predicate LatestRowIn(c: seq<Candle>, rows: seq<RawRow>, offset: int, cutoff: int) {
    forall x :: x in rows && (forall y :: y in rows ==> y.openTime <= x.openTime) ==>
      (ToCandle(x, offset) in c <==> forall y :: y in rows ==> y.closeTime <= cutoff)
  }

  /**
   * When open time is a key of the fetched rows, the finished series is
   * strictly ordered by open time; every fetched row but the latest appears
   * in it; and the latest appears exactly when no fetched candle closes after
   * the wall clock truncated to whole seconds.
   */
  lemma AssembledSeries(pages: seq<Page>, timeframe: string, nowMillis: nat)
    requires |pages| > 0 && DurationSeconds(timeframe).Ok?
    requires WellKeyed(Concat(pages))
    ensures StrictCandles(PostProcess(pages, timeframe, nowMillis).value)
    ensures EarlierRowsIn(PostProcess(pages, timeframe, nowMillis).value, Concat(pages), DurationSeconds(timeframe).value)
    ensures LatestRowIn(PostProcess(pages, timeframe, nowMillis).value, Concat(pages),
                        DurationSeconds(timeframe).value, CutoffMillis(nowMillis))
  {
    var rows := Concat(pages);
    var unique := SortAndDeduplicate(rows);
    var cutoff := CutoffMillis(nowMillis);
    var offset := DurationSeconds(timeframe).value;
    var c := PostProcess(pages, timeframe, nowMillis).value;
    PostProcessValue(pages, timeframe, nowMillis);
    WellKeyedSubset(unique, rows);
    SortedDistinctIsStrict(unique);
    TrimmedStrict(unique, cutoff, offset, c);
    EarlierRowsKept(rows, unique, cutoff, offset, c);
    LatestRowKept(rows, unique, cutoff, offset, c);
  }

  lemma TrimmedStrict(unique: seq<RawRow>, cutoff: int, offset: int, c: seq<Candle>)
    requires StrictlyIncreasing(unique)
    requires c == Finish(TrimLive(unique, cutoff), offset)
    ensures StrictCandles(c)
  {
    var series := TrimLive(unique, cutoff);
    forall i, j | 0 <= i < j < |c| ensures c[i].openTime < c[j].openTime {
      assert c[i].openTime == series[i].openTime == unique[i].openTime;
      assert c[j].openTime == series[j].openTime == unique[j].openTime;
    }
  }

  lemma EarlierRowsKept(rows: seq<RawRow>, unique: seq<RawRow>, cutoff: int, offset: int, c: seq<Candle>)
    requires StrictlyIncreasing(unique)
    requires forall x :: x in unique <==> x in rows
    requires c == Finish(TrimLive(unique, cutoff), offset)
    ensures EarlierRowsIn(c, rows, offset)
  {
    forall x, y | x in rows && y in rows && x.openTime < y.openTime
      ensures ToCandle(x, offset) in c
    {
      EarlierRow(unique, cutoff, offset, x, y);
    }
  }

  lemma EarlierRow(unique: seq<RawRow>, cutoff: int, offset: int, x: RawRow, y: RawRow)
    requires StrictlyIncreasing(unique)
    requires x in unique && y in unique && x.openTime < y.openTime
    ensures ToCandle(x, offset) in Finish(TrimLive(unique, cutoff), offset)
  {
    var k :| 0 <= k < |unique| && unique[k] == x;
    var l :| 0 <= l < |unique| && unique[l] == y;
    assert k < l;
    EarlierRowKept(unique, cutoff, offset, k);
  }

  /** Trimming only ever removes the last row, so every earlier one is finished. */
  lemma EarlierRowKept(unique: seq<RawRow>, cutoff: int, offset: int, k: nat)
    requires k < |unique| - 1
    ensures ToCandle(unique[k], offset) in Finish(TrimLive(unique, cutoff), offset)
  {
    var series := TrimLive(unique, cutoff);
    assert series[k] == unique[k];
    assert Finish(series, offset)[k] == ToCandle(unique[k], offset);
  }

  lemma LatestRowKept(rows: seq<RawRow>, unique: seq<RawRow>, cutoff: int, offset: int, c: seq<Candle>)
    requires StrictlyIncreasing(unique)
    requires forall x :: x in unique <==> x in rows
    requires c == Finish(TrimLive(unique, cutoff), offset)
    ensures LatestRowIn(c, rows, offset, cutoff)
  {
    forall x | x in rows && (forall y :: y in rows ==> y.openTime <= x.openTime)
      ensures (ToCandle(x, offset) in c) == (forall y :: y in rows ==> y.closeTime <= cutoff)
    {
      LatestRow(rows, unique, cutoff, offset, x);
    }
  }

  lemma LatestRow(rows: seq<RawRow>, unique: seq<RawRow>, cutoff: int, offset: int, x: RawRow)
    requires StrictlyIncreasing(unique)
    requires forall x :: x in unique <==> x in rows
    requires x in rows && forall y :: y in rows ==> y.openTime <= x.openTime
    ensures (ToCandle(x, offset) in Finish(TrimLive(unique, cutoff), offset))
              == (forall y :: y in rows ==> y.closeTime <= cutoff)
  {
    assert unique[|unique| - 1] in rows;
    var k :| 0 <= k < |unique| && unique[k] == x;
    assert k == |unique| - 1;
    if forall y :: y in rows ==> y.closeTime <= cutoff {
      LatestKept(unique, cutoff, offset);
    } else {
      var y :| y in rows && y.closeTime > cutoff;
      assert y in unique;
      LatestDropped(unique, cutoff, offset);
    }
  }

  lemma LatestKept(unique: seq<RawRow>, cutoff: int, offset: int)
    requires |unique| > 0
    requires forall i :: 0 <= i < |unique| ==> unique[i].closeTime <= cutoff
    ensures ToCandle(unique[|unique| - 1], offset) in Finish(TrimLive(unique, cutoff), offset)
  {
    var c := Finish(TrimLive(unique, cutoff), offset);
    assert c[|unique| - 1] == ToCandle(unique[|unique| - 1], offset);
  }

  lemma LatestDropped(unique: seq<RawRow>, cutoff: int, offset: int)
    requires StrictlyIncreasing(unique) && |unique| > 0
    requires exists y :: y in unique && y.closeTime > cutoff
    ensures ToCandle(unique[|unique| - 1], offset) !in Finish(TrimLive(unique, cutoff), offset)
  {
    var series := TrimLive(unique, cutoff);
    var c := Finish(series, offset);
    var last := |unique| - 1;
    var y :| y in unique && y.closeTime > cutoff;
    var m :| 0 <= m < |unique| && unique[m] == y;
    assert series == unique[..last];
    forall i | 0 <= i < |c| ensures c[i] != ToCandle(unique[last], offset) {
      assert c[i].openTime == series[i].openTime == unique[i].openTime < unique[last].openTime;
    }
  }

  /** The assembly as one pure composition, the reference for the method below. */
  function MarketData(ep: Endpoint, pair: string, timeframe: string, nPerSecond: int, nowMillis: nat): Result<seq<Candle>> {
    var count := CandleCount(timeframe, nPerSecond);
    if count.Err? then Err(count.error)
    else
      var fetched := Paginate(Requester(ep, pair, timeframe), count.value + SafetyMargin, 0);
      if fetched.Err? then Err(fetched.error)
      else PostProcess(PagesOf(fetched.value), timeframe, nowMillis)
  }

  /** The three ways the assembly ends: a bad token, a failed page, or a post-processed series. */
  lemma MarketDataCases(ep: Endpoint, pair: string, timeframe: string, nPerSecond: int, nowMillis: nat)
    ensures var count := CandleCount(timeframe, nPerSecond);
      count.Err? ==> MarketData(ep, pair, timeframe, nPerSecond, nowMillis) == Err(count.error)
    ensures var count := CandleCount(timeframe, nPerSecond);
      count.Ok? ==>
        var fetched := Paginate(Requester(ep, pair, timeframe), count.value + SafetyMargin, 0);
        MarketData(ep, pair, timeframe, nPerSecond, nowMillis)
          == if fetched.Err? then Err(fetched.error)
             else PostProcess(PagesOf(fetched.value), timeframe, nowMillis)
  {
  }

  /** What the assembly promises, stated on the pure composition. */
  lemma MarketDataSpec(ep: Endpoint, pair: string, timeframe: string, nPerSecond: int, nowMillis: nat)
    ensures !WellFormed(timeframe) ==>
              MarketData(ep, pair, timeframe, nPerSecond, nowMillis) == Err(CandleCount(timeframe, nPerSecond).error)
    ensures WellFormed(timeframe) && CandleCount(timeframe, nPerSecond).value + SafetyMargin <= 0 ==>
              MarketData(ep, pair, timeframe, nPerSecond, nowMillis) == Err(NothingToConcatenate)
    ensures var r := MarketData(ep, pair, timeframe, nPerSecond, nowMillis);
      r.Ok? ==> |timeframe| == 2 && CandleSeries(r.value, DurationSeconds(timeframe).value)
  {
    MarketDataCases(ep, pair, timeframe, nPerSecond, nowMillis);
    var count := CandleCount(timeframe, nPerSecond);
    if count.Ok? && count.value + SafetyMargin <= 0 {
      assert Paginate(Requester(ep, pair, timeframe), count.value + SafetyMargin, 0) == Ok([]);
      assert PagesOf([]) == [];
    }
  }

  /**
   * The most recent candles of `pair` for `timeframe`. A malformed token
   * fails before any request; a count that leaves nothing to fetch fails on
   * the empty concatenation; a finished series is ordered by open time with
   * every close time one offset after its open time, and only two-character
   * tokens produce one.
   */
  method MostRecentMarketData(ep: Endpoint, pair: string, timeframe: string, nPerSecond: int, nowMillis: nat)
    returns (r: Result<seq<Candle>>)
    ensures r == MarketData(ep, pair, timeframe, nPerSecond, nowMillis)
    ensures !WellFormed(timeframe) ==> r == Err(CandleCount(timeframe, nPerSecond).error)
    ensures WellFormed(timeframe) && CandleCount(timeframe, nPerSecond).value + SafetyMargin <= 0 ==>
              r == Err(NothingToConcatenate)
    ensures r.Ok? ==> |timeframe| == 2 && CandleSeries(r.value, DurationSeconds(timeframe).value)
  {
    MarketDataCases(ep, pair, timeframe, nPerSecond, nowMillis);
    MarketDataSpec(ep, pair, timeframe, nPerSecond, nowMillis);
    var count := CandleCount(timeframe, nPerSecond);
    if count.Err? {
      return Err(count.error);
    }
    var fetched := FetchPages(Requester(ep, pair, timeframe), count.value);
    if fetched.Err? {
      return Err(fetched.error);
    }
    r := PostProcess(PagesOf(fetched.value), timeframe, nowMillis);
  }
}
