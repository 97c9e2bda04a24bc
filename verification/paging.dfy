/**
 * The paging loop: counting down the candles still wanted in pages of at
 * most one endpoint maximum, the first page without a cursor and each later
 * one ending at the earliest close time of the page before.
 */
module Paging {
  import opened Basics
  import opened Candles
  import opened Requests

  /** Extra candles fetched beyond the count, a fixed constant of the assembly. */
  const SafetyMargin: int := 10

  /** The arguments of one page request; an end time of 0 means "no cursor". */
  datatype Call = Call(limit: int, endTime: int)

  /** One issued request and the page it returned. */
  datatype Fetched = Fetched(call: Call, page: Page)

  /**
   * The page source: the query encoder and the HTTP GET, as total
   * functions. `get` answers None when the request fails in transport or its
   * body is not JSON. An error reply of the endpoint is a JSON object; the
   * twelve named columns pick nothing out of it, so it reaches the loop as a
   * page of no rows.
   */
  datatype Endpoint = Endpoint(urlencode: Params -> string, get: string -> Option<Page>)

  /**
   * The keyword arguments of a page request, as the klines call reads them:
   * the limit, never a start time, and the end time exactly when there is a
   * cursor.
   */
  function CallKwargs(c: Call): (kw: Kwargs)
    ensures LastKwarg(kw, "limit") == Some(c.limit)
    ensures LastKwarg(kw, "end_time") == if c.endTime == 0 then None else Some(c.endTime)
    ensures LastKwarg(kw, "start_time") == None
  {
    assert [("limit", c.limit)][..0] == [];
    assert LastKwarg([("limit", c.limit)], "start_time") == None;
    if c.endTime == 0 then [("limit", c.limit)]
    else
      assert [("limit", c.limit), ("end_time", c.endTime)][..1] == [("limit", c.limit)];
      [("limit", c.limit), ("end_time", c.endTime)]
  }

  function CallParams(pair: string, timeframe: string, c: Call): Params {
    KlinesParams(pair, timeframe, CallKwargs(c))
  }

  /** The URL a page request is sent to. */
  function PageUrl(ep: Endpoint, pair: string, timeframe: string, c: Call): string {
    KlinesUrl(ep.urlencode, CallParams(pair, timeframe, c))
  }

  /** A page request for one pair and timeframe, as the paging loop sees it. */
  type PageSource = Call -> Option<Page>

  /** The page source that sends each request to the endpoint at its URL. */
  function Requester(ep: Endpoint, pair: string, timeframe: string): PageSource {
    c => ep.get(PageUrl(ep, pair, timeframe, c))
  }

  /**
   * Every page request is the endpoint's answer at the klines URL whose
   * query encodes the pair, the interval and the clamped limit, in that
   * order, and then the end time exactly when the cursor is set.
   */
  lemma RequesterSpec(ep: Endpoint, pair: string, timeframe: string, c: Call)
    ensures Requester(ep, pair, timeframe)(c)
              == ep.get(PublicUrl(BaseUrl, KlinesPath, ep.urlencode(
                   [("symbol", Text(pair)), ("interval", Text(timeframe)), ("limit", Integer(Min(c.limit, MaxLimit)))]
                   + (if c.endTime == 0 then [] else [("endTime", Integer(c.endTime))]))))
  {
    CallParamsShape(pair, timeframe, c);
    assert Requester(ep, pair, timeframe)(c) == ep.get(PageUrl(ep, pair, timeframe, c));
  }

  /**
   * A page request carries the pair, the interval and the limit clamped to
   * the page maximum, in that order, and then the end time exactly when the
   * cursor is set.
   */
  lemma CallParamsShape(pair: string, timeframe: string, c: Call)
    ensures CallParams(pair, timeframe, c)
              == [("symbol", Text(pair)), ("interval", Text(timeframe)), ("limit", Integer(Min(c.limit, MaxLimit)))]
                 + (if c.endTime == 0 then [] else [("endTime", Integer(c.endTime))])
  {
    if c.endTime == 0 {
      LimitOnlyParams(pair, timeframe, c.limit);
    } else {
      CursorParams(pair, timeframe, c.limit, c.endTime);
    }
  }

  lemma LimitOnlyParams(pair: string, timeframe: string, limit: int)
    ensures KlinesParams(pair, timeframe, [("limit", limit)])
              == [("symbol", Text(pair)), ("interval", Text(timeframe)), ("limit", Integer(Min(limit, MaxLimit)))]
  {
    var kw := [("limit", limit)];
    var head := [("symbol", Text(pair)), ("interval", Text(timeframe))];
    assert kw[..0] == [];
    assert KlinesParams(pair, timeframe, kw[..0]) == head;
    assert ParamName("limit") == Some("limit");
    assert ParamValue("limit", limit) == Integer(Min(limit, MaxLimit));
    assert Keys(head) == ["symbol", "interval"];
    assert "limit" !in Keys(head);
  }

  lemma CursorParams(pair: string, timeframe: string, limit: int, endTime: int)
    ensures KlinesParams(pair, timeframe, [("limit", limit), ("end_time", endTime)])
              == [("symbol", Text(pair)), ("interval", Text(timeframe)), ("limit", Integer(Min(limit, MaxLimit))),
                  ("endTime", Integer(endTime))]
  {
    var kw := [("limit", limit), ("end_time", endTime)];
    var one := [("symbol", Text(pair)), ("interval", Text(timeframe)), ("limit", Integer(Min(limit, MaxLimit)))];
    assert kw[..1] == [("limit", limit)];
    LimitOnlyParams(pair, timeframe, limit);
    assert ParamName("end_time") == Some("endTime");
    assert Keys(one) == ["symbol", "interval", "limit"];
    assert "endTime" !in Keys(one);
  }

  /** The lookups a page request answers: no start time, and an end time only with a cursor. */
  lemma CallParamsSpec(pair: string, timeframe: string, c: Call)
    ensures Lookup(CallParams(pair, timeframe, c), "symbol") == Some(Text(pair))
    ensures Lookup(CallParams(pair, timeframe, c), "interval") == Some(Text(timeframe))
    ensures Lookup(CallParams(pair, timeframe, c), "limit") == Some(Integer(Min(c.limit, MaxLimit)))
    ensures Lookup(CallParams(pair, timeframe, c), "endTime")
              == if c.endTime == 0 then None else Some(Integer(c.endTime))
    ensures Lookup(CallParams(pair, timeframe, c), "startTime") == None
  {
    var kw := CallKwargs(c);
    KlinesParamsHead(pair, timeframe, kw);
    KlinesParamsLookup(pair, timeframe, kw, "limit");
    KlinesParamsLookup(pair, timeframe, kw, "end_time");
    KlinesParamsLookup(pair, timeframe, kw, "start_time");
    assert ParamName("limit") == Some("limit");
    assert ParamName("end_time") == Some("endTime");
    assert ParamName("start_time") == Some("startTime");
    if c.endTime == 0 {
      assert kw == [("limit", c.limit)];
      assert kw[..0] == [];
      assert LastKwarg(kw, "limit") == Some(c.limit);
      assert LastKwarg(kw, "end_time") == None;
      assert LastKwarg(kw, "start_time") == None;
    } else {
      assert kw[..1] == [("limit", c.limit)];
      assert kw[..1][..0] == [];
      assert LastKwarg(kw, "end_time") == Some(c.endTime);
      assert LastKwarg(kw, "limit") == LastKwarg(kw[..1], "limit") == Some(c.limit);
      assert LastKwarg(kw, "start_time") == LastKwarg(kw[..1], "start_time") == None;
    }
  }

  /** The earliest close time of a non-empty page. */
  function MinCloseTime(page: Page): (m: int)
    requires |page| > 0
    ensures forall i :: 0 <= i < |page| ==> m <= page[i].closeTime
    ensures exists i :: 0 <= i < |page| && page[i].closeTime == m
  {
    if |page| == 1 then page[0].closeTime
    else
      var rest := MinCloseTime(page[1..]);
      assert forall i :: 1 <= i < |page| ==> page[i] == page[1..][i - 1];
      if page[0].closeTime <= rest then page[0].closeTime else rest
  }

  /** The page limits a countdown from `remaining` issues, as a reference. */
  function PageLimits(remaining: int): seq<int>
    decreases remaining
  {
    if remaining <= 0 then []
    else
      var limit := Min(MaxLimit, remaining);
      [limit] + PageLimits(remaining - limit)
  }

  function Sum(xs: seq<int>): int {
    if |xs| == 0 then 0 else xs[0] + Sum(xs[1..])
  }

  lemma PageLimitsStep(done: seq<int>, remaining: int)
    requires remaining > 0
    ensures done + PageLimits(remaining)
              == (done + [Min(MaxLimit, remaining)]) + PageLimits(remaining - Min(MaxLimit, remaining))
  {
  }

  /** The number of pages needed for `remaining` candles: its quotient by the page maximum, rounded up. */
  function PageCount(remaining: int): nat {
    if remaining <= 0 then 0 else (remaining + MaxLimit - 1) / MaxLimit
  }

  /** Every page limit lies between one and the page maximum. */
  lemma {:induction false} PageLimitsBounded(remaining: int)
    ensures forall i :: 0 <= i < |PageLimits(remaining)| ==> 1 <= PageLimits(remaining)[i] <= MaxLimit
    decreases remaining
  {
    if remaining > 0 {
      PageLimitsBounded(remaining - Min(MaxLimit, remaining));
    }
  }

  /** The limits add up to the countdown start, so the countdown ends at exactly zero. */
  lemma {:induction false} PageLimitsSum(remaining: int)
    ensures Sum(PageLimits(remaining)) == Max(0, remaining)
    decreases remaining
  {
    if remaining > 0 {
      var limit := Min(MaxLimit, remaining);
      PageLimitsSum(remaining - limit);
      assert PageLimits(remaining)[1..] == PageLimits(remaining - limit);
    }
  }

  /** The countdown issues one request per started thousand candles. */
  lemma {:induction false} PageLimitsCount(remaining: int)
    ensures |PageLimits(remaining)| == PageCount(remaining)
    decreases remaining
  {
    if remaining > 0 {
      PageLimitsCount(remaining - Min(MaxLimit, remaining));
    }
  }

  /** Every page but the last is a full page. */
  lemma {:induction false} PageLimitsFull(remaining: int)
    ensures forall i :: 0 <= i < |PageLimits(remaining)| - 1 ==> PageLimits(remaining)[i] == MaxLimit
    decreases remaining
  {
    if remaining > 0 {
      var limit := Min(MaxLimit, remaining);
      PageLimitsFull(remaining - limit);
      if limit < MaxLimit {
        assert PageLimits(remaining - limit) == [];
      }
    }
  }

  /** The limits of the issued requests, in order. */
  function Limits(fs: seq<Fetched>): (ls: seq<int>)
    ensures |ls| == |fs|
    ensures forall i :: 0 <= i < |fs| ==> ls[i] == fs[i].call.limit
  {
    seq(|fs|, i requires 0 <= i < |fs| => fs[i].call.limit)
  }

  lemma LimitsAppend(fs: seq<Fetched>, f: Fetched)
    ensures Limits(fs + [f]) == Limits(fs) + [f.call.limit]
  {
  }

  /** The paging loop as a recursive reference: fetch while candles remain, failing on the first bad page. */
  function Paginate(fetch: PageSource, remaining: int, endTime: int): Result<seq<Fetched>>
    decreases remaining
  {
    if remaining <= 0 then Ok([])
    else
      var call := Call(Min(MaxLimit, remaining), endTime);
      match fetch(call)
      case None => Err(FetchError)
      case Some(page) =>
        if |page| == 0 then Err(EmptyPage)
        else
          match Paginate(fetch, remaining - call.limit, MinCloseTime(page))
          case Err(e) => Err(e)
          case Ok(rest) => Ok([Fetched(call, page)] + rest)
  }

  /** One turn of the loop: a good page is followed by the rest of the countdown from its cursor. */
  lemma PaginateStep(fetch: PageSource, remaining: int, endTime: int, page: Page)
    requires remaining > 0 && |page| > 0
    requires fetch(Call(Min(MaxLimit, remaining), endTime)) == Some(page)
    ensures Paginate(fetch, remaining, endTime)
              == Prepend([Fetched(Call(Min(MaxLimit, remaining), endTime), page)],
                         Paginate(fetch, remaining - Min(MaxLimit, remaining), MinCloseTime(page)))
  {
  }

  lemma PrependNothing(rest: Result<seq<Fetched>>)
    ensures Prepend([], rest) == rest
  {
    if rest.Ok? {
      assert [] + rest.value == rest.value;
    }
  }

  lemma PrependTwice(a: seq<Fetched>, b: seq<Fetched>, rest: Result<seq<Fetched>>)
    ensures Prepend(a, Prepend(b, rest)) == Prepend(a + b, rest)
  {
    if rest.Ok? {
      assert a + (b + rest.value) == (a + b) + rest.value;
    }
  }

  /** The pages fetched so far, followed by the outcome of the rest of the loop. */
  function Prepend(done: seq<Fetched>, rest: Result<seq<Fetched>>): Result<seq<Fetched>> {
    match rest
    case Ok(fs) => Ok(done + fs)
    case Err(e) => Err(e)
  }

  /** A completed run that had candles to fetch began with a good page and went on from its cursor. */
  lemma PaginateFirst(fetch: PageSource, remaining: int, endTime: int)
    returns (page: Page, rest: seq<Fetched>)
    requires remaining > 0
    requires Paginate(fetch, remaining, endTime).Ok?
    ensures |page| > 0
    ensures fetch(Call(Min(MaxLimit, remaining), endTime)) == Some(page)
    ensures Paginate(fetch, remaining - Min(MaxLimit, remaining), MinCloseTime(page)) == Ok(rest)
    ensures Paginate(fetch, remaining, endTime).value
              == [Fetched(Call(Min(MaxLimit, remaining), endTime), page)] + rest
  {
    page := fetch(Call(Min(MaxLimit, remaining), endTime)).value;
    rest := Paginate(fetch, remaining - Min(MaxLimit, remaining), MinCloseTime(page)).value;
  }

  /** A completed run issues exactly the countdown's limits. */
  lemma {:induction false} PaginateLimits(fetch: PageSource, remaining: int, endTime: int)
    requires Paginate(fetch, remaining, endTime).Ok?
    ensures Limits(Paginate(fetch, remaining, endTime).value) == PageLimits(remaining)
    decreases remaining
  {
    if remaining > 0 {
      var page, rest := PaginateFirst(fetch, remaining, endTime);
      PaginateLimits(fetch, remaining - Min(MaxLimit, remaining), MinCloseTime(page));
      var fs := Paginate(fetch, remaining, endTime).value;
      assert Limits(fs) == [Min(MaxLimit, remaining)] + Limits(rest);
    }
  }

  /** Every page of a completed run is the endpoint's non-empty answer to its request. */
  lemma {:induction false} PaginatePages(fetch: PageSource, remaining: int, endTime: int)
    requires Paginate(fetch, remaining, endTime).Ok?
    ensures var fs := Paginate(fetch, remaining, endTime).value;
      forall i :: 0 <= i < |fs| ==>
        |fs[i].page| > 0 && fetch(fs[i].call) == Some(fs[i].page)
    decreases remaining
  {
    if remaining > 0 {
      var page, rest := PaginateFirst(fetch, remaining, endTime);
      PaginatePages(fetch, remaining - Min(MaxLimit, remaining), MinCloseTime(page));
      var fs := Paginate(fetch, remaining, endTime).value;
      assert forall i :: 0 < i < |fs| ==> fs[i] == rest[i - 1];
    }
  }

  /**
   * In a completed run the first request carries the starting cursor and
   * every later one ends at the earliest close time of the page before.
   */
  lemma {:induction false} PaginateCursors(fetch: PageSource, remaining: int, endTime: int)
    requires Paginate(fetch, remaining, endTime).Ok?
    ensures var fs := Paginate(fetch, remaining, endTime).value;
      && (|fs| > 0 ==> fs[0].call.endTime == endTime)
      && (forall i :: 0 <= i < |fs| - 1 ==> |fs[i].page| > 0 && fs[i + 1].call.endTime == MinCloseTime(fs[i].page))
    decreases remaining
  {
    if remaining > 0 {
      var page, rest := PaginateFirst(fetch, remaining, endTime);
      PaginateCursors(fetch, remaining - Min(MaxLimit, remaining), MinCloseTime(page));
      PaginatePages(fetch, remaining - Min(MaxLimit, remaining), MinCloseTime(page));
      var fs := Paginate(fetch, remaining, endTime).value;
      assert forall i :: 0 < i < |fs| ==> fs[i] == rest[i - 1];
    }
  }

  /**
   * The paging loop: counts down from `nCandles + SafetyMargin` in pages of
   * at most the endpoint maximum, the cursor starting unset and moving to the
   * earliest close time of each page. When every page arrives, there is one
   * per started thousand candles, every limit is between one and the
   * maximum, and the limits add up to the countdown start.
   */
  method FetchPages(fetch: PageSource, nCandles: int)
    returns (r: Result<seq<Fetched>>)
    ensures r == Paginate(fetch, nCandles + SafetyMargin, 0)
    ensures r.Err? ==> r.error == FetchError || r.error == EmptyPage
    ensures r.Ok? ==> |r.value| == PageCount(nCandles + SafetyMargin)
    ensures r.Ok? ==> forall i :: 0 <= i < |r.value| ==> 1 <= r.value[i].call.limit <= MaxLimit
    ensures r.Ok? ==> Sum(Limits(r.value)) == Max(0, nCandles + SafetyMargin)
  {
    var start := nCandles + SafetyMargin;
    var remaining := start;
    var endTime := 0;
    var fetched: seq<Fetched> := [];
    PrependNothing(Paginate(fetch, start, 0));
    assert Limits(fetched) + PageLimits(remaining) == PageLimits(start);
    while remaining > 0
      invariant Paginate(fetch, start, 0)
                  == Prepend(fetched, Paginate(fetch, remaining, endTime))
      invariant Limits(fetched) + PageLimits(remaining) == PageLimits(start)
      decreases remaining
    {
      var limit := Min(MaxLimit, remaining);
      var call := Call(limit, endTime);
      var response := fetch(call);
      if response.None? {
        assert Paginate(fetch, remaining, endTime) == Err(FetchError);
        return Err(FetchError);
      }
      var page := response.value;
      if |page| == 0 {
        assert Paginate(fetch, remaining, endTime) == Err(EmptyPage);
        return Err(EmptyPage);
      }
      PaginateStep(fetch, remaining, endTime, page);
      LimitsAppend(fetched, Fetched(call, page));
      PrependTwice(fetched, [Fetched(call, page)], Paginate(fetch, remaining - limit, MinCloseTime(page)));
      PageLimitsStep(Limits(fetched), remaining);
      fetched := fetched + [Fetched(call, page)];
      endTime := MinCloseTime(page);
      remaining := remaining - limit;
    }
    assert PageLimits(remaining) == [];
    assert Limits(fetched) + [] == Limits(fetched);
    assert Paginate(fetch, remaining, endTime) == Ok([]);
    assert fetched + [] == fetched;
    PageLimitsBounded(start);
    PageLimitsSum(start);
    PageLimitsCount(start);
    r := Ok(fetched);
  }

  /** "5s" with factor 1: five candles plus the margin fit in one request of fifteen. */
  lemma FiveSecondScenario()
    ensures PageLimits(5 + SafetyMargin) == [15]
  {
  }
}
