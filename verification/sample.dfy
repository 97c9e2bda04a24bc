/**
 * A concrete endpoint that behaves as the idealised one: its query encoder
 * spells out the limit and the end time, and its GET reads them back and
 * answers from an hourly history. Against it the assembly of "1h" with
 * factor 5 returns fewer than the 18000 candles it asks for.
 */
module ExchangeSample {
  import opened Basics
  import opened Candles
  import opened Requests
  import opened Paging
  import opened Market
  import opened Exchange
  import Timeframe

  /** `n` copies of one character. */
  function Tally(n: nat, ch: char): (s: string)
    ensures |s| == n
    ensures forall i :: 0 <= i < n ==> s[i] == ch
  {
    seq(n, i => ch)
  }

  /** A query that spells out a limit and an end time: a tally, a separator, a signed tally. */
  function EncodeCall(limit: nat, endTime: int): string {
    Tally(limit, 'l') + "e" + (if endTime >= 0 then Tally(endTime, 'p') else Tally(-endTime, 'n'))
  }

  /** The length of the leading tally of the limit. */
  function LimitLength(s: string): nat
    decreases |s|
  {
    if |s| > 0 && s[0] == 'l' then 1 + LimitLength(s[1..]) else 0
  }

  /** The request a query spelt by `EncodeCall` stands for. */
  function DecodeCall(q: string): Call {
    var limit := LimitLength(q);
    var rest := if limit + 1 <= |q| then q[limit + 1..] else [];
    Call(limit, if |rest| > 0 && rest[0] == 'n' then -|rest| else |rest|)
  }

  lemma {:induction false} LimitLengthOfTally(n: nat, rest: string)
    requires |rest| > 0 && rest[0] != 'l'
    ensures LimitLength(Tally(n, 'l') + rest) == n
    decreases n
  {
    if n > 0 {
      assert (Tally(n, 'l') + rest)[1..] == Tally(n - 1, 'l') + rest;
      LimitLengthOfTally(n - 1, rest);
    } else {
      assert Tally(0, 'l') + rest == rest;
    }
  }

  /** Decoding an encoded request gives it back. */
  lemma DecodeEncode(limit: nat, endTime: int)
    ensures DecodeCall(EncodeCall(limit, endTime)) == Call(limit, endTime)
    ensures EncodeCall(limit, endTime) != ""
  {
    var t := if endTime >= 0 then Tally(endTime, 'p') else Tally(-endTime, 'n');
    var q := EncodeCall(limit, endTime);
    assert q == Tally(limit, 'l') + ("e" + t);
    LimitLengthOfTally(limit, "e" + t);
    assert q[limit + 1..] == t;
  }

  function IntegerOf(v: Option<Value>): int {
    match v
    case Some(Integer(n)) => n
    case _ => 0
  }

  /** The sample query encoder: only the limit and the end time are spelt out. */
  function SampleEncode(p: Params): string {
    EncodeCall(Max(0, IntegerOf(Lookup(p, "limit"))), IntegerOf(Lookup(p, "endTime")))
  }

  /** The sample GET: reads the request back from the query and answers from the history. */
  function SampleGet(h: seq<RawRow>, url: string): Option<Page> {
    match QueryOf(url, BaseUrl + KlinesPath)
    case Some(q) => Answer(h, DecodeCall(q))
    case None => None
  }

  function SampleEndpoint(h: seq<RawRow>): Endpoint {
    Endpoint(SampleEncode, url => SampleGet(h, url))
  }

  /** The `i`-th hourly candle: it opens at hour `i` and closes one millisecond before the next. */
  function SampleRow(i: int): RawRow {
    RawRow(i * 3600000, "", "", "", "", "", i * 3600000 + 3599999, "", 0, "", "", "")
  }

  /** `n` consecutive hourly candles from the epoch. */
  function SampleHistory(n: nat): (h: seq<RawRow>)
    ensures |h| == n
    ensures History(h)
  {
    seq(n, i => SampleRow(i))
  }

  /** The sample encoder spells out exactly the limit and the end time of a page request. */
  lemma SampleQuery(pair: string, timeframe: string, c: Call)
    requires 1 <= c.limit <= MaxLimit
    ensures SampleEncode(CallParams(pair, timeframe, c)) == EncodeCall(c.limit, c.endTime)
  {
    var p := CallParams(pair, timeframe, c);
    CallParamsSpec(pair, timeframe, c);
    assert IntegerOf(Lookup(p, "limit")) == c.limit;
    assert IntegerOf(Lookup(p, "endTime")) == c.endTime;
  }

  /** The sample GET reads a spelt-out request back from its URL and answers it. */
  lemma SampleAnswer(h: seq<RawRow>, c: Call)
    requires c.limit >= 0
    ensures SampleGet(h, PublicUrl(BaseUrl, KlinesPath, EncodeCall(c.limit, c.endTime))) == Answer(h, c)
  {
    var q := EncodeCall(c.limit, c.endTime);
    DecodeEncode(c.limit, c.endTime);
    QueryRoundTrip(BaseUrl, KlinesPath, q);
  }

  lemma SampleServesCall(h: seq<RawRow>, pair: string, timeframe: string, c: Call)
    requires 1 <= c.limit <= MaxLimit
    ensures Requester(SampleEndpoint(h), pair, timeframe)(c) == Answer(h, c)
  {
    var ep := SampleEndpoint(h);
    var p := CallParams(pair, timeframe, c);
    assert ep.urlencode(p) == SampleEncode(p);
    var url := PublicUrl(BaseUrl, KlinesPath, SampleEncode(p));
    assert PageUrl(ep, pair, timeframe, c) == url;
    assert ep.get(url) == SampleGet(h, url);
    assert Requester(ep, pair, timeframe)(c) == ep.get(PageUrl(ep, pair, timeframe, c));
    SampleQuery(pair, timeframe, c);
    SampleAnswer(h, c);
  }

  /** The sample endpoint serves every request the loop can make as the idealised endpoint. */
  lemma SampleServes(h: seq<RawRow>, pair: string, timeframe: string)
    ensures Serves(SampleEndpoint(h), pair, timeframe, h)
  {
    forall c: Call | 1 <= c.limit <= MaxLimit
      ensures Requester(SampleEndpoint(h), pair, timeframe)(c) == Answer(h, c)
    {
      SampleServesCall(h, pair, timeframe, c);
    }
  }

  /**
   * The shortfall happens: with 17992 hourly candles behind it, the sample
   * endpoint gives the assembly of "1h" with factor 5 fewer than the 18000
   * candles it asks for.
   */
  lemma SampleShortfall(pair: string, nowMillis: nat)
    ensures var r := MarketData(SampleEndpoint(SampleHistory(17992)), pair, "1h", 5, nowMillis);
      r.Ok? && |r.value| < Timeframe.CandleCount("1h", 5).value
  {
    var h := SampleHistory(17992);
    SampleServes(h, pair, "1h");
    OneHourShortfall(SampleEndpoint(h), pair, nowMillis, h);
  }
}
