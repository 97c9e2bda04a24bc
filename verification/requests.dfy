/**
 * Building the query of a klines request and the URL it is sent to. The
 * query parameters are a dictionary that keeps insertion order, modelled as
 * an association list with one entry per key.
 */
module Requests {
  import opened Basics
  import Seqs

  const BaseUrl: string := "https://api.binance.com"
  const KlinesPath: string := "/api/v3/klines"

  /** The largest page the endpoint serves; larger limits are clamped to it. */
  const MaxLimit: int := 1000

  /** A query parameter value: the pair and interval are text, the rest integers. */
  datatype Value = Text(text: string) | Integer(number: int)

  /** Query parameters in insertion order. */
  type Params = seq<(string, Value)>

  /** Keyword arguments in call order, by name and integer value. */
  type Kwargs = seq<(string, int)>

  function Keys(p: Params): (ks: seq<string>)
    ensures |ks| == |p|
    ensures forall i :: 0 <= i < |p| ==> ks[i] == p[i].0
  {
    seq(|p|, i requires 0 <= i < |p| => p[i].0)
  }

  /** The value stored under `key`, if any. */
  function Lookup(p: Params, key: string): Option<Value> {
    var ks := Keys(p);
    if key in ks then Some(p[Seqs.FirstIndex(ks, key)].1) else None
  }

  /**
   * Dictionary assignment: an existing key keeps its place and takes the new
   * value, a new key goes at the end.
   */
  function Put(p: Params, key: string, v: Value): (r: Params)
    ensures Lookup(r, key) == Some(v)
    ensures forall k :: k != key ==> Lookup(r, k) == Lookup(p, k)
    ensures Keys(r) == if key in Keys(p) then Keys(p) else Keys(p) + [key]
    ensures forall i :: 0 <= i < |p| && p[i].0 != key ==> r[i] == p[i]
  {
    if key in Keys(p) then
      var r := seq(|p|, i requires 0 <= i < |p| => if p[i].0 == key then (key, v) else p[i]);
      assert Keys(r) == Keys(p);
      r
    else
      var r := p + [(key, v)];
      assert Keys(r) == Keys(p) + [key];
      Seqs.FirstIndexAppend(Keys(p), key);
      Seqs.FirstIndexUnique(Keys(r), key, |p|);
      r
  }

  /** The query parameter a keyword argument sets, if it sets one. */
  function ParamName(kwarg: string): Option<string> {
    if kwarg == "start_time" then Some("startTime")
    else if kwarg == "end_time" then Some("endTime")
    else if kwarg == "limit" then Some("limit")
    else None
  }

  /** The stored value for a keyword argument: the limit is clamped, times are kept. */
  function ParamValue(kwarg: string, value: int): Value {
    if kwarg == "limit" then Integer(Min(value, MaxLimit)) else Integer(value)
  }

  /** The query parameters for a klines request: pair and interval, then each recognised keyword. */
  function KlinesParams(pair: string, interval: string, kwargs: Kwargs): Params
    decreases |kwargs|
  {
    if |kwargs| == 0 then [("symbol", Text(pair)), ("interval", Text(interval))]
    else
      var p := KlinesParams(pair, interval, kwargs[..|kwargs| - 1]);
      var (name, value) := kwargs[|kwargs| - 1];
      match ParamName(name)
      case Some(key) => Put(p, key, ParamValue(name, value))
      case None => p
  }

  /** The value of the last keyword argument called `name`, if any. */
  function LastKwarg(kwargs: Kwargs, name: string): Option<int>
    decreases |kwargs|
  {
    if |kwargs| == 0 then None
    else if kwargs[|kwargs| - 1].0 == name then Some(kwargs[|kwargs| - 1].1)
    else LastKwarg(kwargs[..|kwargs| - 1], name)
  }

  /** The parameter names the keyword arguments set, in call order, repeats included. */
  function SetNames(kwargs: Kwargs): seq<string>
    decreases |kwargs|
  {
    if |kwargs| == 0 then []
    else
      var rest := SetNames(kwargs[..|kwargs| - 1]);
      match ParamName(kwargs[|kwargs| - 1].0)
      case Some(key) => rest + [key]
      case None => rest
  }

  /** What a keyword argument leaves under its parameter name. */
  function Expected(kwargs: Kwargs, name: string): Option<Value> {
    match LastKwarg(kwargs, name)
    case Some(v) => Some(ParamValue(name, v))
    case None => None
  }

  /** The klines query always starts with the pair and then the interval. */
  lemma {:induction false} KlinesParamsHead(pair: string, interval: string, kwargs: Kwargs)
    ensures var p := KlinesParams(pair, interval, kwargs);
      |p| >= 2 && p[0] == ("symbol", Text(pair)) && p[1] == ("interval", Text(interval))
    ensures Lookup(KlinesParams(pair, interval, kwargs), "symbol") == Some(Text(pair))
    ensures Lookup(KlinesParams(pair, interval, kwargs), "interval") == Some(Text(interval))
    decreases |kwargs|
  {
    var p := KlinesParams(pair, interval, kwargs);
    if |kwargs| > 0 {
      KlinesParamsHead(pair, interval, kwargs[..|kwargs| - 1]);
    }
    assert Keys(p)[0] == "symbol" && Keys(p)[1] == "interval";
    Seqs.FirstIndexUnique(Keys(p), "symbol", 0);
    assert Keys(p)[..1] == ["symbol"];
    Seqs.FirstIndexUnique(Keys(p), "interval", 1);
  }

  /**
   * The limit, start time and end time are present exactly when the matching
   * keyword was given, holding the value of the last such keyword, the limit
   * clamped to the page maximum.
   */
  lemma {:induction false} KlinesParamsLookup(pair: string, interval: string, kwargs: Kwargs, kwarg: string)
    requires ParamName(kwarg).Some?
    ensures Lookup(KlinesParams(pair, interval, kwargs), ParamName(kwarg).value) == Expected(kwargs, kwarg)
    decreases |kwargs|
  {
    var key := ParamName(kwarg).value;
    if |kwargs| == 0 {
      assert Keys(KlinesParams(pair, interval, kwargs)) == ["symbol", "interval"];
    } else {
      var init := kwargs[..|kwargs| - 1];
      KlinesParamsLookup(pair, interval, init, kwarg);
    }
  }

  /** The parameters appear in the order they were first set, one entry per name. */
  lemma {:induction false} KlinesParamsOrder(pair: string, interval: string, kwargs: Kwargs)
    ensures Keys(KlinesParams(pair, interval, kwargs))
              == Seqs.DropDuplicates(["symbol", "interval"] + SetNames(kwargs))
    decreases |kwargs|
  {
    if |kwargs| == 0 {
      FirstOrder(pair, interval);
    } else {
      KlinesParamsOrder(pair, interval, kwargs[..|kwargs| - 1]);
      NextOrder(pair, interval, kwargs);
    }
  }

  lemma FirstOrder(pair: string, interval: string)
    ensures Keys(KlinesParams(pair, interval, [])) == Seqs.DropDuplicates(["symbol", "interval"] + SetNames([]))
  {
    var head := ["symbol", "interval"];
    assert Keys(KlinesParams(pair, interval, [])) == head;
    assert head + SetNames([]) == head;
    Seqs.DropDuplicatesOfDistinct(head);
  }

  lemma NextOrder(pair: string, interval: string, kwargs: Kwargs)
    requires |kwargs| > 0
    requires Keys(KlinesParams(pair, interval, kwargs[..|kwargs| - 1]))
               == Seqs.DropDuplicates(["symbol", "interval"] + SetNames(kwargs[..|kwargs| - 1]))
    ensures Keys(KlinesParams(pair, interval, kwargs))
              == Seqs.DropDuplicates(["symbol", "interval"] + SetNames(kwargs))
  {
    var head := ["symbol", "interval"];
    var init := kwargs[..|kwargs| - 1];
    var (name, value) := kwargs[|kwargs| - 1];
    LastKeyword(pair, interval, kwargs);
    if ParamName(name).Some? {
      var key := ParamName(name).value;
      Seqs.AppendAssoc(head, SetNames(init), [key]);
      OrderStep(KlinesParams(pair, interval, init), key, ParamValue(name, value), head + SetNames(init));
    }
  }

  /** How the last keyword argument extends the query and the list of set names. */
  lemma LastKeyword(pair: string, interval: string, kwargs: Kwargs)
    requires |kwargs| > 0
    ensures var init := kwargs[..|kwargs| - 1];
      var (name, value) := kwargs[|kwargs| - 1];
      match ParamName(name)
      case Some(key) =>
        && KlinesParams(pair, interval, kwargs) == Put(KlinesParams(pair, interval, init), key, ParamValue(name, value))
        && SetNames(kwargs) == SetNames(init) + [key]
      case None =>
        && KlinesParams(pair, interval, kwargs) == KlinesParams(pair, interval, init)
        && SetNames(kwargs) == SetNames(init)
  {
  }

  /** Assigning a key keeps the key order equal to the first-set order of the names. */
  lemma OrderStep(q: Params, key: string, v: Value, names: seq<string>)
    requires Keys(q) == Seqs.DropDuplicates(names)
    ensures Keys(Put(q, key, v)) == Seqs.DropDuplicates(names + [key])
  {
    var all := names + [key];
    assert all[..|all| - 1] == names;
    var dd := Seqs.DropDuplicates(names);
    assert key in dd <==> key in names by {
      if key in names {
        var i :| 0 <= i < |names| && names[i] == key;
      }
      if key in dd {
        var i :| 0 <= i < |dd| && dd[i] == key;
      }
    }
  }

  /** The URL of an unsigned request: base and path, then `?` and the query when there is one. */
  function PublicUrl(base: string, path: string, query: string): (url: string)
    ensures base + path <= url
    ensures url == base + path <==> query == ""
    ensures query != "" ==> url[|base + path|] == '?' && url[|base + path| + 1..] == query
  {
    var url := base + path;
    if query != "" then url + "?" + query else url
  }

  /** The query a URL carries after the given endpoint, if it carries one. */
  function QueryOf(url: string, endpoint: string): Option<string> {
    if endpoint < url && url[|endpoint|] == '?' then Some(url[|endpoint| + 1..]) else None
  }

  /** The query encoded into a URL can be read back from it. */
  lemma QueryRoundTrip(base: string, path: string, query: string)
    ensures QueryOf(PublicUrl(base, path, query), base + path)
              == if query == "" then None else Some(query)
  {
  }

  /** The URL a klines request with these parameters is sent to, given the query encoder. */
  function KlinesUrl(urlencode: Params -> string, params: Params): string {
    PublicUrl(BaseUrl, KlinesPath, urlencode(params))
  }
}
