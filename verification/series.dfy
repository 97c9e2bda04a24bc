/**
 * Turning fetched pages into one series: concatenation, ordering by open
 * time, removal of identical rows, removal of a still-open last candle, and
 * the recomputed close time with the `ignore` column dropped.
 */
module Series {
  import opened Candles
  import Seqs

  predicate SortedByOpenTime(s: seq<RawRow>) {
    forall i, j :: 0 <= i < j < |s| ==> s[i].openTime <= s[j].openTime
  }

  predicate StrictlyIncreasing(s: seq<RawRow>) {
    forall i, j :: 0 <= i < j < |s| ==> s[i].openTime < s[j].openTime
  }

  /** Open time is a key: rows that share an open time are the same row. */
  predicate WellKeyed(s: seq<RawRow>) {
    forall i, j :: 0 <= i < |s| && 0 <= j < |s| && s[i].openTime == s[j].openTime ==> s[i] == s[j]
  }

  /** All pages, one after the other, in fetch order. */
  function Concat(pages: seq<Page>): (rows: seq<RawRow>)
    ensures forall i, x :: 0 <= i < |pages| && x in pages[i] ==> x in rows
    ensures forall x :: x in rows ==> exists i :: 0 <= i < |pages| && x in pages[i]
  {
    if |pages| == 0 then []
    else
      var rest := Concat(pages[1..]);
      assert forall i :: 1 <= i < |pages| ==> pages[i] == pages[1..][i - 1];
      pages[0] + rest
  }

  /** Places `x` into a series already ordered by open time. */
  function Insert(x: RawRow, s: seq<RawRow>): (r: seq<RawRow>)
    requires SortedByOpenTime(s)
    ensures SortedByOpenTime(r)
    ensures multiset(r) == multiset(s) + multiset{x}
  {
    if |s| == 0 then [x]
    else if x.openTime <= s[0].openTime then
      ConsSorted(x, s);
      [x] + s
    else
      SplitHead(s);
      var rest := Insert(x, s[1..]);
      LowerBound(s[0].openTime, s[1..], rest, x);
      ConsSorted(s[0], rest);
      [s[0]] + rest
  }

  lemma SplitHead(s: seq<RawRow>)
    requires SortedByOpenTime(s) && |s| > 0
    ensures SortedByOpenTime(s[1..])
    ensures forall i :: 0 <= i < |s[1..]| ==> s[0].openTime <= s[1..][i].openTime
    ensures multiset(s) == multiset{s[0]} + multiset(s[1..])
  {
    assert forall i :: 0 <= i < |s[1..]| ==> s[1..][i] == s[i + 1];
    assert s == [s[0]] + s[1..];
  }

  lemma ConsSorted(h: RawRow, s: seq<RawRow>)
    requires SortedByOpenTime(s)
    requires forall i :: 0 <= i < |s| ==> h.openTime <= s[i].openTime
    ensures SortedByOpenTime([h] + s)
  {
    var r := [h] + s;
    forall i, j | 0 <= i < j < |r| ensures r[i].openTime <= r[j].openTime {
      assert r[j] == s[j - 1];
      if i > 0 {
        assert r[i] == s[i - 1];
      }
    }
  }

  /** A bound on the open times of a series and of one more row bounds any permutation of them. */
  lemma LowerBound(t: int, a: seq<RawRow>, b: seq<RawRow>, x: RawRow)
    requires multiset(b) == multiset(a) + multiset{x}
    requires t <= x.openTime
    requires forall i :: 0 <= i < |a| ==> t <= a[i].openTime
    ensures forall j :: 0 <= j < |b| ==> t <= b[j].openTime
  {
    forall j | 0 <= j < |b| ensures t <= b[j].openTime {
      assert b[j] in multiset(b);
      if b[j] != x {
        assert b[j] in multiset(a);
        var k :| 0 <= k < |a| && a[k] == b[j];
      }
    }
  }

  /** Orders rows by open time, keeping every row. */
  function SortByOpenTime(rows: seq<RawRow>): (r: seq<RawRow>)
    ensures SortedByOpenTime(r)
    ensures multiset(r) == multiset(rows)
  {
    if |rows| == 0 then []
    else
      assert rows == [rows[0]] + rows[1..];
      Insert(rows[0], SortByOpenTime(rows[1..]))
  }

  /** Keeping first occurrences keeps the order by open time. */
  lemma DropDuplicatesKeepsOrder(s: seq<RawRow>)
    requires SortedByOpenTime(s)
    ensures SortedByOpenTime(Seqs.DropDuplicates(s))
  {
    var r := Seqs.DropDuplicates(s);
    forall i, j | 0 <= i < j < |r|
      ensures r[i].openTime <= r[j].openTime
    {
      var a := Seqs.FirstIndex(s, r[i]);
      var b := Seqs.FirstIndex(s, r[j]);
      assert s[a] == r[i] && s[b] == r[j] && a < b;
    }
  }

  /**
   * Sorting followed by duplicate removal: the result is ordered by open
   * time, holds no row twice, and holds exactly the rows of the input.
   */
  function SortAndDeduplicate(rows: seq<RawRow>): (r: seq<RawRow>)
    ensures |r| <= |rows|
    ensures SortedByOpenTime(r)
    ensures Seqs.Distinct(r)
    ensures forall x :: x in r <==> x in rows
  {
    var sorted := SortByOpenTime(rows);
    DropDuplicatesKeepsOrder(sorted);
    SameRows(rows, sorted);
    Seqs.DropDuplicatesShorter(sorted);
    Seqs.DropDuplicates(sorted)
  }

  /** A permutation is as long as the original and holds the same rows. */
  lemma SameRows(rows: seq<RawRow>, sorted: seq<RawRow>)
    requires multiset(sorted) == multiset(rows)
    ensures |sorted| == |rows|
    ensures forall x :: x in Seqs.DropDuplicates(sorted) <==> x in rows
  {
    assert |sorted| == |multiset(sorted)| == |multiset(rows)| == |rows|;
    Seqs.DropDuplicatesMembers(sorted);
    assert forall x :: x in sorted <==> x in multiset(rows);
  }

  lemma WellKeyedSubset(a: seq<RawRow>, b: seq<RawRow>)
    requires WellKeyed(b)
    requires forall x :: x in a ==> x in b
    ensures WellKeyed(a)
  {
    forall i, j | 0 <= i < |a| && 0 <= j < |a| && a[i].openTime == a[j].openTime
      ensures a[i] == a[j]
    {
      assert a[i] in b && a[j] in b;
      var k :| 0 <= k < |b| && b[k] == a[i];
      var l :| 0 <= l < |b| && b[l] == a[j];
    }
  }

  lemma SortedDistinctIsStrict(s: seq<RawRow>)
    requires SortedByOpenTime(s) && Seqs.Distinct(s) && WellKeyed(s)
    ensures StrictlyIncreasing(s)
  {
  }

  /** The later rows of a strictly ordered series open after its first row. */
  lemma TailOpensLater(a: seq<RawRow>)
    requires StrictlyIncreasing(a) && |a| > 0
    ensures forall x :: x in a[1..] ==> x.openTime > a[0].openTime
  {
    forall x | x in a[1..] ensures x.openTime > a[0].openTime {
      var k :| 0 <= k < |a[1..]| && a[1..][k] == x;
      assert a[k + 1] == x;
    }
  }

  /** Two strictly ordered series with the same rows start with the same row. */
  lemma HeadsAgree(a: seq<RawRow>, b: seq<RawRow>)
    requires StrictlyIncreasing(a) && StrictlyIncreasing(b)
    requires forall x :: x in a <==> x in b
    requires |a| > 0
    ensures |b| > 0 && a[0] == b[0]
  {
    assert a[0] in a;
    assert |b| > 0;
    assert b[0] in b;
    var j :| 0 <= j < |b| && b[j] == a[0];
    var i :| 0 <= i < |a| && a[i] == b[0];
    assert a[0].openTime <= b[0].openTime;
    assert b[0].openTime <= a[0].openTime;
  }

  lemma TailsAgree(a: seq<RawRow>, b: seq<RawRow>)
    requires StrictlyIncreasing(a) && StrictlyIncreasing(b)
    requires forall x :: x in a <==> x in b
    requires |a| > 0 && |b| > 0 && a[0] == b[0]
    ensures forall x :: x in a[1..] <==> x in b[1..]
  {
    TailOpensLater(a);
    TailOpensLater(b);
    assert a == [a[0]] + a[1..];
    assert b == [b[0]] + b[1..];
    forall x ensures x in a[1..] <==> x in b[1..] {
      if x in a[1..] {
        assert x in a && x != b[0];
      }
      if x in b[1..] {
        assert x in b && x != a[0];
      }
    }
  }

  /** Two series strictly ordered by open time with the same rows are equal. */
  lemma {:induction false} StrictSeriesUnique(a: seq<RawRow>, b: seq<RawRow>)
    requires StrictlyIncreasing(a) && StrictlyIncreasing(b)
    requires forall x :: x in a <==> x in b
    ensures a == b
    decreases |a|
  {
    if |a| > 0 {
      HeadsAgree(a, b);
      TailsAgree(a, b);
      StrictSeriesUnique(a[1..], b[1..]);
      assert a == [a[0]] + a[1..];
      assert b == [b[0]] + b[1..];
    } else if |b| > 0 {
      HeadsAgree(b, a);
    }
  }

  /**
   * The order the sort leaves rows of equal open time in does not matter:
   * when open time is a key, duplicate removal after any ordering of the rows
   * by open time gives the same series as the model's sort.
   */
  lemma SortChoiceIrrelevant(rows: seq<RawRow>, ordered: seq<RawRow>)
    requires WellKeyed(rows)
    requires SortedByOpenTime(ordered) && multiset(ordered) == multiset(rows)
    ensures Seqs.DropDuplicates(ordered) == SortAndDeduplicate(rows)
  {
    var a := Seqs.DropDuplicates(ordered);
    var b := SortAndDeduplicate(rows);
    DropDuplicatesKeepsOrder(ordered);
    assert forall x :: x in ordered <==> x in multiset(rows);
    assert forall x :: x in a <==> x in rows by {
      forall x ensures x in a <==> x in rows {
        if x in a {
          var i :| 0 <= i < |a| && a[i] == x;
        }
        if x in rows {
          assert x in ordered;
          var i :| 0 <= i < |ordered| && ordered[i] == x;
        }
      }
    }
    WellKeyedSubset(a, rows);
    WellKeyedSubset(b, rows);
    SortedDistinctIsStrict(a);
    SortedDistinctIsStrict(b);
    StrictSeriesUnique(a, b);
  }

  /** The wall clock truncated to whole seconds, in milliseconds. */
  function CutoffMillis(nowMillis: nat): (c: int)
    ensures c % 1000 == 0 && c <= nowMillis < c + 1000
  {
    (nowMillis / 1000) * 1000
  }

  /** The latest close time of a non-empty series. */
  function MaxCloseTime(s: seq<RawRow>): (m: int)
    requires |s| > 0
    ensures forall i :: 0 <= i < |s| ==> s[i].closeTime <= m
    ensures exists i :: 0 <= i < |s| && s[i].closeTime == m
  {
    if |s| == 1 then s[0].closeTime
    else
      var rest := MaxCloseTime(s[1..]);
      assert forall i :: 1 <= i < |s| ==> s[i] == s[1..][i - 1];
      if s[0].closeTime >= rest then s[0].closeTime else rest
  }

  /**
   * Drops the last row when some candle closes after the cutoff; otherwise
   * the series is unchanged.
   */
  function TrimLive(s: seq<RawRow>, cutoffMillis: int): (r: seq<RawRow>)
    ensures r <= s
    ensures (exists i :: 0 <= i < |s| && s[i].closeTime > cutoffMillis) ==> |s| > 0 && r == s[..|s| - 1]
    ensures (forall i :: 0 <= i < |s| ==> s[i].closeTime <= cutoffMillis) ==> r == s
  {
    if |s| > 0 && MaxCloseTime(s) > cutoffMillis then s[..|s| - 1] else s
  }

  /** In a strictly ordered series, a still-open last candle is gone after trimming. */
  lemma LiveCandleDropped(s: seq<RawRow>, cutoffMillis: int)
    requires StrictlyIncreasing(s) && |s| > 0
    requires s[|s| - 1].closeTime > cutoffMillis
    ensures |TrimLive(s, cutoffMillis)| == |s| - 1
    ensures s[|s| - 1] !in TrimLive(s, cutoffMillis)
  {
  }

  /**
   * One finished candle: the raw columns without `ignore`, the close time
   * recomputed from the open time and the offset in seconds, and the two
   * timestamps derived from the open and close times.
   */
  function ToCandle(row: RawRow, offsetSeconds: int): (c: Candle)
    ensures c.openTime == row.openTime
    ensures c.closeTime == row.openTime + offsetSeconds * 1000
  {
    var closeTime := row.openTime + offsetSeconds * 1000;
    Candle(row.openTime, row.openPrice, row.highPrice, row.lowPrice, row.closePrice,
           row.volume, closeTime, row.quoteVolume, row.nTrades,
           row.takerBuyBaseVolume, row.takerBuyQuoteVolume,
           Instant(row.openTime), Instant(closeTime))
  }

  /** A raw row rebuilt from a candle and the two values it does not keep. */
  function RestoreRow(c: Candle, closeTime: int, ignore: Decimal): RawRow {
    RawRow(c.openTime, c.openPrice, c.highPrice, c.lowPrice, c.closePrice,
           c.volume, closeTime, c.quoteVolume, c.nTrades,
           c.takerBuyBaseVolume, c.takerBuyQuoteVolume, ignore)
  }

  /**
   * Finishing a row loses only its close time and its `ignore` value: every
   * other column survives, and the timestamps are the open and close times.
   */
  lemma ToCandleKeepsColumns(row: RawRow, offsetSeconds: int)
    ensures RestoreRow(ToCandle(row, offsetSeconds), row.closeTime, row.ignore) == row
    ensures ToCandle(row, offsetSeconds).openTimestamp == Instant(row.openTime)
    ensures ToCandle(row, offsetSeconds).closeTimestamp == Instant(ToCandle(row, offsetSeconds).closeTime)
  {
  }

  /** Finishes every row of a series, in order. */
  function Finish(s: seq<RawRow>, offsetSeconds: int): (c: seq<Candle>)
    ensures |c| == |s|
    ensures forall i :: 0 <= i < |s| ==> c[i] == ToCandle(s[i], offsetSeconds)
  {
    seq(|s|, i requires 0 <= i < |s| => ToCandle(s[i], offsetSeconds))
  }

  /** Finishing a series ordered by open time gives a finished series. */
  lemma FinishIsSeries(s: seq<RawRow>, offsetSeconds: int)
    requires SortedByOpenTime(s)
    ensures CandleSeries(Finish(s, offsetSeconds), offsetSeconds)
  {
    var c := Finish(s, offsetSeconds);
    forall i, j | 0 <= i < j < |c| ensures c[i].openTime <= c[j].openTime {
      assert c[i].openTime == s[i].openTime && c[j].openTime == s[j].openTime;
    }
  }

  /** The shape every finished series has: ordered by open time, each close time one offset later. */
  predicate CandleSeries(c: seq<Candle>, offsetSeconds: int) {
    && (forall i, j :: 0 <= i < j < |c| ==> c[i].openTime <= c[j].openTime)
    && (forall i :: 0 <= i < |c| ==> c[i].closeTime == c[i].openTime + offsetSeconds * 1000)
    && (forall i :: 0 <= i < |c| ==> c[i].openTimestamp == Instant(c[i].openTime)
                                     && c[i].closeTimestamp == Instant(c[i].closeTime))
  }
}
