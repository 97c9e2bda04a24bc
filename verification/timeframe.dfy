/**
 * Reading a timeframe token such as "5m": the first character is a digit
 * multiplier and the second a unit letter.
 */
module Timeframe {
  import opened Basics

  /** The seconds table of the assembly, one entry per unit letter. */
  const SecondsPerUnit: map<char, nat> :=
    map['s' := 1, 'm' := 60, 'h' := 3600, 'd' := 86400, 'w' := 604800]

  const SecondsPerDay: nat := 86400

  predicate IsDigit(c: char) {
    '0' <= c <= '9'
  }

  function DigitValue(c: char): (d: nat)
    requires IsDigit(c)
    ensures d < 10
  {
    c as int - '0' as int
  }

  function DigitChar(d: nat): (c: char)
    requires d < 10
    ensures IsDigit(c) && DigitValue(c) == d
  {
    ('0' as int + d) as char
  }

  /** A token is accepted when it has a digit, then a letter of the seconds table. */
  predicate WellFormed(timeframe: string) {
    |timeframe| >= 2 && IsDigit(timeframe[0]) && timeframe[1] in SecondsPerUnit
  }

  /**
   * The number of candles to fetch: multiplier times unit seconds times the
   * requested factor. The characters are read in order, so an empty token
   * fails on its first character, a non-digit multiplier fails before the
   * second character is read, and an unknown unit fails on the table lookup.
   */
  function CandleCount(timeframe: string, nPerSecond: int): (r: Result<int>)
    ensures r.Ok? <==> WellFormed(timeframe)
    ensures r.Ok? ==> r.value == DigitValue(timeframe[0]) * SecondsPerUnit[timeframe[1]] * nPerSecond
    ensures |timeframe| == 0 ==> r == Err(IndexError)
    ensures |timeframe| > 0 && !IsDigit(timeframe[0]) ==> r == Err(ValueError)
    ensures |timeframe| == 1 && IsDigit(timeframe[0]) ==> r == Err(IndexError)
    ensures |timeframe| >= 2 && IsDigit(timeframe[0]) && timeframe[1] !in SecondsPerUnit ==>
              r == Err(KeyError(timeframe[1]))
  {
    if |timeframe| == 0 then Err(IndexError)
    else if !IsDigit(timeframe[0]) then Err(ValueError)
    else
      var multiplier := DigitValue(timeframe[0]);
      if |timeframe| < 2 then Err(IndexError)
      else if timeframe[1] !in SecondsPerUnit then Err(KeyError(timeframe[1]))
      else Ok(multiplier * SecondsPerUnit[timeframe[1]] * nPerSecond)
  }

  /**
   * The whole-seconds part, within one day, of the duration the token names
   * (the `seconds` component of a pandas Timedelta), for two-character tokens.
   */
  function DurationSeconds(timeframe: string): (r: Result<nat>)
    ensures r.Ok? ==> r.value < SecondsPerDay
    ensures r.Ok? <==> |timeframe| == 2 && WellFormed(timeframe)
  {
    if |timeframe| == 2 && WellFormed(timeframe) then
      Ok((DigitValue(timeframe[0]) * SecondsPerUnit[timeframe[1]]) % SecondsPerDay)
    else Err(UnsupportedDuration)
  }

  /** The token for a multiplier and a unit letter, followed by any suffix. */
  function Token(multiplier: nat, unit: char, suffix: string): string
    requires multiplier < 10
  {
    [DigitChar(multiplier), unit] + suffix
  }

  /** Reading a written token gives back its multiplier and unit. */
  lemma CandleCountOfToken(multiplier: nat, unit: char, suffix: string, nPerSecond: int)
    requires multiplier < 10
    ensures unit in SecondsPerUnit ==>
              CandleCount(Token(multiplier, unit, suffix), nPerSecond)
                == Ok(multiplier * SecondsPerUnit[unit] * nPerSecond)
    ensures unit !in SecondsPerUnit ==>
              CandleCount(Token(multiplier, unit, suffix), nPerSecond) == Err(KeyError(unit))
  {
    var t := Token(multiplier, unit, suffix);
    assert t[0] == DigitChar(multiplier) && t[1] == unit;
  }

  /**
   * The close-time offset agrees with the count only below one day: for
   * second, minute and hour tokens it is multiplier times unit seconds, and
   * for day and week tokens it is zero, as the seconds component of a whole
   * number of days.
   */
  lemma {:induction false} DurationVersusCount(timeframe: string, nPerSecond: int)
    requires |timeframe| == 2 && WellFormed(timeframe)
    ensures timeframe[1] in {'s', 'm', 'h'} ==>
              DurationSeconds(timeframe).value * nPerSecond == CandleCount(timeframe, nPerSecond).value
    ensures timeframe[1] in {'d', 'w'} ==> DurationSeconds(timeframe).value == 0
  {
    var d := DigitValue(timeframe[0]);
    var u := SecondsPerUnit[timeframe[1]];
    if timeframe[1] in {'s', 'm', 'h'} {
      assert u <= 3600;
      assert d * u <= 9 * 3600 by {
        MulMonotone(d, 9, u);
      }
      assert (d * u) % SecondsPerDay == d * u;
    } else {
      assert u == 86400 || u == 604800;
      var days := if u == 86400 then d else 7 * d;
      assert d * u == days * SecondsPerDay;
      WholeDays(days);
    }
  }

  lemma MulMonotone(a: nat, b: nat, c: nat)
    requires a <= b
    ensures a * c <= b * c
  {
  }

  lemma WholeDays(days: nat)
    ensures (days * SecondsPerDay) % SecondsPerDay == 0
  {
  }

  /** The token "1h" with factor 5 asks for 18000 candles. */
  lemma OneHourScenario()
    ensures CandleCount("1h", 5) == Ok(18000)
    ensures DurationSeconds("1h") == Ok(3600)
  {
  }

  /** A two-digit multiplier is read as a one-digit multiplier followed by a unit, and fails. */
  lemma TwoDigitScenario()
    ensures CandleCount("15m", 1) == Err(KeyError('5'))
  {
  }
}
