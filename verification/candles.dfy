/** The rows of the klines endpoint and the candles of the assembled series. */
module Candles {

  /**
   * Prices and volumes arrive as decimal text and are only coerced to numbers
   * for output; the model keeps them as opaque payload.
   */
  type Decimal = string

  /** One raw row of a klines page, in the twelve columns the assembly names. */
  datatype RawRow = RawRow(
    openTime: int,
    openPrice: Decimal,
    highPrice: Decimal,
    lowPrice: Decimal,
    closePrice: Decimal,
    volume: Decimal,
    closeTime: int,
    quoteVolume: Decimal,
    nTrades: int,
    takerBuyBaseVolume: Decimal,
    takerBuyQuoteVolume: Decimal,
    ignore: Decimal)

  /** The rows returned by one request. */
  type Page = seq<RawRow>

  /** A point in time, in milliseconds since the epoch. */
  datatype Instant = Instant(millis: int)

  /**
   * One candle of the finished series: the raw columns without `ignore`,
   * with a recomputed close time and the two derived timestamps.
   */
  datatype Candle = Candle(
    openTime: int,
    openPrice: Decimal,
    highPrice: Decimal,
    lowPrice: Decimal,
    closePrice: Decimal,
    volume: Decimal,
    closeTime: int,
    quoteVolume: Decimal,
    nTrades: int,
    takerBuyBaseVolume: Decimal,
    takerBuyQuoteVolume: Decimal,
    openTimestamp: Instant,
    closeTimestamp: Instant)
}
