/**
 * The OHLCV reducer of the trade-to-candle service: the first trade of a
 * window opens a candle, every later trade is folded into it in place, and the
 * current candle of a window is projected onto the six output columns. Window
 * assignment and emission belong to the streaming library and are not modelled:
 * a window is given here as its non-empty sequence of trades and its end.
 */
module TradeToOhlcv {
  import opened Wrappers
  import opened Trades

  /** The five fields of a candle dictionary. */
  datatype Candle = Candle(open: real, high: real, low: real, close: real, volume: real)

  /** Open and close lie between low and high. */
  predicate Consistent(c: Candle) {
    c.low <= c.open <= c.high && c.low <= c.close <= c.high
  }

  /** `init_ohlcv_candle`: every price field is the trade's price, the volume its quantity. */
  function InitCandle(t: Trade): (c: Candle)
    ensures c.open == c.high == c.low == c.close == t.price
    ensures c.volume == t.quantity
    ensures Consistent(c)
  {
    Candle(t.price, t.price, t.price, t.price, t.quantity)
  }

  function Max(a: real, b: real): real {
    if a >= b then a else b
  }

  function Min(a: real, b: real): real {
    if a <= b then a else b
  }

  /**
   * `update_ohlcv_candle` on the candle's value: the high rises to the price
   * if it is above, the low falls to it if it is below, the price becomes the
   * close and the quantity is added to the volume; the open stays.
   */
  function UpdateCandle(c: Candle, t: Trade): (r: Candle)
    ensures r.high >= c.high && r.high >= t.price && (r.high == c.high || r.high == t.price)
    ensures r.low <= c.low && r.low <= t.price && (r.low == c.low || r.low == t.price)
    ensures r.close == t.price && r.volume == c.volume + t.quantity && r.open == c.open
    ensures c.low <= t.price <= c.high ==> r.high == c.high && r.low == c.low
    ensures Consistent(c) ==> Consistent(r)
  {
    c.(high := Max(c.high, t.price), low := Min(c.low, t.price), close := t.price,
       volume := c.volume + t.quantity)
  }

  /**
   * The candle dictionary itself, which `update_ohlcv_candle` changes in place
   * and returns. `extra` holds any further keys the dictionary carries, such as
   * `product_id` in the unit tests; the two functions leave them alone.
   */
  class CandleDict {
    var open: real
    var high: real
    var low: real
    var close: real
    var volume: real
    var extra: map<string, string>

    function Value(): Candle
      reads this
    {
      Candle(open, high, low, close, volume)
    }

    /** The dictionary `init_ohlcv_candle` returns: the five fields and nothing else. */
    constructor Init(t: Trade)
      ensures Value() == InitCandle(t) && extra == map[]
    {
      open, high, low, close, volume := t.price, t.price, t.price, t.price, t.quantity;
      extra := map[];
    }

    /** `update_ohlcv_candle(candle, trade)`: updates four fields in place and returns the same dictionary. */
    method Update(t: Trade) returns (same: CandleDict)
      modifies this
      ensures same == this
      ensures Value() == UpdateCandle(old(Value()), t)
      ensures extra == old(extra)
    {
      high := Max(high, t.price);
      low := Min(low, t.price);
      close := t.price;
      volume := volume + t.quantity;
      return this;
    }
  }

  // ---------------------------------------------------------------------------
  // A window's candle

  /**
   * The candle of a window, as `reduce(initializer=init_ohlcv_candle,
   * reducer=update_ohlcv_candle)` builds it from the window's trades in order.
   */
  function Reduce(trades: seq<Trade>): (c: Candle)
    requires |trades| >= 1
    ensures Consistent(c)
  {
    if |trades| == 1 then InitCandle(trades[0])
    else UpdateCandle(Reduce(trades[..|trades| - 1]), trades[|trades| - 1])
  }

  /** The total quantity of a sequence of trades. */
  function TotalQuantity(trades: seq<Trade>): real {
    if trades == [] then 0.0 else trades[0].quantity + TotalQuantity(trades[1..])
  }

  lemma {:induction false} TotalQuantityAppend(trades: seq<Trade>, t: Trade)
    ensures TotalQuantity(trades + [t]) == TotalQuantity(trades) + t.quantity
  {
    if trades != [] {
      assert (trades + [t])[1..] == trades[1..] + [t];
      TotalQuantityAppend(trades[1..], t);
    }
  }

  /**
   * A window's candle in closed form: the open is the first trade's price, the
   * close the last one's, the high the largest price, the low the smallest,
   * and the volume the sum of all quantities.
   */
  lemma {:induction false} ReduceClosedForm(trades: seq<Trade>)
    requires |trades| >= 1
    ensures Reduce(trades).open == trades[0].price
    ensures Reduce(trades).close == trades[|trades| - 1].price
    ensures forall i :: 0 <= i < |trades| ==> Reduce(trades).low <= trades[i].price <= Reduce(trades).high
    ensures exists i :: 0 <= i < |trades| && trades[i].price == Reduce(trades).high
    ensures exists i :: 0 <= i < |trades| && trades[i].price == Reduce(trades).low
    ensures Reduce(trades).volume == TotalQuantity(trades)
  {
    if |trades| > 1 {
      var init, last := trades[..|trades| - 1], trades[|trades| - 1];
      ReduceClosedForm(init);
      assert init + [last] == trades;
      TotalQuantityAppend(init, last);
      var c := Reduce(trades);
      var hi :| 0 <= hi < |init| && init[hi].price == Reduce(init).high;
      var lo :| 0 <= lo < |init| && init[lo].price == Reduce(init).low;
      if c.high == Reduce(init).high {
        assert trades[hi].price == c.high;
      } else {
        assert trades[|trades| - 1].price == c.high;
      }
      if c.low == Reduce(init).low {
        assert trades[lo].price == c.low;
      } else {
        assert trades[|trades| - 1].price == c.low;
      }
      assert forall i :: 0 <= i < |init| ==> init[i] == trades[i];
    }
  }

  // ---------------------------------------------------------------------------
  // The unit tests' steps

  /** The candle the unit tests start from: open 100, high 110, low 90, close 105, volume 10. */
  function TestCandle(): Candle {
    Candle(100.0, 110.0, 90.0, 105.0, 10.0)
  }

  /** A trade at 115 for 5 raises the high and the close to 115 and the volume to 15. */
  lemma UpdateHigherPrice(t: Trade)
    requires t.price == 115.0 && t.quantity == 5.0
    ensures UpdateCandle(TestCandle(), t) == Candle(100.0, 115.0, 90.0, 115.0, 15.0)
  {
  }

  /** A trade at 85 for 3 lowers the low and the close to 85 and sets the volume to 13. */
  lemma UpdateLowerPrice(t: Trade)
    requires t.price == 85.0 && t.quantity == 3.0
    ensures UpdateCandle(TestCandle(), t) == Candle(100.0, 110.0, 85.0, 85.0, 13.0)
  {
  }

  /** A trade at 105 for 2 keeps high 110 and low 90, and sets the volume to 12. */
  lemma UpdateSamePrice(t: Trade)
    requires t.price == 105.0 && t.quantity == 2.0
    ensures UpdateCandle(TestCandle(), t) == Candle(100.0, 110.0, 90.0, 105.0, 12.0)
  {
  }

  // ---------------------------------------------------------------------------
  // The output record

  /** A value in an output record. */
  datatype Field = IntField(i: int) | RealField(r: real)

  /** The current value of a window: its bounds in epoch milliseconds and its candle. */
  datatype WindowValue = WindowValue(start: int, end: int, value: Candle)

  /** The columns the service keeps. */
  const OutputColumns: set<string> := {"timestamp_ms", "open", "high", "low", "close", "volume"}

  /** The record sent to the output topic: the candle's fields and the window end as `timestamp_ms`. */
  function OutputRecord(w: WindowValue): (row: map<string, Field>)
    ensures row.Keys == OutputColumns
    ensures row["timestamp_ms"] == IntField(w.end)
  {
    map["timestamp_ms" := IntField(w.end),
        "open" := RealField(w.value.open), "high" := RealField(w.value.high),
        "low" := RealField(w.value.low), "close" := RealField(w.value.close),
        "volume" := RealField(w.value.volume)]
  }

  /** The window end and candle a record carries, if it has the output columns with the right kinds of value. */
  function RecordValue(row: map<string, Field>): Option<(int, Candle)> {
    if OutputColumns <= row.Keys && row["timestamp_ms"].IntField?
      && row["open"].RealField? && row["high"].RealField? && row["low"].RealField?
      && row["close"].RealField? && row["volume"].RealField?
    then Some((row["timestamp_ms"].i,
               Candle(row["open"].r, row["high"].r, row["low"].r, row["close"].r, row["volume"].r)))
    else None
  }

  /** The output record loses nothing of the candle or of the window end; only the window start is dropped. */
  lemma OutputRecordRoundTrip(w: WindowValue)
    ensures RecordValue(OutputRecord(w)) == Some((w.end, w.value))
  {
    var row := OutputRecord(w);
    assert "timestamp_ms" in row && "open" in row && "high" in row && "low" in row;
    assert "close" in row && "volume" in row;
  }
}
