/**
 * Decoding of the Kraken v2 websocket trade feed: the subscribe request, the
 * timestamp conversion `to_ms` and the mapping of a message's `data` entries to
 * `Trade` records in `get_trades`. The socket itself and `json.loads` are not
 * modelled: `get_trades` receives the raw message text (for the heartbeat test)
 * and the already decoded `data` list.
 */
module KrakenWebsocket {
  import opened Wrappers
  import opened Text
  import opened CivilTime
  import opened Trades

  // ---------------------------------------------------------------------------
  // Subscription

  datatype SubscribeParams = SubscribeParams(channel: string, symbol: seq<string>, snapshot: bool)

  /** The request `_subscribe` sends; `requestMethod` is the JSON key `method`. */
  datatype SubscribeRequest = SubscribeRequest(requestMethod: string, params: SubscribeParams)

  function SubscribeMessage(productId: string): (r: SubscribeRequest)
    ensures r.requestMethod == "subscribe" && r.params.channel == "trade"
    ensures r.params.symbol == [productId] && !r.params.snapshot
  {
    SubscribeRequest("subscribe", SubscribeParams("trade", [productId], false))
  }

  // ---------------------------------------------------------------------------
  // Timestamps

  /** The layout `YYYY-MM-DD?HH:MM:SS.ffffff`; `fromisoformat` ignores the separator at position 10. */
  predicate IsIsoLayout(s: string) {
    && |s| == 26
    && DigitsAt(s, 0, 4) && s[4] == '-' && DigitsAt(s, 5, 2) && s[7] == '-' && DigitsAt(s, 8, 2)
    && DigitsAt(s, 11, 2) && s[13] == ':' && DigitsAt(s, 14, 2) && s[16] == ':'
    && DigitsAt(s, 17, 2) && s[19] == '.' && DigitsAt(s, 20, 6)
  }

  /** The numbers written in the fields of a string in the ISO layout. */
  function IsoFields(s: string): DateTime
    requires IsIsoLayout(s)
  {
    DateTime(Read4(s, 0), Read2(s, 5), Read2(s, 8), Read2(s, 11), Read2(s, 14), Read2(s, 17), Read6(s, 20))
  }

  /**
   * `datetime.fromisoformat` on the one layout the feed uses: the date-time
   * written there, or `None` (a raised `ValueError`) for any other text or for
   * fields out of range, such as month 13 or February 30. The result is the
   * one valid date-time that `IsoFormat` writes as `s`, whatever separator `s`
   * has between date and time.
   */
  function FromIsoFormat(s: string): (r: Option<DateTime>)
    ensures r.Some? ==> Valid(r.value) && |s| == 26 && s[..10] + "T" + s[11..] == IsoFormat(r.value)
    ensures forall dt :: Valid(dt) && |s| == 26 && s[..10] + "T" + s[11..] == IsoFormat(dt) ==> r == Some(dt)
  {
    ParsesRendering(s);
    if IsIsoLayout(s) && Valid(IsoFields(s)) then
      IsoFormatOfFields(s);
      Some(IsoFields(s))
    else None
  }

  /** How the feed writes a date-time, with `T` between date and time. */
  function IsoFormat(dt: DateTime): (s: string)
    requires Valid(dt)
    ensures IsIsoLayout(s)
  {
    DateText(dt) + "T" + ClockText(dt) + "." + Digits6(dt.microsecond)
  }

  /** The fields read from a rendering are the date-time rendered. */
  lemma FieldsOfIsoFormat(dt: DateTime)
    requires Valid(dt)
    ensures IsoFields(IsoFormat(dt)) == dt
  {
    var s := IsoFormat(dt);
    var date, clock := DateText(dt), ClockText(dt);
    assert s[0..10] == date && s[11..19] == clock;
    assert date[0..4] == Digits4(dt.year) && date[5..7] == Digits2(dt.month) && date[8..10] == Digits2(dt.day);
    assert clock[0..2] == Digits2(dt.hour) && clock[3..5] == Digits2(dt.minute) && clock[6..8] == Digits2(dt.second);
    assert s[0..4] == Digits4(dt.year);
    assert s[5..7] == Digits2(dt.month);
    assert s[8..10] == Digits2(dt.day);
    assert s[11..13] == Digits2(dt.hour);
    assert s[14..16] == Digits2(dt.minute);
    assert s[17..19] == Digits2(dt.second);
    assert s[20..26] == Digits6(dt.microsecond);
    Read4Digits4(s, 0, dt.year);
    Read2Digits2(s, 5, dt.month);
    Read2Digits2(s, 8, dt.day);
    Read2Digits2(s, 11, dt.hour);
    Read2Digits2(s, 14, dt.minute);
    Read2Digits2(s, 17, dt.second);
    Read6Digits6(s, 20, dt.microsecond);
  }

  /** Reading what the feed writes gives back the date-time. */
  lemma IsoFormatRoundTrip(dt: DateTime)
    requires Valid(dt)
    ensures FromIsoFormat(IsoFormat(dt)) == Some(dt)
  {
    FieldsOfIsoFormat(dt);
  }

  /** The date part of a text in the ISO layout is the `%Y-%m-%d` rendering of its fields. */
  lemma IsoDateText(s: string)
    requires IsIsoLayout(s) && Valid(IsoFields(s))
    ensures DateText(IsoFields(s)) == s[..10]
  {
    Digits4Read4(s, 0);
    Digits2Read2(s, 5);
    Digits2Read2(s, 8);
  }

  /** The time part of a text in the ISO layout is the `%H:%M:%S` rendering of its fields. */
  lemma IsoClockText(s: string)
    requires IsIsoLayout(s) && Valid(IsoFields(s))
    ensures ClockText(IsoFields(s)) == s[11..19]
  {
    Digits2Read2(s, 11);
    Digits2Read2(s, 14);
    Digits2Read2(s, 17);
  }

  /** An accepted text is the rendering of what is read from it, up to the separator. */
  lemma IsoFormatOfFields(s: string)
    requires IsIsoLayout(s) && Valid(IsoFields(s))
    ensures s[..10] + "T" + s[11..] == IsoFormat(IsoFields(s))
  {
    IsoDateText(s);
    IsoClockText(s);
    Digits6Read6(s, 20);
    assert s[11..] == s[11..19] + "." + s[20..26];
  }

  /** A text that renders a valid date-time, up to the separator, is in the layout and reads as that date-time. */
  lemma ParsesRendering(s: string)
    ensures forall dt :: Valid(dt) && |s| == 26 && s[..10] + "T" + s[11..] == IsoFormat(dt) ==>
      IsIsoLayout(s) && IsoFields(s) == dt
  {
    forall dt | Valid(dt) && |s| == 26 && s[..10] + "T" + s[11..] == IsoFormat(dt)
      ensures IsIsoLayout(s) && IsoFields(s) == dt
    {
      SeparatorIgnored(s, IsoFormat(dt));
      FieldsOfIsoFormat(dt);
    }
  }

  lemma SeparatorIgnored(s: string, t: string)
    requires |s| == 26 && s[..10] + "T" + s[11..] == t && IsIsoLayout(t)
    ensures IsIsoLayout(s) && IsoFields(s) == IsoFields(t)
  {
    assert forall k :: 0 <= k < 26 && k != 10 ==> s[k] == t[k] by {
      forall k | 0 <= k < 26 && k != 10
        ensures s[k] == t[k]
      {
        if k < 10 {
          assert t[k] == s[..10][k];
        } else {
          assert t[k] == s[11..][k - 11];
        }
      }
    }
  }

  /** `timestamp[:-1]`: the text without its last character (`""` stays `""`). */
  function DropLast(s: string): (r: string)
    ensures |s| >= 1 ==> r + [s[|s| - 1]] == s
    ensures |s| == 0 ==> r == []
  {
    if |s| == 0 then s else s[..|s| - 1]
  }

  /** The date-time `to_ms` reads from a feed timestamp, whose last character it ignores. */
  function ParseTimestamp(timestamp: string): (r: Option<DateTime>)
    ensures r.Some? ==>
      Valid(r.value) && |timestamp| == 27 && timestamp[..10] + "T" + timestamp[11..26] == IsoFormat(r.value)
    ensures forall dt ::
      Valid(dt) && |timestamp| == 27 && timestamp[..10] + "T" + timestamp[11..26] == IsoFormat(dt) ==> r == Some(dt)
  {
    var s := DropLast(timestamp);
    assert |timestamp| == 27 ==> s[..10] == timestamp[..10] && s[11..] == timestamp[11..26];
    FromIsoFormat(s)
  }

  /**
   * `int(x)` of an exact number of milliseconds `us / 1000`: the quotient
   * rounded toward zero.
   */
  function TruncToMillis(us: int): (ms: int)
    ensures us >= 0 ==> 0 <= us - ms * 1000 < 1000
    ensures us < 0 ==> 0 <= ms * 1000 - us < 1000
  {
    if us >= 0 then us / 1000 else -((-us) / 1000)
  }

  lemma {:induction false} TruncToMillisMonotone(u: int, v: int)
    requires u <= v
    ensures TruncToMillis(u) <= TruncToMillis(v)
  {
  }

  /** From 1970 on, truncation keeps the whole seconds and cuts the microseconds to milliseconds. */
  lemma MillisOfMicros(secs: int, micro: int)
    requires secs >= 0 && 0 <= micro < 1000000
    ensures TruncToMillis(secs * 1000000 + micro) == secs * 1000 + micro / 1000
  {
    assert secs * 1000000 + micro == (secs * 1000 + micro / 1000) * 1000 + micro % 1000;
  }

  /**
   * `to_ms`: Unix epoch milliseconds of a feed timestamp such as
   * `2024-06-17T09:36:39.467866Z`, or `None` where the source raises.
   */
  function ToMs(timestamp: string): (r: Option<int>)
    ensures r.Some? <==> ParseTimestamp(timestamp).Some?
    ensures r.Some? ==> var us := EpochMicros(ParseTimestamp(timestamp).value);
      && (us >= 0 ==> 0 <= us - r.value * 1000 < 1000)
      && (us < 0 ==> 0 <= r.value * 1000 - us < 1000)
  {
    match ParseTimestamp(timestamp)
    case None => None
    case Some(dt) => Some(TruncToMillis(EpochMicros(dt)))
  }

  /** The epoch itself is 0, whatever the last character. */
  lemma ToMsEpoch(z: char)
    ensures ToMs("1970-01-01T00:00:00.000000" + [z]) == Some(0)
  {
    var dt := DateTime(1970, 1, 1, 0, 0, 0, 0);
    EpochText();
    EpochMicrosZero();
    ToMsOfFeedText(dt, z, 0);
  }

  lemma EpochText()
    ensures IsoFormat(DateTime(1970, 1, 1, 0, 0, 0, 0)) == "1970-01-01T00:00:00.000000"
  {
    EpochDateText();
    EpochClockText();
    assert Digits6(0) == "000000";
  }

  lemma EpochDateText()
    ensures DateText(DateTime(1970, 1, 1, 0, 0, 0, 0)) == "1970-01-01"
  {
  }

  lemma EpochClockText()
    ensures ClockText(DateTime(1970, 1, 1, 0, 0, 0, 0)) == "00:00:00"
  {
  }

  lemma EpochMicrosZero()
    ensures TruncToMillis(EpochMicros(DateTime(1970, 1, 1, 0, 0, 0, 0))) == 0
  {
  }

  /** The example timestamp from the docstring of `to_ms`. */
  lemma ToMsExample(z: char)
    ensures ToMs("2024-06-17T09:36:39.467866" + [z]) == Some(1718616999467)
  {
    var dt := DateTime(2024, 6, 17, 9, 36, 39, 467866);
    ExampleText();
    ExampleSeconds();
    MillisOfMicros(1718616999, 467866);
    ToMsOfFeedText(dt, z, 1718616999467);
  }

  lemma ExampleText()
    ensures IsoFormat(DateTime(2024, 6, 17, 9, 36, 39, 467866)) == "2024-06-17T09:36:39.467866"
  {
    ExampleDateText();
    ExampleClockText();
    ExampleFractionText();
  }

  lemma ExampleDateText()
    ensures DateText(DateTime(2024, 6, 17, 9, 36, 39, 467866)) == "2024-06-17"
  {
  }

  lemma ExampleClockText()
    ensures ClockText(DateTime(2024, 6, 17, 9, 36, 39, 467866)) == "09:36:39"
  {
  }

  lemma ExampleFractionText()
    ensures Digits6(467866) == "467866"
  {
  }

  lemma ExampleSeconds()
    ensures EpochSeconds(DateTime(2024, 6, 17, 9, 36, 39, 467866)) == 1718616999
  {
  }

  /** The milliseconds of a timestamp as the feed writes it. */
  lemma ToMsOfFeedText(dt: DateTime, z: char, ms: int)
    requires Valid(dt) && TruncToMillis(EpochMicros(dt)) == ms
    ensures ToMs(IsoFormat(dt) + [z]) == Some(ms)
  {
    ParseFeedTimestamp(dt, z);
  }

  /**
   * From 1970 on, the milliseconds are the whole seconds times 1000 plus the
   * microseconds cut down to milliseconds (`.467866` adds 467).
   */
  lemma ToMsTruncatesMicros(s: string, dt: DateTime)
    requires ParseTimestamp(s) == Some(dt) && EpochSeconds(dt) >= 0
    ensures ToMs(s) == Some(EpochSeconds(dt) * 1000 + dt.microsecond / 1000)
  {
    ToMsOfParsed(s, dt);
    MillisOf(ToMs(s), EpochMicros(dt), EpochSeconds(dt), dt.microsecond);
  }

  lemma MillisOf(ms: Option<int>, us: int, secs: int, micro: int)
    requires ms == Some(TruncToMillis(us)) && us == secs * 1000000 + micro
    requires secs >= 0 && 0 <= micro < 1000000
    ensures ms == Some(secs * 1000 + micro / 1000)
  {
    MillisOfMicros(secs, micro);
  }

  lemma ToMsOfParsed(s: string, dt: DateTime)
    requires ParseTimestamp(s) == Some(dt)
    ensures ToMs(s) == Some(TruncToMillis(EpochMicros(dt)))
  {
  }

  /** A timestamp as the feed writes it parses to its date-time. */
  lemma ParseFeedTimestamp(dt: DateTime, z: char)
    requires Valid(dt)
    ensures ParseTimestamp(IsoFormat(dt) + [z]) == Some(dt)
  {
    IsoFormatRoundTrip(dt);
    assert DropLast(IsoFormat(dt) + [z]) == IsoFormat(dt);
  }

  /** A timestamp on a whole second maps to a multiple of 1000, before 1970 too. */
  lemma ToMsWholeSecond(s: string, dt: DateTime)
    requires ParseTimestamp(s) == Some(dt) && dt.microsecond == 0
    ensures ToMs(s) == Some(EpochSeconds(dt) * 1000)
  {
    MillisOfWholeSeconds(EpochSeconds(dt));
  }

  lemma MillisOfWholeSeconds(secs: int)
    ensures TruncToMillis(secs * 1000000) == secs * 1000
  {
  }

  /** A later timestamp never yields fewer milliseconds. */
  lemma ToMsMonotone(s: string, t: string)
    requires ParseTimestamp(s).Some? && ParseTimestamp(t).Some?
    requires NotAfter(ParseTimestamp(s).value, ParseTimestamp(t).value)
    ensures ToMs(s).Some? && ToMs(t).Some? && ToMs(s).value <= ToMs(t).value
  {
    EpochMicrosMonotone(ParseTimestamp(s).value, ParseTimestamp(t).value);
    TruncToMillisMonotone(EpochMicros(ParseTimestamp(s).value), EpochMicros(ParseTimestamp(t).value));
  }

  // ---------------------------------------------------------------------------
  // Trades

  /** One entry of a trade message's `data` list, with the keys `get_trades` reads. */
  datatype TradeEntry = TradeEntry(symbol: string, price: real, qty: real, timestamp: string)

  /** `pattern` occurs in `s` starting at index `i`. */
  predicate OccursAt(s: string, pattern: string, i: int) {
    0 <= i <= |s| - |pattern| && s[i..i + |pattern|] == pattern
  }

  /** Whether `pattern` occurs in `s` (Python's `pattern in s`). */
  function Contains(s: string, pattern: string): (b: bool)
    ensures b <==> exists i :: OccursAt(s, pattern, i)
    decreases |s|
  {
    if |s| < |pattern| then false
    else if s[..|pattern|] == pattern then
      assert OccursAt(s, pattern, 0);
      true
    else
      var b := Contains(s[1..], pattern);
      assert b ==> exists i :: OccursAt(s, pattern, i) by {
        if b {
          var i :| OccursAt(s[1..], pattern, i);
          assert s[i + 1..i + 1 + |pattern|] == s[1..][i..i + |pattern|];
          assert OccursAt(s, pattern, i + 1);
        }
      }
      assert (exists i :: OccursAt(s, pattern, i)) ==> b by {
        if i :| OccursAt(s, pattern, i) {
          assert i != 0;
          assert s[1..][i - 1..i - 1 + |pattern|] == s[i..i + |pattern|];
          assert OccursAt(s[1..], pattern, i - 1);
        }
      }
      b
  }

  /**
   * The `Trade` built from a `data` entry. As written in `get_trades`,
   * `quantity` is filled from the entry's `price` and `price` from its `qty`.
   */
  function EntryTrade(e: TradeEntry, ms: int): (t: Trade)
    ensures t.productId == e.symbol && t.timestampMs == ms
    ensures t.price == e.qty && t.quantity == e.price
  {
    Trade(productId := e.symbol, quantity := e.price, price := e.qty, timestampMs := ms)
  }

  /**
   * The trades of a `data` list, entry by entry in order, or `None` as soon as
   * an entry's timestamp fails to convert. `toMs` is the timestamp conversion
   * `get_trades` calls (`ToMs` in `TradesOf`); the lemmas below hold for any.
   */
  function DecodeEntries(entries: seq<TradeEntry>, toMs: string -> Option<int>): (r: Option<seq<Trade>>)
    ensures r.Some? ==> |r.value| == |entries|
    decreases |entries|
  {
    if entries == [] then Some([])
    else
      var last := entries[|entries| - 1];
      match DecodeEntries(entries[..|entries| - 1], toMs)
      case None => None
      case Some(init) =>
        match toMs(last.timestamp)
        case None => None
        case Some(ms) => Some(init + [EntryTrade(last, ms)])
  }

  /** Decoding succeeds exactly when every timestamp converts. */
  lemma {:induction false} DecodeEntriesDefined(entries: seq<TradeEntry>, toMs: string -> Option<int>)
    ensures DecodeEntries(entries, toMs).Some? <==>
      forall i :: 0 <= i < |entries| ==> toMs(entries[i].timestamp).Some?
    decreases |entries|
  {
    if entries != [] {
      var init := entries[..|entries| - 1];
      DecodeEntriesDefined(init, toMs);
      assert forall i :: 0 <= i < |init| ==> init[i] == entries[i];
    }
  }

  /**
   * The trade at position `i` of a decoded list comes from the entry at
   * position `i`: its symbol, swapped price and quantity, and converted
   * timestamp.
   */
  lemma {:induction false} DecodeEntriesAt(entries: seq<TradeEntry>, toMs: string -> Option<int>, i: int)
    requires DecodeEntries(entries, toMs).Some? && 0 <= i < |entries|
    ensures toMs(entries[i].timestamp).Some?
    ensures |DecodeEntries(entries, toMs).value| == |entries|
    ensures DecodeEntries(entries, toMs).value[i] == EntryTrade(entries[i], toMs(entries[i].timestamp).value)
    decreases |entries|
  {
    var init := entries[..|entries| - 1];
    if i < |init| {
      DecodeEntriesAt(init, toMs, i);
      assert init[i] == entries[i];
    }
  }

  /** Once an entry fails to convert, no longer list decodes either. */
  lemma {:induction false} DecodeEntriesFailureSticks(entries: seq<TradeEntry>, toMs: string -> Option<int>, n: nat)
    requires n <= |entries| && DecodeEntries(entries[..n], toMs).None?
    ensures DecodeEntries(entries, toMs).None?
    decreases |entries| - n
  {
    if n < |entries| {
      assert entries[..n + 1][..n] == entries[..n];
      DecodeEntriesFailureSticks(entries, toMs, n + 1);
    } else {
      assert entries[..n] == entries;
    }
  }

  lemma DecodeEntriesStep(entries: seq<TradeEntry>, toMs: string -> Option<int>, i: nat, trades: seq<Trade>, ms: int)
    requires i < |entries| && DecodeEntries(entries[..i], toMs) == Some(trades)
    requires toMs(entries[i].timestamp) == Some(ms)
    ensures DecodeEntries(entries[..i + 1], toMs) == Some(trades + [EntryTrade(entries[i], ms)])
  {
    assert entries[..i + 1][..i] == entries[..i];
  }

  lemma DecodeEntriesStops(entries: seq<TradeEntry>, toMs: string -> Option<int>, i: nat)
    requires i < |entries| && DecodeEntries(entries[..i], toMs).Some?
    requires toMs(entries[i].timestamp).None?
    ensures DecodeEntries(entries, toMs).None?
  {
    assert entries[..i + 1][..i] == entries[..i];
    DecodeEntriesFailureSticks(entries, toMs, i + 1);
  }

  /** What `get_trades` returns for a received message, before any exception handling. */
  function TradesOf(message: string, data: Option<seq<TradeEntry>>): (r: Option<seq<Trade>>)
    ensures Contains(message, "heartbeat") ==> r == Some([])
    ensures !Contains(message, "heartbeat") ==>
      (r.Some? <==> data.Some? && forall i :: 0 <= i < |data.value| ==> ToMs(data.value[i].timestamp).Some?)
    ensures !Contains(message, "heartbeat") && r.Some? ==> |r.value| == |data.value|
  {
    if Contains(message, "heartbeat") then Some([])
    else if data.None? then None
    else
      DecodeEntriesDefined(data.value, ToMs);
      DecodeEntries(data.value, ToMs)
  }

  /**
   * `get_trades` after `recv`: a message mentioning `heartbeat` anywhere yields
   * no trades; otherwise the trades of its `data` list. `data` is `None` when
   * the message has no decodable `data` list, and the result is `None` where
   * the source raises.
   */
  method GetTrades(message: string, data: Option<seq<TradeEntry>>) returns (r: Option<seq<Trade>>)
    ensures Contains(message, "heartbeat") ==> r == Some([])
    ensures r == TradesOf(message, data)
  {
    if Contains(message, "heartbeat") {
      return Some([]);
    }
    if data.None? {
      return None;
    }
    var entries := data.value;
    var trades: seq<Trade> := [];
    var i := 0;
    while i < |entries|
      invariant 0 <= i <= |entries|
      invariant DecodeEntries(entries[..i], ToMs) == Some(trades)
    {
      var ms := ToMs(entries[i].timestamp);
      if ms.None? {
        DecodeEntriesStops(entries, ToMs, i);
        return None;
      }
      DecodeEntriesStep(entries, ToMs, i, trades, ms.value);
      trades := trades + [EntryTrade(entries[i], ms.value)];
      i := i + 1;
    }
    assert entries[..i] == entries;
    return Some(trades);
  }
}
