# real-time-ml-crypto: the local logic, in Dafny

This project models the small pieces of the crypto price pipeline that hold logic of their own, and proves their behaviour:

- **Trade to OHLCV candle** (`trade_to_ohlcv.dfy`, module `TradeToOhlcv`):
  - `init_ohlcv_candle` and `update_ohlcv_candle`;
  - the candle dictionary, which `update_ohlcv_candle` changes in place;
  - the fold of a window's trades into one candle;
  - the six-column output record.
- **Topic to feature store** (`topic_to_feature_store.dfy`, module `TopicToFeatureStore`):
  - the batching loop, as a `BatchAccumulator` class with a `batch` and a ghost log `pushed` standing for the batches the feature store has received;
  - one loop turn as a specification function `Step`;
  - whole runs as `RunFrom`.
- **Kraken trade feed** (`kraken_websocket_api.dfy`, module `KrakenWebsocket`):
  - the subscribe request;
  - `to_ms`, which parses the feed's timestamp and computes Unix epoch milliseconds;
  - `get_trades`: the heartbeat check and the mapping of `data` entries to `Trade` records (`trade.dfy`, module `Trades`).
- **Epoch milliseconds to UTC text** (`utils.dfy`, module `PredictorUtils`): `timestamp_ms_to_human_readable_utc`.
- **Model name** (`model_registry.dfy`, module `ModelRegistry`): `get_model_name`.

Supporting modules:

- `CivilTime` (`civil_time.dfy`) is the proleptic Gregorian calendar as Python's `datetime` counts it, covering years 1 to 9999. It provides:
  - day numbers;
  - epoch seconds;
  - CPython's 400/100/4/1-year decomposition for the reverse direction;
  - the `%Y-%m-%d` and `%H:%M:%S` renderings.
- `Text` (`text.dfy`) holds fixed-width decimal fields and the decimal rendering of integers.
- `Wrappers` (`wrappers.dfy`) holds `Option`.

A `None` result stands wherever the Python code raises, for example:

- `fromisoformat` rejects the text;
- `fromtimestamp` leaves the supported years;
- a `data` entry's timestamp does not convert.

Prices, quantities and times use exact `real` and `int` arithmetic.

Three behaviours are modelled as written:

- `get_trades` fills `Trade.quantity` from the entry's `price` and `Trade.price` from its `qty`.
- `to_ms` truncates negative counts toward zero (`int(...)`).
- `fromtimestamp` floors to the second.

Because of the last two, showing a pre-1970 timestamp again after `to_ms` can move it to the next second. `FormatToMsBefore1970` exhibits an input where this happens; `FormatToMs` proves the round trip from 1970 on.

## Model

| member | source | states |
|---|---|---|
| TradeToOhlcv.InitCandle | services/trade_to_ohlcv/src/main.py:7-17 | open, high, low and close are the trade's price, volume is its quantity, and the candle is consistent (low <= open, close <= high) |
| TradeToOhlcv.UpdateCandle | services/trade_to_ohlcv/src/main.py:20-29 | high is the larger of the old high and the price, low the smaller of the old low and the price; close is the price, volume grows by the quantity, open stays; a price inside [low, high] leaves both bounds; consistency is preserved |
| TradeToOhlcv.CandleDict.Init | services/trade_to_ohlcv/src/main.py:7-17 | the new dictionary holds the initial candle of the trade and no further keys |
| TradeToOhlcv.CandleDict.Update | services/trade_to_ohlcv/src/main.py:20-29 | updates the dictionary in place to the updated candle, keeps every other key (such as `product_id`) and returns the same object |
| TradeToOhlcv.Reduce | services/trade_to_ohlcv/src/main.py:68 | the candle folded from a non-empty window of trades is consistent |
| TradeToOhlcv.ReduceClosedForm | services/trade_to_ohlcv/src/main.py:68 | the folded candle's open is the first price, close the last price, high and low are the largest and smallest prices (bounding all and attained), volume is the sum of all quantities |
| TradeToOhlcv.UpdateHigherPrice | services/trade_to_ohlcv/tests/test_update_ohlcv_candle.py:5-21 | the test candle updated with 115 x 5 has high 115, close 115, volume 15, the rest unchanged |
| TradeToOhlcv.UpdateLowerPrice | services/trade_to_ohlcv/tests/test_update_ohlcv_candle.py:24-40 | the test candle updated with 85 x 3 has low 85, close 85, volume 13, the rest unchanged |
| TradeToOhlcv.UpdateSamePrice | services/trade_to_ohlcv/tests/test_update_ohlcv_candle.py:43-60 | the test candle updated with 105 x 2 keeps high 110 and low 90, close 105, volume 12 |
| TradeToOhlcv.OutputRecord | services/trade_to_ohlcv/src/main.py:74-82 | the record's keys are exactly the six output columns and `timestamp_ms` is the window end |
| TradeToOhlcv.OutputRecordRoundTrip | services/trade_to_ohlcv/src/main.py:74-82 | the window end and all five candle fields can be read back from the record |
| TopicToFeatureStore.Messages | services/topic_to_feature_store/src/main.py:52-65 | the decoded messages among the poll results, in arrival order, never more than the polls |
| TopicToFeatureStore.Threshold | services/topic_to_feature_store/src/main.py:69-71 | the effective batch size is at least 1 and at least `batch_size`, and equals `batch_size` when that is positive |
| TopicToFeatureStore.Step | services/topic_to_feature_store/src/main.py:52-88 | one loop turn: nothing or an error changes nothing; a message is appended; below `batch_size` nothing is pushed; at `batch_size` the whole batch is pushed and cleared; pushed messages followed by the batch equal the old batch plus the new message; the size bound is kept |
| TopicToFeatureStore.RunFrom | services/topic_to_feature_store/src/main.py:51-88 | the loop over many polls, turn by turn; at most one push per decoded message; conservation, size bound, block structure and remainder are stated by `RunConserves`, `RunBounded`, `RunChunk` and `RunRemainder` |
| TopicToFeatureStore.BatchAccumulator.constructor | services/topic_to_feature_store/src/main.py:45 | starts with an empty batch and nothing pushed |
| TopicToFeatureStore.BatchAccumulator.Handle | services/topic_to_feature_store/src/main.py:52-88 | the new batch and push log are those of one `Step` |
| TopicToFeatureStore.BatchAccumulator.Consume | services/topic_to_feature_store/src/main.py:51-88 | after a sequence of polls, the batch and push log are those of `RunFrom` over the sequence |
| TopicToFeatureStore.RunConserves | services/topic_to_feature_store/src/main.py:65-88 | the pushed batches in push order followed by the current batch are the starting batch followed by every decoded message in arrival order: nothing is lost, duplicated or reordered |
| TopicToFeatureStore.RunBounded | services/topic_to_feature_store/src/main.py:69-88 | from a batch below the size, every pushed batch has exactly the size and the batch stays below it |
| TopicToFeatureStore.RunRemainder | services/topic_to_feature_store/src/main.py:68-71 | the leftover batch is shorter than the size and is exactly the messages after the last full batch; it is never pushed |
| TopicToFeatureStore.RunChunk | services/topic_to_feature_store/src/main.py:73-88 | the i-th pushed batch is the i-th block of `batch_size` consecutive messages |
| TopicToFeatureStore.SingletonBatches | services/topic_to_feature_store/src/main.py:69-77 | with `batch_size <= 1` each message is pushed alone, in order, and nothing is left over |
| KrakenWebsocket.SubscribeMessage | services/trade_producer/src/trade_data_source/kraken_websocket_api.py:75-78 | the request has method `subscribe`, channel `trade`, symbol list `[product_id]` and snapshot off |
| KrakenWebsocket.FromIsoFormat | services/trade_producer/src/trade_data_source/kraken_websocket_api.py:99 | the parse is the inverse of the writer `IsoFormat`: an accepted text is, up to its separator, the rendering of the valid date-time read; and any text that renders a valid date-time is accepted and read as exactly that date-time |
| KrakenWebsocket.IsoFormatRoundTrip | services/trade_producer/src/trade_data_source/kraken_websocket_api.py:99 | every valid date-time written in the feed's layout is read back unchanged |
| KrakenWebsocket.DropLast | services/trade_producer/src/trade_data_source/kraken_websocket_api.py:99 | `timestamp[:-1]` is the text without its last character, and empty for empty text |
| KrakenWebsocket.ParseFeedTimestamp | services/trade_producer/src/trade_data_source/kraken_websocket_api.py:99 | a feed timestamp parses to its date-time whatever its last character |
| KrakenWebsocket.ParseTimestamp | services/trade_producer/src/trade_data_source/kraken_websocket_api.py:99 | `fromisoformat(timestamp[:-1])` succeeds exactly on 27-character texts whose first 26 characters render a valid date-time (any separator, any last character), and gives that date-time |
| KrakenWebsocket.TruncToMillis | services/trade_producer/src/trade_data_source/kraken_websocket_api.py:100 | `int(us / 1000)` is within one millisecond of the exact value, rounded toward zero |
| KrakenWebsocket.TruncToMillisMonotone | services/trade_producer/src/trade_data_source/kraken_websocket_api.py:100 | the truncation never decreases |
| KrakenWebsocket.ToMs | services/trade_producer/src/trade_data_source/kraken_websocket_api.py:87-100 | `to_ms` gives a result exactly when the timestamp parses, and the result is the parsed date-time's epoch microseconds divided by 1000 and rounded toward zero |
| KrakenWebsocket.ToMsEpoch | services/trade_producer/src/trade_data_source/kraken_websocket_api.py:87-100 | `1970-01-01T00:00:00.000000Z` gives 0 |
| KrakenWebsocket.ToMsExample | services/trade_producer/src/trade_data_source/kraken_websocket_api.py:87-100 | the docstring's `2024-06-17T09:36:39.467866Z` gives 1718616999467 |
| KrakenWebsocket.ToMsOfFeedText | services/trade_producer/src/trade_data_source/kraken_websocket_api.py:99-100 | a valid date-time written by the feed converts to its truncated epoch milliseconds |
| KrakenWebsocket.ToMsTruncatesMicros | services/trade_producer/src/trade_data_source/kraken_websocket_api.py:99-100 | from the epoch on, the result is whole seconds times 1000 plus the microseconds cut to milliseconds |
| KrakenWebsocket.ToMsWholeSecond | services/trade_producer/src/trade_data_source/kraken_websocket_api.py:99-100 | a timestamp on a whole second gives a multiple of 1000 |
| KrakenWebsocket.ToMsMonotone | services/trade_producer/src/trade_data_source/kraken_websocket_api.py:99-100 | a later timestamp never gives fewer milliseconds |
| KrakenWebsocket.Contains | services/trade_producer/src/trade_data_source/kraken_websocket_api.py:41 | true exactly when the pattern occurs at some position of the message |
| KrakenWebsocket.EntryTrade | services/trade_producer/src/trade_data_source/kraken_websocket_api.py:50-56 | `product_id` is the symbol and `timestamp_ms` the converted timestamp; price and quantity are swapped as written |
| KrakenWebsocket.DecodeEntriesDefined | services/trade_producer/src/trade_data_source/kraken_websocket_api.py:48-57 | the list decodes exactly when every entry's timestamp converts |
| KrakenWebsocket.DecodeEntries | services/trade_producer/src/trade_data_source/kraken_websocket_api.py:48-57 | the `for` loop's list: one trade per entry; its contents and failure are stated by `DecodeEntriesDefined`, `DecodeEntriesAt` and `DecodeEntriesFailureSticks` |
| KrakenWebsocket.DecodeEntriesAt | services/trade_producer/src/trade_data_source/kraken_websocket_api.py:48-57 | the i-th trade comes from the i-th entry, so order is kept |
| KrakenWebsocket.DecodeEntriesFailureSticks | services/trade_producer/src/trade_data_source/kraken_websocket_api.py:49-57 | once an entry fails to convert, the whole call fails |
| KrakenWebsocket.TradesOf | services/trade_producer/src/trade_data_source/kraken_websocket_api.py:41-59 | what `get_trades` returns: no trades for a heartbeat; otherwise a list exactly when there is a `data` list and every entry's timestamp converts, with one trade per entry |
| KrakenWebsocket.GetTrades | services/trade_producer/src/trade_data_source/kraken_websocket_api.py:41-59 | a message containing `heartbeat` gives no trades; otherwise the loop's result is the decoding of the `data` list entry by entry |
| CivilTime.FromEpochSeconds | services/price_predictor/src/utils.py:21 | a date-time results exactly when the second lies in years 1 to 9999; it is valid, has no microseconds, and its epoch second is the input |
| CivilTime.EpochSeconds | services/trade_producer/src/trade_data_source/kraken_websocket_api.py:99-100 | whole seconds from 1970-01-01T00:00:00 UTC, as `replace(tzinfo=timezone.utc).timestamp()` counts them; `EpochSecondsRoundTrip` proves `FromEpochSeconds` its inverse and `EpochMicrosMonotone` its order |
| CivilTime.EpochMicros | services/trade_producer/src/trade_data_source/kraken_websocket_api.py:100 | `timestamp()` in exact microseconds; `EpochMicrosMonotone` proves that it follows the order of date-times |
| CivilTime.EpochSecondsRoundTrip | services/price_predictor/src/utils.py:21 | the date-time of a valid date-time's epoch second is that date-time without its microseconds |
| CivilTime.EpochMicrosMonotone | services/trade_producer/src/trade_data_source/kraken_websocket_api.py:100 | a later date-time has at least as many epoch microseconds |
| CivilTime.DateText | services/price_predictor/src/utils.py:22 | `%Y-%m-%d` is ten characters with `-` at positions 4 and 7 |
| CivilTime.ClockText | services/price_predictor/src/utils.py:22 | `%H:%M:%S` is eight characters with `:` at positions 2 and 5 |
| PredictorUtils.UtcText | services/price_predictor/src/utils.py:22 | the rendering is 23 characters long and ends in ` UTC` |
| PredictorUtils.UtcTextRoundTrip | services/price_predictor/src/utils.py:22 | the rendering is in the fixed layout and its fields read back as the date-time to the second |
| PredictorUtils.FormatUtc | services/price_predictor/src/utils.py:21-22 | a string results exactly when the second of `ms` lies in years 1 to 9999; it is 23 characters long and ends in ` UTC` |
| PredictorUtils.FormatUtcOf | services/price_predictor/src/utils.py:21-22 | the string for `ms` is the rendering of any valid date-time in the same second |
| PredictorUtils.FormatUtcFields | services/price_predictor/src/utils.py:21-22 | the string shows a valid calendar date and time of day whose epoch second is the one `ms` falls in |
| PredictorUtils.FormatUtcSameSecond | services/price_predictor/src/utils.py:21-22 | two millisecond values give the same string if and only if they fall in the same second |
| PredictorUtils.FormatNewYear2021 | services/price_predictor/tests/test_utils.py:8-10 | 1609459200000 gives `2021-01-01 00:00:00 UTC` |
| PredictorUtils.FormatLeapDay2020 | services/price_predictor/tests/test_utils.py:18-20 | 1582934400000 gives `2020-02-29 00:00:00 UTC` |
| PredictorUtils.FormatToMs | services/price_predictor/src/utils.py:21-22 | from 1970 on, formatting the `to_ms` result of a feed timestamp shows the timestamp's own date and time, cut to the second |
| PredictorUtils.FormatToMsBefore1970 | services/price_predictor/src/utils.py:21 | `1969-12-31T23:59:58.999500Z` gives -1000 ms, which is shown as `1969-12-31 23:59:59 UTC`, one second later |
| ModelRegistry.ReplaceSlash | services/price_predictor/src/model_registry.py:10 | same length, every `/` becomes `_`, every other character is kept, and no `/` remains |
| ModelRegistry.Suffix | services/price_predictor/src/model_registry.py:10 | the window and steps part contains no `/` and ends in `steps` |
| ModelRegistry.ModelName | services/price_predictor/src/model_registry.py:10 | the name starts with `price_predictor_`, continues with the product id with `/` replaced, ends in `steps` and contains no `/` |
| ModelRegistry.IntToStringInjective | services/price_predictor/src/model_registry.py:10 | different integers are written differently |
| ModelRegistry.ModelNameInjective | services/price_predictor/src/price_predictor.py:103-119 | for one product, the name determines the window and the step count, so registry lookup and local file name identify the same configuration |
| ModelRegistry.ModelNameExample | services/price_predictor/src/price_predictor.py:220-225 | `("BTC/USD", 60, 5)` gives `price_predictor_BTC_USD_60s_5steps` |

## Left out

- Window assignment, closing and emission of the OHLCV windows belong to the streaming library (`tumbling_window(...).reduce(...).current()`). A window is given to `Reduce` as its trades and to `OutputRecord` as its end.
- I/O is outside the model:
  - Kafka consumers and producers;
  - the websocket connection with its `recv`/`send` and the two confirmation messages `_subscribe` discards;
  - `json.loads`/`json.dumps`;
  - Hopsworks pushes;
  - logging.

  `get_trades` receives the message text and its already decoded `data` list. The batching loop receives the poll results as a finite sequence.
- The batching loop's failures are not modelled: a message that `json.loads` cannot decode, or a push to the feature store that raises, ends the loop and loses the batch in memory. Here every message decodes and every push succeeds.
- The `KrakenWebsocketAPI` object's fields (`_ws`, `product_id`) only hold the connection and the subscribed product, so the operations are modelled as functions and a method over their inputs.
- Floating point is not modelled. `to_ms` computes `timestamp() * 1000` in floating point; here it is computed exactly, and near a millisecond boundary the floating-point result can differ by one millisecond. `timestamp_ms / 1000` is also a float division, but `fromtimestamp` rounds it to microseconds, which never crosses a second, so the exact floor used here gives the same second.
- `fromisoformat` accepts many layouts; the model accepts only the one the feed sends, `YYYY-MM-DD?HH:MM:SS.ffffff` followed by one more character (any separator at position 10).
- `%Y` is rendered as four zero-padded digits. Some C libraries do not pad years below 1000.
- `hash_dataframe`, the ML modules, the HTTP service and settings loading hold no local logic of this kind.
- The model name is a function of its arguments, so looking up the model and building the local `.joblib` path use the same name by construction. The path itself is not modelled.
- Reduce: requires a non-empty window, as the streaming library only calls the reducer after an initializer.
- FormatToMs: proved only for timestamps from 1970 on; before 1970 the round trip can fail, as `FormatToMsBefore1970` shows.
- ToMsTruncatesMicros: stated for timestamps from the epoch on; before it, the truncation toward zero is stated by `TruncToMillis` and `ToMsWholeSecond`.
- ModelNameInjective: stated for one product. Two products whose ids differ only in `/` versus `_` (such as `BTC/USD` and `BTC_USD`) share names.
