# IoT gateway and telemetry storage core, modelled in Dafny

This project models the two sequential pieces of logic behind the I/O of an
IoT ingestion platform written in Rust.

* **Telemetry record construction** (`data_processing/src/storage_handler.rs`).
  A device's signal list is resolved into a schema map (`get_mqtt_client_signal`),
  the device uid is parsed as a `u32`, and the bucket name (sharded by `uid % 100`)
  and the measurement name are derived. A field map is then built from three time
  fields plus one field per batch row whose signal resolves. Finally the record
  is written (`storage_data_row`).
* **TCP liveness sweep and session-index cleanup** (`iot_protocol/tcp/src/main.rs`).
  One tick of `print_clients_periodically` marks every registered address whose
  `tcp:last:<address with ':' as '@'>` record is more than ten seconds old and shuts it down.
  When the shutdown succeeds it runs `cleanup_connection` on the node's
  session index. The index is the hashes `tcp_uid_f:<node>` (address to device)
  and `tcp_uid:<node>` (device to address). After the visit, all marked
  addresses are removed from the registry. Startup clears both hashes.

Modules, one per concept:

| file | module | content |
|---|---|---|
| `wrappers.dfy` | `Wrappers` | `Option`, `Result` |
| `decimal.dfy` | `Decimal` | `u32`/`i64`/`usize`, Rust's decimal `to_string`, `parse::<u32>`, `parse::<i64>`, release-build `i64` wrap-around |
| `ascii.dfy` | `Ascii` | `eq_ignore_ascii_case`, `str::replace` of one character |
| `last_wins.dfy` | `LastWins` | filling a `HashMap` by iterated `insert` (later inserts win) |
| `storage_handler.dfy` | `StorageHandler` | signals, schema, names, field map, `storage_data_row` |
| `session_index.dfy` | `SessionIndex` | hash store, the two index hashes, `cleanup_connection`, startup clearing |
| `liveness_sweep.dfy` | `LivenessSweep` | liveness key, staleness, one sweep as a function and as the source's loop |

External inputs are parameters:
* the shared store's signal lists: `SignalStore`, either unreachable or a map of lists;
* its hashes: `HashStore`;
* the liveness records: a string map;
* the clock: `now` for a stored record, and for the sweep a function `clock` giving the reading taken while visiting each address;
* serde's decoding of a `Signal`: `decode`;
* `f64` parsing: `parseFloat`, whose result type `F` is left abstract;
* the time-series write's outcome: `writeError`;
* the per-address shutdown outcome: the set `failures` of addresses whose shutdown fails.

## Model

| member | source | states |
|---|---|---|
| `Decimal.ParseU32` | data_processing/src/storage_handler.rs:35 | an accepted uid is non-empty, has no '-', and after an optional '+' is one or more ASCII digits; which digit runs are accepted, and with what value, is stated by `Decimal.ParseU32Digits` |
| `Decimal.ParseI64` | iot_protocol/tcp/src/main.rs:66 | an accepted timestamp is an optional sign followed by one or more ASCII digits, and a negative value needs a '-'; which digit runs are accepted, and with what value, is stated by `Decimal.ParseI64Digits`, the round trip by `Decimal.ParseI64RoundTrip` |
| `Decimal.ParseI64Digits` | iot_protocol/tcp/src/main.rs:66-67 | any non-empty run of ASCII digits, zero-padded or not, is accepted with its value exactly when it is at most `i64::MAX`; a leading '+' changes nothing; behind '-' it is accepted as the negated value exactly when that is at least `i64::MIN`; anything out of range is refused, so the record counts as unparsable and the connection is kept |
| `Decimal.ParseU32RoundTrip` | data_processing/src/storage_handler.rs:35 | every `u32` rendered in decimal parses back to itself |
| `Decimal.ParseU32RejectsOverflow` | data_processing/src/storage_handler.rs:35-40 | the canonical decimal rendering of any number of 2^32 or more is refused, which leads to the invalid-uid error; non-canonical forms are covered by `Decimal.ParseU32Digits` |
| `Decimal.ParseU32Digits` | data_processing/src/storage_handler.rs:35-40 | any non-empty run of ASCII digits, zero-padded or not, is accepted with its value exactly when that value is below 2^32, and refused otherwise; a leading '+' changes nothing |
| `Decimal.ParseU32Examples` | data_processing/src/storage_handler.rs:35-40 | empty, lone `+`, negative, space-prefixed and fractional uids are refused; `+7` and `007` are accepted as 7 |
| `Decimal.ParseI64RoundTrip` | iot_protocol/tcp/src/main.rs:66 | every `i64` written as a liveness timestamp parses back to itself, including `i64::MIN` |
| `Decimal.NatToString` | data_processing/src/storage_handler.rs:153 | the rendering of a number is a non-empty run of ASCII digits without a leading zero; it has one digit exactly below 10 and at most two exactly below 100; the next two rows pair it with its value |
| `Decimal.DigitsValueOfNatToString` | data_processing/src/storage_handler.rs:153 | reading the rendered digits back gives the number, for every natural number |
| `Decimal.NatToStringInjective` | data_processing/src/storage_handler.rs:153 | two numbers render alike exactly when they are equal |
| `Decimal.IntToString` | data_processing/src/storage_handler.rs:83-85 | `i64::to_string`: a leading '-' exactly for negatives, then the magnitude as ASCII digits without a leading zero whose value is the magnitude, so id 5 gives "5" and never "05"; the inverse is `Decimal.ParseI64RoundTrip` |
| `Decimal.IntToStringInjective` | data_processing/src/storage_handler.rs:83-85 | distinct signal ids give distinct field keys, and equal ids give equal keys |
| `Decimal.WrapI64` | data_processing/src/storage_handler.rs:61-64 | the `time-sub` difference is reduced into `i64` range modulo 2^64 and is exact when it fits |
| `Ascii.EqIgnoreAsciiCase` | data_processing/src/storage_handler.rs:141 | `str::eq_ignore_ascii_case`: equal lengths and equal characters after ASCII lower-casing; every string matches itself; against a letter-free operand it is plain equality (`Ascii.EqIgnoreAsciiCaseWithoutLetters`) |
| `Ascii.EqIgnoreAsciiCaseWithoutLetters` | data_processing/src/storage_handler.rs:141 | against a string without ASCII letters, ASCII-case-insensitive equality is plain equality |
| `Ascii.ReplaceChar` | iot_protocol/tcp/src/main.rs:62 | same length; every ':' becomes '@' and every other character is kept |
| `Ascii.ReplaceCharRoundTrip` | iot_protocol/tcp/src/main.rs:62 | if the address has no '@', replacing '@' back by ':' recovers it |
| `LastWins.InsertAll` | data_processing/src/storage_handler.rs:124-146 | the keys after the insert loop are the base keys plus the keys of the items that yield an entry |
| `LastWins.InsertAllLastWins` | data_processing/src/storage_handler.rs:136-143 | the value under a key is the one carried by the last item that inserts that key |
| `LastWins.InsertAllKeepsUntouched` | data_processing/src/storage_handler.rs:56-87 | a key that no item inserts keeps its initial value |
| `StorageHandler.NumericTypeIsExact` | data_processing/src/storage_handler.rs:141 | a type is numeric exactly when it equals "数字"; ignoring ASCII case changes nothing |
| `StorageHandler.ToMapping` | data_processing/src/storage_handler.rs:136-143 | the mapping copies `cache_size` and `id`; `numb` holds exactly for type "数字" |
| `StorageHandler.ResolveSchema` | data_processing/src/storage_handler.rs:124-146 | the schema's keys are exactly the names of the entries that decode; undecodable entries are skipped |
| `StorageHandler.ResolveSchemaAllCorrupt` | data_processing/src/storage_handler.rs:126-134 | a list whose entries all fail to decode yields the empty schema |
| `StorageHandler.ResolveSchemaLastWins` | data_processing/src/storage_handler.rs:136-143 | with duplicate names, the last decodable entry determines the mapping |
| `StorageHandler.SignalListKey` | data_processing/src/storage_handler.rs:119 | the key is `signal:`, the uid, `:` and the identification code, each at a stated position |
| `StorageHandler.SignalListKeyInjective` | data_processing/src/storage_handler.rs:119 | for uids without ':', two devices share a signal list exactly when both the uid and the identification code are equal |
| `StorageHandler.GetMqttClientSignal` | data_processing/src/storage_handler.rs:114-147 | fails only when the store cannot be read; otherwise the result is the schema resolved from the list at `signal:<uid>:<code>` (a missing list reads as empty), whose keys are the decoded names |
| `StorageHandler.GenMeasurement` | data_processing/src/storage_handler.rs:149-151 | the name is the protocol, `_`, the uid string verbatim, `_`, then the identification code |
| `StorageHandler.MeasurementDistinguishesUids` | data_processing/src/storage_handler.rs:149-151 | for a fixed protocol and code, two uid strings give the same measurement if and only if they are equal |
| `StorageHandler.MeasurementKeepsRawUid` | data_processing/src/storage_handler.rs:35-51 | "007" and "7" parse to the same uid but name different measurements, because the raw string is used |
| `StorageHandler.CalcBucketName` | data_processing/src/storage_handler.rs:152-154 | the name is `prefix_protocol_` followed by one or two ASCII digits without a leading zero, and those digits parse back to `id % 100` |
| `StorageHandler.BucketNameSharding` | data_processing/src/storage_handler.rs:152-154 | two ids share a bucket if and only if they are congruent modulo 100 |
| `StorageHandler.NamingExample` | data_processing/src/storage_handler.rs:149-154 | uid 101, protocol MQTT and prefix iot give bucket `iot_MQTT_1` and measurement `MQTT_101_<code>` |
| `StorageHandler.FieldEntry` | data_processing/src/storage_handler.rs:66-86 | a row yields a field exactly when its name is in the schema and, for a numeric signal, its value parses; the key is the rendered id, never a time-field name; a text field carries the raw value |
| `StorageHandler.SignalKeyIsNotTimeKey` | data_processing/src/storage_handler.rs:56-85 | a rendered signal id is never `storage_time`, `push_time` or `time-sub` |
| `StorageHandler.BuildFields` | data_processing/src/storage_handler.rs:53-87 | the keys are the three time fields plus the ids of the contributing rows; the three time fields always hold `now`, the push time and their difference |
| `StorageHandler.SignalFieldValue` | data_processing/src/storage_handler.rs:75-86 | a numeric signal stores its parsed value and a text signal stores its raw value unchanged, under the signal's id, unless a later row overwrites that id |
| `StorageHandler.RowWithoutFieldIsSkipped` | data_processing/src/storage_handler.rs:66-82 | a row with an unknown name, or a numeric value that fails to parse, can be removed without changing the field map |
| `StorageHandler.PrepareWrite` | data_processing/src/storage_handler.rs:21-87 | a schema failure is reported before the uid is examined, then an invalid uid; no row can cause a failure; on success the bucket is named by the parsed uid, the measurement by the raw uid, and the field map is `BuildFields` over the resolved schema, with all three time values stated |
| `StorageHandler.StorageDataRow` | data_processing/src/storage_handler.rs:12-96 | a write is attempted only after both checks pass; the result is `Ok(())` only when the write succeeds; a write failure is returned as the error |
| `SessionIndex.IndexKeysDistinct` | iot_protocol/tcp/src/main.rs:20-21 | `tcp_uid_f:<n>` and `tcp_uid:<m>` never collide, and each key determines its node |
| `SessionIndex.ClearNodeIndex` | iot_protocol/tcp/src/main.rs:20-23 | at startup both of the node's hashes are empty (so trivially mutually inverse) and every other hash is kept |
| `SessionIndex.CleanupConnection` | iot_protocol/tcp/src/main.rs:106-113 | an address with device `d` is removed from `tcp_uid_f` and `d` from `tcp_uid`; an address without an entry changes nothing; other hashes are kept |
| `SessionIndex.CleanupPreservesInverse` | iot_protocol/tcp/src/main.rs:109-111 | if the two hashes are mutually inverse before cleanup, they still are afterwards |
| `SessionIndex.CleanupRemovesBothSides` | iot_protocol/tcp/src/main.rs:109-111 | under a consistent index, the address ends up with no device and no device points to it |
| `SessionIndex.CleanupLeavesOtherNodes` | iot_protocol/tcp/src/main.rs:107-111 | cleanup on one node leaves every other node's index unchanged |
| `LivenessSweep.LivenessKey` | iot_protocol/tcp/src/main.rs:62-63 | the key is `tcp:last:` followed by the address with every ':' replaced by '@' and every other character kept, so no ':' remains |
| `LivenessSweep.LivenessKeyInjective` | iot_protocol/tcp/src/main.rs:62-63 | for addresses without '@', two addresses share a liveness key if and only if they are equal |
| `LivenessSweep.LastActive` | iot_protocol/tcp/src/main.rs:62-67 | by definition, the record at the address's liveness key parsed as an `i64`, and nothing when there is no record; what that means for stored values is in the next two rows |
| `LivenessSweep.LastActiveReadsWritten` | iot_protocol/tcp/src/main.rs:62-67 | a record holding any `i64` in decimal (its `to_string` form, `i64::MIN` included) yields exactly that timestamp |
| `LivenessSweep.LastActiveIgnoresOtherAddresses` | iot_protocol/tcp/src/main.rs:62-65 | for addresses without '@', storing a record for a different address never changes this address's timestamp, because the ':'→'@' keys do not collide |
| `LivenessSweep.IsStale` | iot_protocol/tcp/src/main.rs:65-76 | the staleness rule with the exact difference: only an address with a parsable record can be stale; kept-at-10 and monotonicity in the lemmas below |
| `LivenessSweep.Sweep` | iot_protocol/tcp/src/main.rs:55-99 | a registered address survives if and only if it is not stale at its own clock reading; `tcp_uid_f` loses exactly the stale, successfully shut-down addresses and `tcp_uid` exactly their devices; hashes of other nodes are kept |
| `LivenessSweep.SweepLoop` | iot_protocol/tcp/src/main.rs:58-99 | the source's loop, reading the clock at each visit, gives the same registry and index as `Sweep` for those readings, whatever order it visits the registry in, with removal applied after the visit |
| `LivenessSweep.SweepPreservesInverse` | iot_protocol/tcp/src/main.rs:78-99 | a sweep keeps the node's two session maps mutually inverse |
| `LivenessSweep.RecentConnectionKept` | iot_protocol/tcp/src/main.rs:65-76 | a record at most ten seconds old keeps its connection, including a difference of exactly 10 |
| `LivenessSweep.UnknownActivityKept` | iot_protocol/tcp/src/main.rs:65-93 | a missing or unparsable record keeps the address in the registry and in the index |
| `LivenessSweep.FailedShutdownKeepsIndex` | iot_protocol/tcp/src/main.rs:78-99 | a stale address whose shutdown fails leaves the registry, but its pair stays in both index hashes |
| `LivenessSweep.EmptyRegistryIsNoOp` | iot_protocol/tcp/src/main.rs:96-103 | sweeping an empty registry changes nothing |
| `LivenessSweep.IsStaleAsWritten` | iot_protocol/tcp/src/main.rs:69-76 | the staleness test with the release build's wrapping `i64` difference; only an address with a parsable record can be stale |
| `LivenessSweep.AsWrittenAgreesWithoutOverflow` | iot_protocol/tcp/src/main.rs:69-76 | when `now - last` fits in an `i64`, the wrapped test and the exact test agree |
| `LivenessSweep.WrappedDifferenceMissesStale` | iot_protocol/tcp/src/main.rs:66-76 | a record of `i64::MIN` is stale by the exact test for every non-negative clock reading, but the wrapped test never evicts it |
| `LivenessSweep.WrappedTestIsNotMonotone` | iot_protocol/tcp/src/main.rs:69-76 | under the wrapped test an `i64::MIN` record is stale at clock reading -1 but not at 0 |
| `LivenessSweep.StaleIsMonotone` | iot_protocol/tcp/src/main.rs:70-76 | with the exact difference, an address stale at one time is stale at every later time |

## Findings

| source | as written | input that shows it | evidently intended | confidence | as-written member | corrected member |
|---|---|---|---|---|---|---|
| iot_protocol/tcp/src/main.rs:70 | `current_time - last_active` is plain `i64` subtraction: it wraps around in a release build and panics in a debug build | liveness value `-9223372036854775808` with any clock reading `now >= 0` | the exact difference, so that such a record counts as stale | low; not executed, and the gateway itself only writes current timestamps | `LivenessSweep.WrappedDifferenceMissesStale` | `LivenessSweep.StaleIsMonotone` |

The sweep in `LivenessSweep.Sweep` uses the exact difference (`IsStale`).
The wrapped test is `IsStaleAsWritten`. Unlike the exact test, it is not
monotone in time (`LivenessSweep.WrappedTestIsNotMonotone`).

Two behaviours of the source a reader might not expect are modelled as written:
* a missing liveness record keeps the connection; it is not evicted at once (main.rs:65);
* a failed shutdown skips the session-index cleanup, although the registry entry is still removed (main.rs:82-88).

## Left out

- Redis, InfluxDB and RabbitMQ clients, async/await, the registry mutex, the interval timer and logging. They become parameters and returned values.
- `parse::<f64>` and serde's JSON decoding of `Signal`. They are the uninterpreted parameters `parseFloat` and `decode`; nothing is proved about floating-point values.
- `Utc::now()`. It is the parameter `now` when a record is stored. In the sweep it is `clock`, one reading per visited address, as the source reads it inside the loop; how the readings advance during a sweep is not constrained.
- The host, port, org and token handed to `InfluxDBManager::new` are passed through unchanged. They are not part of `WriteRequest`.
- The batch's `nc` and `protocol` fields are carried in `DataRowList` but unused, as in the source; the `protocol` argument is used instead.
- `StorageHandler.GetMqttClientSignal`: the two failure sources (no store instance, a failed list read) are merged into one `Unreachable` case carrying a reason.
- `Ascii.EqIgnoreAsciiCaseWithoutLetters`: the source compares UTF-8 bytes while the model compares characters. The two agree, because ASCII folding never changes non-ASCII bytes.
- `Decimal.WrapI64`: the `time-sub` field uses release-build wrap-around; the panic of a debug build on overflow is not modelled.
- `SessionIndex.DeleteField`: the model keeps an emptied hash where Redis deletes the key. Every property is stated through `HashAt`, where the two cannot be told apart.
- `LivenessSweep.Sweep`: the panics from `.unwrap()` and `.expect()` on Redis errors (main.rs:65, 109-111) are not modelled, and every store call is taken to succeed.
- `LivenessSweep.SweepLoop`: the `TcpStream::shutdown` call is the input set `failures`; its effect on the socket is not modelled.
- The `tcp_server` module is not part of this model: accepting connections, framing, refreshing liveness, and writing the session index on identification.
- `data_processing/src/main.rs` (queue declaration, consumer loops, acknowledgement), `iot_protocol/ws/src/main.rs`, `api/src/main.rs` and `common_lib/src/lib.rs`: wiring, concurrency and I/O only.
