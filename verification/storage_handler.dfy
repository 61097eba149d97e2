/**
  Construction of one time-series record from a telemetry batch: schema
  resolution from the device's signal list, bucket and measurement naming,
  the field map, and the order in which failures are reported.

  The shared store, the clock and the time-series client are parameters:
  the signal store is passed in as `SignalStore`, the current time as `now`,
  and the write is returned as a `WriteRequest` together with the outcome
  the client reported for it.
 */
module StorageHandler {
  import opened Wrappers
  import opened Decimal
  import opened Ascii
  import LastWins

  /** A signal definition as it is serialised into the device's signal list. */
  datatype Signal = Signal(name: string, cacheSize: USize, id: I64, typ: string)

  /** What the pipeline keeps of a signal definition. */
  datatype SignalMapping = SignalMapping(cacheSize: USize, id: I64, numb: bool)

  /** Signal name to its mapping. */
  type Schema = map<string, SignalMapping>

  /** One reading of a batch: a signal name and its raw value. */
  datatype DataRow = DataRow(name: string, value: string)

  /** A telemetry batch as consumed from the queue. */
  datatype DataRowList = DataRowList(
    time: I64,
    deviceUid: string,
    identificationCode: string,
    data: seq<DataRow>,
    nc: string,
    protocol: Option<string>)

  /** A field value of the time-series record; `F` is the floating-point type. */
  datatype DataValue<F> = Integer(i: I64) | Float(f: F) | Text(s: string)

  datatype StorageError =
    | SchemaUnavailable(reason: string)
    | InvalidDeviceId(uid: string)
    | WriteFailed(reason: string)

  /** The signal lists of the shared store, or the reason the store could not be read. */
  datatype SignalStore = Unreachable(reason: string) | Reachable(lists: map<string, seq<string>>)

  /** One write to the time-series store. */
  datatype WriteRequest<F> = WriteRequest(bucket: string, measurement: string, fields: map<string, DataValue<F>>)

  /** The write that was attempted, if any, and what the whole operation returned. */
  datatype StorageOutcome<F> = StorageOutcome(attempted: Option<WriteRequest<F>>, status: Result<(), StorageError>)

  const NUMERIC_TYPE: string := "数字"
  const STORAGE_TIME: string := "storage_time"
  const PUSH_TIME: string := "push_time"
  const TIME_SUB: string := "time-sub"
  const SHARDS: nat := 100

  // ---------------------------------------------------------------- schema

  predicate IsNumericType(t: string) {
    EqIgnoreAsciiCase(t, NUMERIC_TYPE)
  }

  /** The numeric type name has no ASCII letters, so ignoring ASCII case changes nothing. */
  lemma NumericTypeIsExact(t: string)
    ensures IsNumericType(t) <==> t == NUMERIC_TYPE
  {
    EqIgnoreAsciiCaseWithoutLetters(t, NUMERIC_TYPE);
  }

  function ToMapping(s: Signal): (m: SignalMapping)
    ensures m.cacheSize == s.cacheSize && m.id == s.id
    ensures m.numb <==> s.typ == NUMERIC_TYPE
  {
    NumericTypeIsExact(s.typ);
    SignalMapping(s.cacheSize, s.id, IsNumericType(s.typ))
  }

  function SchemaEntry(decode: string -> Option<Signal>, raw: string): Option<(string, SignalMapping)> {
    match decode(raw)
    case None => None
    case Some(sig) => Some((sig.name, ToMapping(sig)))
  }

  function SchemaEntryOf(decode: string -> Option<Signal>): string -> Option<(string, SignalMapping)> {
    raw => SchemaEntry(decode, raw)
  }

  /** The names of the list entries that decode. */
  function DecodedNames(entries: seq<string>, decode: string -> Option<Signal>): set<string> {
    set i | 0 <= i < |entries| && decode(entries[i]).Some? :: decode(entries[i]).value.name
  }

  /** The schema map built from a signal list; entries that do not decode are skipped. */
  function ResolveSchema(entries: seq<string>, decode: string -> Option<Signal>): (m: Schema)
    ensures m.Keys == DecodedNames(entries, decode)
  {
    var entry := SchemaEntryOf(decode);
    assert LastWins.Produced(entries, entry) == DecodedNames(entries, decode) by {
      forall i | 0 <= i < |entries|
        ensures entry(entries[i]).Some? <==> decode(entries[i]).Some?
        ensures decode(entries[i]).Some? ==> entry(entries[i]).value.0 == decode(entries[i]).value.name
      {
      }
    }
    LastWins.InsertAll(map[], entries, entry)
  }

  /** A list whose entries all fail to decode yields the empty schema. */
  lemma ResolveSchemaAllCorrupt(entries: seq<string>, decode: string -> Option<Signal>)
    requires forall i :: 0 <= i < |entries| ==> decode(entries[i]).None?
    ensures ResolveSchema(entries, decode) == map[]
  {
  }

  /** Among entries with the same name, the last one that decodes determines the mapping. */
  lemma ResolveSchemaLastWins(entries: seq<string>, decode: string -> Option<Signal>, i: int)
    requires 0 <= i < |entries| && decode(entries[i]).Some?
    requires forall j :: i < j < |entries| && decode(entries[j]).Some? ==>
               decode(entries[j]).value.name != decode(entries[i]).value.name
    ensures var sig := decode(entries[i]).value;
            ResolveSchema(entries, decode)[sig.name] == ToMapping(sig)
  {
    var entry := SchemaEntryOf(decode);
    var sig := decode(entries[i]).value;
    assert LastWins.LastToInsert(entries, entry, i, sig.name);
    LastWins.InsertAllLastWins(map[], entries, entry, i, sig.name);
  }

  function SignalListKey(deviceUid: string, identificationCode: string): (k: string)
    ensures |k| == |deviceUid| + |identificationCode| + 8
    ensures k[..7] == "signal:" && k[7..7 + |deviceUid|] == deviceUid
    ensures k[7 + |deviceUid|..] == ":" + identificationCode
  {
    "signal:" + deviceUid + ":" + identificationCode
  }

  /** The characters before the first ':'. */
  function UpToColon(s: string): (r: string)
    ensures |r| <= |s| && r == s[..|r|] && ':' !in r
  {
    if s == [] || s[0] == ':' then [] else [s[0]] + UpToColon(s[1..])
  }

  lemma {:induction false} UpToColonOfJoin(u: string, c: string)
    requires ':' !in u
    ensures UpToColon(u + ":" + c) == u
  {
    if u != [] {
      assert (u + ":" + c)[1..] == u[1..] + ":" + c;
      UpToColonOfJoin(u[1..], c);
    }
  }

  /** For uids without ':', the list key determines both the uid and the identification code. */
  lemma SignalListKeyInjective(u: string, c: string, v: string, d: string)
    requires ':' !in u && ':' !in v
    ensures SignalListKey(u, c) == SignalListKey(v, d) <==> u == v && c == d
  {
    var k, l := SignalListKey(u, c), SignalListKey(v, d);
    if k == l {
      assert k[7..] == u + ":" + c && l[7..] == v + ":" + d;
      UpToColonOfJoin(u, c);
      UpToColonOfJoin(v, d);
      assert c == k[8 + |u|..] && d == l[8 + |v|..];
    }
  }

  /** A list that was never written reads as empty. */
  function ListAt(lists: map<string, seq<string>>, key: string): seq<string> {
    if key in lists then lists[key] else []
  }

  /** Schema resolution: only an unreadable store fails; undecodable entries never do. */
  function GetMqttClientSignal(store: SignalStore, decode: string -> Option<Signal>, deviceUid: string, identificationCode: string)
    : (r: Result<Schema, StorageError>)
    ensures r.Failure? <==> store.Unreachable?
    ensures r.Failure? ==> r.error == SchemaUnavailable(store.reason)
    ensures r.Success? ==>
              r.value.Keys == DecodedNames(ListAt(store.lists, SignalListKey(deviceUid, identificationCode)), decode)
    ensures r.Success? ==> r.value == ResolveSchema(ListAt(store.lists, SignalListKey(deviceUid, identificationCode)), decode)
  {
    match store
    case Unreachable(reason) => Failure(SchemaUnavailable(reason))
    case Reachable(lists) => Success(ResolveSchema(ListAt(lists, SignalListKey(deviceUid, identificationCode)), decode))
  }

  // ---------------------------------------------------------------- names

  /** The measurement name; the device uid appears exactly as received. */
  function GenMeasurement(deviceUid: string, identificationCode: string, protocol: string): (r: string)
    ensures |r| == |protocol| + |deviceUid| + |identificationCode| + 2
    ensures r[..|protocol| + 1] == protocol + "_"
    ensures r[|protocol| + 1..|protocol| + 1 + |deviceUid|] == deviceUid
    ensures r[|protocol| + 1 + |deviceUid|..] == "_" + identificationCode
  {
    protocol + "_" + deviceUid + "_" + identificationCode
  }

  /** For a fixed protocol and identification code, distinct uid strings give distinct measurements. */
  lemma MeasurementDistinguishesUids(u: string, v: string, identificationCode: string, protocol: string)
    ensures GenMeasurement(u, identificationCode, protocol) == GenMeasurement(v, identificationCode, protocol) <==> u == v
  {
  }

  /** "007" and "7" are the same device number but name different measurements. */
  lemma MeasurementKeepsRawUid(identificationCode: string, protocol: string)
    ensures ParseU32("007") == ParseU32("7") == Some(7)
    ensures GenMeasurement("007", identificationCode, protocol) != GenMeasurement("7", identificationCode, protocol)
  {
    ParseU32Examples();
    assert "7"[..0] == [];
    MeasurementDistinguishesUids("007", "7", identificationCode, protocol);
  }

  /** The bucket name: prefix and protocol, then the shard number `id % 100` in decimal. */
  function CalcBucketName(prefix: string, protocol: string, id: U32): (r: string)
    ensures var head := |prefix| + |protocol| + 2;
            && head < |r| <= head + 2
            && r[..head] == prefix + "_" + protocol + "_"
            && ParseU32(r[head..]) == Some(id % SHARDS)
            && AllDigits(r[head..])
            && (|r| == head + 2 ==> r[head] != '0')
  {
    var shard := NatToString(id % SHARDS);
    var r := prefix + "_" + protocol + "_" + shard;
    assert r[|prefix| + |protocol| + 2..] == shard;
    ParseU32RoundTrip(id % SHARDS);
    r
  }

  /** Two ids share a bucket exactly when they are congruent modulo 100. */
  lemma BucketNameSharding(prefix: string, protocol: string, a: U32, b: U32)
    ensures CalcBucketName(prefix, protocol, a) == CalcBucketName(prefix, protocol, b) <==> a % SHARDS == b % SHARDS
  {
    var head := |prefix| + |protocol| + 2;
    if CalcBucketName(prefix, protocol, a) == CalcBucketName(prefix, protocol, b) {
      var ra, rb := CalcBucketName(prefix, protocol, a), CalcBucketName(prefix, protocol, b);
      assert ra[head..] == rb[head..];
    }
  }

  /** Device 101 over MQTT with prefix "iot". */
  lemma NamingExample(identificationCode: string)
    ensures CalcBucketName("iot", "MQTT", 101) == "iot_MQTT_1"
    ensures GenMeasurement("101", identificationCode, "MQTT") == "MQTT_101_" + identificationCode
  {
    assert NatToString(1) == "1";
  }

  // ---------------------------------------------------------------- fields

  /** The row yields a field: its name is in the schema and, for a numeric signal, its value parses. */
  predicate Contributes<F>(schema: Schema, parseFloat: string -> Option<F>, row: DataRow) {
    row.name in schema && (schema[row.name].numb ==> parseFloat(row.value).Some?)
  }

  /** The field a row contributes, keyed by the decimal rendering of the signal's id. */
  function FieldEntry<F>(schema: Schema, parseFloat: string -> Option<F>, row: DataRow): (r: Option<(string, DataValue<F>)>)
    ensures r.Some? <==> Contributes(schema, parseFloat, row)
    ensures r.Some? ==> r.value.0 == IntToString(schema[row.name].id) && r.value.0 !in {STORAGE_TIME, PUSH_TIME, TIME_SUB}
    ensures r.Some? && r.value.1.Text? ==> !schema[row.name].numb && r.value.1.s == row.value
  {
    if row.name !in schema then None
    else
      var m := schema[row.name];
      SignalKeyIsNotTimeKey(m.id);
      if m.numb then
        match parseFloat(row.value)
        case None => None
        case Some(f) => Some((IntToString(m.id), Float(f)))
      else Some((IntToString(m.id), Text(row.value)))
  }

  function FieldEntryOf<F>(schema: Schema, parseFloat: string -> Option<F>): DataRow -> Option<(string, DataValue<F>)> {
    row => FieldEntry(schema, parseFloat, row)
  }

  /** The keys of the fields the rows contribute. */
  function SignalKeys<F>(schema: Schema, parseFloat: string -> Option<F>, rows: seq<DataRow>): set<string> {
    set i | 0 <= i < |rows| && Contributes(schema, parseFloat, rows[i]) :: IntToString(schema[rows[i].name].id)
  }

  function TimeFields<F>(now: I64, pushTime: I64): map<string, DataValue<F>> {
    map[STORAGE_TIME := Integer(now), PUSH_TIME := Integer(pushTime), TIME_SUB := Integer(WrapI64(now - pushTime))]
  }

  /** A rendered id can never be one of the three time-field names. */
  lemma SignalKeyIsNotTimeKey(id: int)
    ensures IntToString(id) !in {STORAGE_TIME, PUSH_TIME, TIME_SUB}
  {
    var s := IntToString(id);
    assert s[0] == '-' || IsDigit(s[0]);
  }

  /**
    The field map: the three time fields, then one field per contributing
    row; the time fields are never overwritten.
   */
  function BuildFields<F>(schema: Schema, parseFloat: string -> Option<F>, now: I64, pushTime: I64, rows: seq<DataRow>)
    : (m: map<string, DataValue<F>>)
    ensures m.Keys == {STORAGE_TIME, PUSH_TIME, TIME_SUB} + SignalKeys(schema, parseFloat, rows)
    ensures m[STORAGE_TIME] == Integer(now) && m[PUSH_TIME] == Integer(pushTime)
    ensures m[TIME_SUB] == Integer(WrapI64(now - pushTime))
  {
    var entry := FieldEntryOf(schema, parseFloat);
    var base: map<string, DataValue<F>> := TimeFields(now, pushTime);
    assert LastWins.Produced(rows, entry) == SignalKeys(schema, parseFloat, rows) by {
      forall i | 0 <= i < |rows|
        ensures entry(rows[i]).Some? <==> Contributes(schema, parseFloat, rows[i])
        ensures entry(rows[i]).Some? ==> entry(rows[i]).value.0 == IntToString(schema[rows[i].name].id)
      {
      }
    }
    forall k | k in {STORAGE_TIME, PUSH_TIME, TIME_SUB}
      ensures k !in SignalKeys(schema, parseFloat, rows)
    {
      forall i | 0 <= i < |rows| && Contributes(schema, parseFloat, rows[i])
        ensures IntToString(schema[rows[i].name].id) != k
      {
        SignalKeyIsNotTimeKey(schema[rows[i].name].id);
      }
    }
    LastWins.InsertAllKeepsUntouched(base, rows, entry, STORAGE_TIME);
    LastWins.InsertAllKeepsUntouched(base, rows, entry, PUSH_TIME);
    LastWins.InsertAllKeepsUntouched(base, rows, entry, TIME_SUB);
    LastWins.InsertAll(base, rows, entry)
  }

  /**
    The field of a contributing row that no later row overwrites: a numeric
    signal stores the parsed value, a text signal the raw string unchanged.
   */
  lemma SignalFieldValue<F>(schema: Schema, parseFloat: string -> Option<F>, now: I64, pushTime: I64, rows: seq<DataRow>, i: int)
    requires 0 <= i < |rows| && Contributes(schema, parseFloat, rows[i])
    requires var key := IntToString(schema[rows[i].name].id);
             forall j :: i < j < |rows| && Contributes(schema, parseFloat, rows[j]) ==>
               IntToString(schema[rows[j].name].id) != key
    ensures var m := schema[rows[i].name];
            var fields := BuildFields(schema, parseFloat, now, pushTime, rows);
            fields[IntToString(m.id)] == if m.numb then Float(parseFloat(rows[i].value).value) else Text(rows[i].value)
  {
    var entry := FieldEntryOf(schema, parseFloat);
    var key := IntToString(schema[rows[i].name].id);
    assert LastWins.LastToInsert(rows, entry, i, key);
    LastWins.InsertAllLastWins(TimeFields(now, pushTime), rows, entry, i, key);
  }

  /** A row whose name is unknown, or whose numeric value does not parse, changes nothing. */
  lemma RowWithoutFieldIsSkipped<F>(schema: Schema, parseFloat: string -> Option<F>, now: I64, pushTime: I64, rows: seq<DataRow>, i: int)
    requires 0 <= i < |rows| && !Contributes(schema, parseFloat, rows[i])
    ensures BuildFields(schema, parseFloat, now, pushTime, rows)
         == BuildFields(schema, parseFloat, now, pushTime, rows[..i] + rows[i + 1..])
  {
    LastWins.SkipItemWithoutEntry(TimeFields(now, pushTime), rows, FieldEntryOf(schema, parseFloat), i);
  }

  // ---------------------------------------------------------------- storage_data_row

  /**
    Everything before the write: the schema is resolved first, then the uid
    is parsed; only these two can fail, and no row of the batch can.
   */
  function PrepareWrite<F>(
    dt: DataRowList, protocol: string, bucketPrefix: string, store: SignalStore,
    decode: string -> Option<Signal>, parseFloat: string -> Option<F>, now: I64)
    : (r: Result<WriteRequest<F>, StorageError>)
    ensures store.Unreachable? ==> r == Failure(SchemaUnavailable(store.reason))
    ensures store.Reachable? && ParseU32(dt.deviceUid).None? ==> r == Failure(InvalidDeviceId(dt.deviceUid))
    ensures r.Success? <==> store.Reachable? && ParseU32(dt.deviceUid).Some?
    ensures r.Success? ==>
              && r.value.bucket == CalcBucketName(bucketPrefix, protocol, ParseU32(dt.deviceUid).value)
              && r.value.measurement == GenMeasurement(dt.deviceUid, dt.identificationCode, protocol)
              && r.value.fields.Keys == {STORAGE_TIME, PUSH_TIME, TIME_SUB}
                   + SignalKeys(ResolveSchema(ListAt(store.lists, SignalListKey(dt.deviceUid, dt.identificationCode)), decode),
                                parseFloat, dt.data)
              && r.value.fields[STORAGE_TIME] == Integer(now)
              && r.value.fields[PUSH_TIME] == Integer(dt.time)
              && r.value.fields[TIME_SUB] == Integer(WrapI64(now - dt.time))
              && r.value.fields == BuildFields(ResolveSchema(ListAt(store.lists, SignalListKey(dt.deviceUid, dt.identificationCode)), decode),
                                               parseFloat, now, dt.time, dt.data)
  {
    match GetMqttClientSignal(store, decode, dt.deviceUid, dt.identificationCode)
    case Failure(e) => Failure(e)
    case Success(schema) =>
      assert schema == ResolveSchema(ListAt(store.lists, SignalListKey(dt.deviceUid, dt.identificationCode)), decode);
      match ParseU32(dt.deviceUid)
      case None => Failure(InvalidDeviceId(dt.deviceUid))
      case Some(uid) =>
        Success(WriteRequest(
          CalcBucketName(bucketPrefix, protocol, uid),
          GenMeasurement(dt.deviceUid, dt.identificationCode, protocol),
          BuildFields(schema, parseFloat, now, dt.time, dt.data)))
  }

  /**
    `storage_data_row`: the write is attempted only when preparation
    succeeds, and the result is success only when the write succeeds too.
   */
  function StorageDataRow<F>(
    dt: DataRowList, protocol: string, bucketPrefix: string, store: SignalStore,
    decode: string -> Option<Signal>, parseFloat: string -> Option<F>, now: I64, writeError: Option<string>)
    : (r: StorageOutcome<F>)
    ensures var prepared := PrepareWrite(dt, protocol, bucketPrefix, store, decode, parseFloat, now);
            && (r.attempted.Some? <==> prepared.Success?)
            && (r.attempted.Some? ==> r.attempted.value == prepared.value)
            && (r.status.Success? <==> prepared.Success? && writeError.None?)
            && (prepared.Failure? ==> r.status == Failure(prepared.error))
            && (prepared.Success? && writeError.Some? ==> r.status == Failure(WriteFailed(writeError.value)))
  {
    match PrepareWrite(dt, protocol, bucketPrefix, store, decode, parseFloat, now)
    case Failure(e) => StorageOutcome(None, Failure(e))
    case Success(request) =>
      match writeError
      case Some(reason) => StorageOutcome(Some(request), Failure(WriteFailed(reason)))
      case None => StorageOutcome(Some(request), Success(()))
  }
}
