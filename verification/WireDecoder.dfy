/**
 The payload decoder as it runs: a cursor that moves through the payload, and loops that collect
 lists. Each method takes off the front what `WireSpec` says, or fails as it says.
 */
module WireDecoder {
  import opened Bytes
  import opened Wrappers
  import opened WireSpec
  import ClientSpec
  import Pj1
  import Pj1Decoder

  datatype Taken<+T> = Took(value: T) | Malformed | Oversized {
    predicate IsFailure() {
      !Took?
    }

    function PropagateFailure<U>(): Taken<U>
      requires IsFailure()
    {
      if Malformed? then Malformed else Oversized
    }

    function Extract(): T
      requires Took?
    {
      value
    }
  }

  /** The method's answer and what it left are what the specification says. */
  ghost predicate Agrees<T>(p: Parse<T>, r: Taken<T>, rest: bytes) {
    match p
    case Got(x, s) => r == Took(x) && rest == s
    case Bad => r == Malformed
    case TooBig => r == Oversized
  }

  /** `p` with `xs` read before it. */
  ghost function After<T>(xs: seq<T>, p: Parse<seq<T>>): Parse<seq<T>> {
    match p
    case Got(ys, s) => Got(xs + ys, s)
    case _ => p
  }

  lemma AfterNext<T>(xs: seq<T>, read: bytes -> Parse<T>, n: nat, s: bytes)
    requires n > 0
    ensures var p := read(s);
            After(xs, ReadMany(read, n, s)) ==
            if p.Got? then After(xs + [p.value], ReadMany(read, n - 1, p.rest)) else p.PropagateFailure()
  {
    var p := read(s);
    if p.Got? && ReadMany(read, n - 1, p.rest).Got? {
      var ys := ReadMany(read, n - 1, p.rest).value;
      assert xs + ([p.value] + ys) == (xs + [p.value]) + ys;
    }
  }

  lemma AfterNone<T>(read: bytes -> Parse<T>, n: nat, s: bytes)
    ensures After([], ReadMany(read, n, s)) == ReadMany(read, n, s)
  {
    var p := ReadMany(read, n, s);
    if p.Got? {
      assert [] + p.value == p.value;
    }
  }

  lemma AfterAll<T>(xs: seq<T>, read: bytes -> Parse<T>, s: bytes)
    ensures After(xs, ReadMany(read, 0, s)) == Got(xs, s)
  {
    assert xs + [] == xs;
  }

  class Cursor {
    const payload: bytes
    var pos: nat

    ghost predicate Valid()
      reads this
    {
      pos <= |payload|
    }

    ghost function Rest(): bytes
      requires Valid()
      reads this
    {
      payload[pos..]
    }

    constructor (payload: bytes)
      ensures Valid() && this.payload == payload && Rest() == payload
    {
      this.payload := payload;
      pos := 0;
    }

    method ReadUnsigned(k: nat) returns (r: Taken<nat>)
      requires Valid()
      modifies this`pos
      ensures Valid() && Agrees(ReadNumber(old(Rest()), k), r, Rest())
    {
      if pos + k > |payload| {
        return Malformed;
      }
      r := Took(FromLE(payload[pos..pos + k]));
      assert Rest()[..k] == payload[pos..pos + k];
      pos := pos + k;
      assert Rest() == old(Rest())[k..];
    }

    method ReadFixedBytes(n: nat) returns (r: Taken<bytes>)
      requires Valid()
      modifies this`pos
      ensures Valid() && Agrees(ReadFixed(old(Rest()), n), r, Rest())
    {
      if pos + n > |payload| {
        return Malformed;
      }
      r := Took(payload[pos..pos + n]);
      assert Rest()[..n] == payload[pos..pos + n];
      pos := pos + n;
      assert Rest() == old(Rest())[n..];
    }

    method ReadFlag() returns (r: Taken<bool>)
      requires Valid()
      modifies this`pos
      ensures Valid() && Agrees(ReadBool(old(Rest())), r, Rest())
    {
      hide ReadNumber;
      var raw :- ReadUnsigned(1);
      if raw > 1 {
        return Malformed;
      }
      return Took(raw == 1);
    }

    method DecodeString() returns (r: Taken<bytes>)
      requires Valid()
      modifies this`pos
      ensures Valid() && Agrees(ReadText(old(Rest())), r, Rest())
    {
      hide ReadNumber, ReadFixed;
      var len :- ReadUnsigned(4);
      r := ReadFixedBytes(len);
    }

    method DecodeStringStrict() returns (r: Taken<bytes>)
      requires Valid()
      modifies this`pos
      ensures Valid() && Agrees(ReadStrict(old(Rest())), r, Rest())
    {
      hide ReadText, Pj1.Utf8, StripBom;
      var text :- DecodeString();
      if !Pj1.Utf8(text) {
        return Malformed;
      }
      return Took(StripBom(text));
    }

    method ReadOptionalUnsigned() returns (r: Taken<Option<nat>>)
      requires Valid()
      modifies this`pos
      ensures Valid() && Agrees(ReadOptionalNumber(old(Rest())), r, Rest())
    {
      hide ReadNumber, ReadBool;
      var present :- ReadFlag();
      if !present {
        return Took(None);
      }
      var n :- ReadUnsigned(8);
      return Took(Some(n));
    }

    method ReadOptionalString() returns (r: Taken<Option<bytes>>)
      requires Valid()
      modifies this`pos
      ensures Valid() && Agrees(ReadOptionalText(old(Rest())), r, Rest())
    {
      hide ReadText, ReadBool;
      var present :- ReadFlag();
      if !present {
        return Took(None);
      }
      var t :- DecodeString();
      return Took(Some(t));
    }

    method DecodeParam(native: bool) returns (r: Taken<Param>)
      requires Valid()
      modifies this`pos
      ensures Valid() && Agrees(if native then ReadNativeParam(old(Rest())) else ReadParam(old(Rest())), r, Rest())
    {
      hide ReadNumber, ReadText, ReadFixed, ReadBool, ReadStrict;
      var tag :- ReadUnsigned(1);
      match tag {
        case 0 =>
          r := Took(NullParam);
        case 1 =>
          var raw :- ReadUnsigned(8);
          r := Took(IntParam(Signed(raw)));
        case 2 =>
          var bits :- ReadFixedBytes(8);
          r := Took(FloatParam(bits));
        case 3 =>
          if native {
            var b :- ReadFlag();
            r := Took(BoolParam(b));
          } else {
            var raw :- ReadUnsigned(1);
            r := Took(BoolParam(raw != 0));
          }
        case 4 =>
          if native {
            var t :- DecodeStringStrict();
            r := Took(TextParam(t));
          } else {
            var t :- DecodeString();
            r := Took(TextParam(t));
          }
        case _ =>
          r := Malformed;
      }
    }

    method DecodeParams(native: bool) returns (r: Taken<seq<Param>>)
      requires Valid()
      modifies this`pos
      ensures Valid()
      ensures Agrees(ReadParams(if native then ReadNativeParam else ReadParam, native, old(Rest())), r, Rest())
    {
      hide ReadNumber, ReadParam, ReadNativeParam, ReadMany, After;
      var count :- ReadUnsigned(2);
      if count > MAX_PARAMS || (native && count > |payload| - pos) {
        return Malformed;
      }
      ghost var read, start := if native then ReadNativeParam else ReadParam, Rest();
      var params := [];
      AfterNone(read, count, Rest());
      for i := 0 to count
        invariant Valid()
        invariant ReadMany(read, count, start) == After(params, ReadMany(read, count - i, Rest()))
      {
        AfterNext(params, read, count - i, Rest());
        var p :- DecodeParam(native);
        params := params + [p];
      }
      AfterAll(params, read, Rest());
      return Took(params);
    }

    method DecodeWireValue() returns (r: Taken<Value>)
      requires Valid()
      modifies this`pos
      ensures Valid() && Agrees(ReadValue(old(Rest())), r, Rest())
    {
      hide ReadNumber, ReadText, ReadFixed, Pj1.Utf8, StripBom, ValidJson, Signed;
      var tag :- ReadUnsigned(1);
      var body :- DecodeString();
      var n := |body|;
      match tag {
        case 0 => r := if n == 0 then Took(Empty) else Malformed;
        case 1 => r := if n == 8 then Took(Int(Signed(FromLE(body)))) else Malformed;
        case 2 => r := if n == 8 then Took(Float(body)) else Malformed;
        case 3 =>
          assert n == 1 ==> body == [body[0]];
          r := if n == 1 && (body[0] == 0 || body[0] == 1) then Took(Bool(body[0] == 1)) else Malformed;
        case 4 => r := if Pj1.Utf8(body) then Took(Str(StripBom(body))) else Malformed;
        case 5 => r := if n == 8 then Took(DateTime(Signed(FromLE(body)))) else Malformed;
        case 6 => r := if n == 16 then Took(Uuid(body)) else Malformed;
        case 7 => r := Took(Blob(body));
        case 8 =>
          var json := CheckJson(body);
          r := if json then Took(Json(body)) else Malformed;
        case _ => r := Malformed;
      }
    }

    method DecodeSyncStatus() returns (r: Taken<Status>)
      requires Valid()
      modifies this`pos
      ensures Valid() && Agrees(ReadStatus(old(Rest())), r, Rest())
    {
      hide ReadNumber, ReadText, ReadBool, ReadOptionalNumber, ReadOptionalText;
      var replica :- DecodeString();
      var active :- ReadFlag();
      var lastApplied :- ReadOptionalUnsigned();
      var remote :- ReadUnsigned(8);
      var servable :- ReadOptionalUnsigned();
      var unarchived :- ReadOptionalUnsigned();
      var lagLsn :- ReadOptionalUnsigned();
      var lagBytes :- ReadOptionalUnsigned();
      var lagMs :- ReadOptionalUnsigned();
      var stale :- ReadFlag();
      var repair :- ReadUnsigned(1);
      if repair > 3 {
        return Malformed;
      }
      var lastError :- ReadOptionalString();
      return Took(Status(replica, active, lastApplied, remote, servable, unarchived, lagLsn, lagBytes, lagMs,
                         stale, RepairOf(repair), lastError));
    }

    method DecodeRetainedUnit() returns (r: Taken<Unit>)
      requires Valid()
      modifies this`pos
      ensures Valid() && Agrees(ReadUnit(old(Rest())), r, Rest())
    {
      hide ReadNumber, ReadText;
      var tx :- ReadUnsigned(8);
      var kind :- ReadUnsigned(1);
      var lsn :- ReadUnsigned(8);
      var data :- DecodeString();
      return Took(Unit(tx, kind, lsn, data));
    }

    method DecodeUnits(count: nat) returns (r: Taken<seq<Unit>>)
      requires Valid()
      modifies this`pos
      ensures Valid() && Agrees(ReadMany(ReadUnit, count, old(Rest())), r, Rest())
    {
      hide ReadUnit, ReadMany, After;
      var units := [];
      AfterNone(ReadUnit, count, Rest());
      for i := 0 to count
        invariant Valid()
        invariant ReadMany(ReadUnit, count, old(Rest())) == After(units, ReadMany(ReadUnit, count - i, Rest()))
      {
        AfterNext(units, ReadUnit, count - i, Rest());
        var unit :- DecodeRetainedUnit();
        units := units + [unit];
      }
      AfterAll(units, ReadUnit, Rest());
      return Took(units);
    }

    method DecodeFeatureList() returns (r: Taken<seq<bytes>>)
      requires Valid()
      modifies this`pos
      ensures Valid() && Agrees(ReadFeatures(old(Rest())), r, Rest())
    {
      hide ReadNumber, ReadStrict, ReadMany, After;
      var count :- ReadUnsigned(2);
      if count > MAX_HELLO_FEATURES || count * 4 > |payload| - pos {
        return Malformed;
      }
      ghost var start := Rest();
      var features := [];
      AfterNone(ReadFeature, count, Rest());
      for i := 0 to count
        invariant Valid()
        invariant ReadMany(ReadFeature, count, start) == After(features, ReadMany(ReadFeature, count - i, Rest()))
      {
        AfterNext(features, ReadFeature, count - i, Rest());
        var name :- DecodeStringStrict();
        if |name| > MAX_FEATURE_NAME_LEN {
          return Malformed;
        }
        features := features + [name];
      }
      AfterAll(features, ReadFeature, Rest());
      return Took(features);
    }

    /** A hello block with `n` version numbers: three from a client, four from a server. */
    method DecodeHello(n: nat) returns (r: Taken<Hello>)
      requires Valid()
      modifies this`pos
      ensures Valid() && Agrees(ReadHello(old(Rest()), n), r, Rest())
    {
      hide ReadNumber, ReadFeatures, ReadMany, After;
      var magic :- ReadUnsigned(4);
      if magic != HELLO_MAGIC {
        return Malformed;
      }
      ghost var start := Rest();
      var versions := [];
      AfterNone(ReadU16, n, Rest());
      for i := 0 to n
        invariant Valid()
        invariant ReadMany(ReadU16, n, start) == After(versions, ReadMany(ReadU16, n - i, Rest()))
      {
        AfterNext(versions, ReadU16, n - i, Rest());
        var v :- ReadUnsigned(2);
        versions := versions + [v];
      }
      AfterAll(versions, ReadU16, Rest());
      var features :- DecodeFeatureList();
      return Took(Hello(versions, features));
    }

    method DecodeColumns(native: bool) returns (r: Taken<seq<bytes>>)
      requires Valid()
      modifies this`pos
      ensures Valid() && Agrees(ReadColumns(if native then ReadStrict else ReadText, old(Rest())), r, Rest())
    {
      hide ReadNumber, ReadStrict, ReadText, ReadMany, After;
      var count :- ReadUnsigned(2);
      if count > MAX_COLUMNS {
        return Malformed;
      }
      ghost var read, start := if native then ReadStrict else ReadText, Rest();
      var columns := [];
      AfterNone(read, count, Rest());
      for i := 0 to count
        invariant Valid()
        invariant ReadMany(read, count, start) == After(columns, ReadMany(read, count - i, Rest()))
      {
        AfterNext(columns, read, count - i, Rest());
        var column: bytes;
        if native {
          column :- DecodeStringStrict();
        } else {
          column :- DecodeString();
        }
        columns := columns + [column];
      }
      AfterAll(columns, read, Rest());
      return Took(columns);
    }

    /** The declared shape, checked against the caps and the bytes that are left. */
    method DecodeRowCount(colCount: nat, cellBytes: nat) returns (r: Taken<nat>)
      requires Valid()
      modifies this`pos
      ensures Valid()
      ensures var p := ReadNumber(old(Rest()), 4);
              if p.Bad? then r == Malformed
              else match CheckShape(p.value, colCount, |p.rest|, cellBytes)
                case Bad => r == Malformed
                case TooBig => r == Oversized
                case Got(_, _) => r == Took(p.value) && Rest() == p.rest
    {
      hide ReadNumber;
      var rowCount :- ReadUnsigned(4);
      if rowCount > MAX_ROWS || (colCount == 0 && rowCount > 0) {
        return Malformed;
      }
      var minimum := rowCount * colCount * cellBytes;
      if |payload| - pos < minimum {
        return Malformed;
      }
      if rowCount * colCount > MAX_RESULT_CELLS {
        return Oversized;
      }
      return Took(rowCount);
    }

    method DecodeTextRow(colCount: nat) returns (r: Taken<seq<bytes>>)
      requires Valid()
      modifies this`pos
      ensures Valid() && Agrees(ReadMany(ReadText, colCount, old(Rest())), r, Rest())
    {
      hide ReadText, ReadMany, After;
      var row := [];
      AfterNone(ReadText, colCount, Rest());
      for c := 0 to colCount
        invariant Valid()
        invariant ReadMany(ReadText, colCount, old(Rest())) == After(row, ReadMany(ReadText, colCount - c, Rest()))
      {
        AfterNext(row, ReadText, colCount - c, Rest());
        var cell :- DecodeString();
        row := row + [cell];
      }
      AfterAll(row, ReadText, Rest());
      return Took(row);
    }

    method DecodeTextRows(colCount: nat) returns (r: Taken<seq<seq<bytes>>>)
      requires Valid()
      modifies this`pos
      ensures Valid() && Agrees(ReadRows(ReadText, colCount, 4, old(Rest())), r, Rest())
    {
      hide ReadNumber, ReadText, ReadMany, After, CheckShape;
      var rowCount :- DecodeRowCount(colCount, 4);
      ghost var read, start := (t: bytes) => ReadMany(ReadText, colCount, t), Rest();
      var rows := [];
      AfterNone(read, rowCount, Rest());
      for i := 0 to rowCount
        invariant Valid()
        invariant ReadMany(read, rowCount, start) == After(rows, ReadMany(read, rowCount - i, Rest()))
      {
        AfterNext(rows, read, rowCount - i, Rest());
        var row :- DecodeTextRow(colCount);
        rows := rows + [row];
      }
      AfterAll(rows, read, Rest());
      return Took(rows);
    }

    method DecodeValueRow(colCount: nat) returns (r: Taken<seq<Value>>)
      requires Valid()
      modifies this`pos
      ensures Valid() && Agrees(ReadMany(ReadValue, colCount, old(Rest())), r, Rest())
    {
      hide ReadValue, ReadMany, After;
      var row := [];
      AfterNone(ReadValue, colCount, Rest());
      for c := 0 to colCount
        invariant Valid()
        invariant ReadMany(ReadValue, colCount, old(Rest())) == After(row, ReadMany(ReadValue, colCount - c, Rest()))
      {
        AfterNext(row, ReadValue, colCount - c, Rest());
        var cell :- DecodeWireValue();
        row := row + [cell];
      }
      AfterAll(row, ReadValue, Rest());
      return Took(row);
    }

    method DecodeValueRows(colCount: nat) returns (r: Taken<seq<seq<Value>>>)
      requires Valid()
      modifies this`pos
      ensures Valid() && Agrees(ReadRows(ReadValue, colCount, 5, old(Rest())), r, Rest())
    {
      hide ReadNumber, ReadValue, ReadMany, After, CheckShape;
      var rowCount :- DecodeRowCount(colCount, 5);
      ghost var read, start := (t: bytes) => ReadMany(ReadValue, colCount, t), Rest();
      var rows := [];
      AfterNone(read, rowCount, Rest());
      for i := 0 to rowCount
        invariant Valid()
        invariant ReadMany(read, rowCount, start) == After(rows, ReadMany(read, rowCount - i, Rest()))
      {
        AfterNext(rows, read, rowCount - i, Rest());
        var row :- DecodeValueRow(colCount);
        rows := rows + [row];
      }
      AfterAll(rows, read, Rest());
      return Took(rows);
    }

    method DecodeConnect() returns (r: Taken<Message>)
      requires Valid()
      modifies this`pos
      ensures Valid() && Agrees(ReadConnect(old(Rest())), r, Rest())
    {
      hide ReadText, ReadHello;
      var db :- DecodeString();
      var password, username: Option<bytes> := None, None;
      if pos < |payload| {
        var p :- DecodeString();
        password := if p == [] then None else Some(p);
      } else {
        return Took(Connect(db, None, None, None));
      }
      if pos < |payload| {
        var u :- DecodeString();
        username := if u == [] then None else Some(u);
      } else {
        return Took(Connect(db, password, None, None));
      }
      if pos < |payload| {
        var hello :- DecodeHello(3);
        return Took(Connect(db, password, username, Some(hello)));
      }
      return Took(Connect(db, password, username, None));
    }

    method DecodeConnectOk() returns (r: Taken<Message>)
      requires Valid()
      modifies this`pos
      ensures Valid() && Agrees(ReadConnectOk(old(Rest())), r, Rest())
    {
      hide ReadText, ReadHello;
      var version :- DecodeString();
      if pos < |payload| {
        var hello :- DecodeHello(4);
        return Took(ConnectOk(version, Some(hello)));
      }
      return Took(ConnectOk(version, None));
    }

    method DecodeSyncPull() returns (r: Taken<Message>)
      requires Valid()
      modifies this`pos
      ensures Valid() && Agrees(ReadSyncPull(old(Rest())), r, Rest())
    {
      hide ReadText, ReadNumber, ReadFixed;
      var replica :- DecodeString();
      var since :- ReadUnsigned(8);
      var maxUnits :- ReadUnsigned(4);
      var maxBytes :- ReadUnsigned(8);
      var database :- ReadFixedBytes(16);
      var generation :- ReadUnsigned(8);
      var wal :- ReadUnsigned(2);
      var catalog :- ReadUnsigned(2);
      var segment :- ReadUnsigned(2);
      return Took(SyncPull(replica, since, maxUnits, maxBytes, Identity(database, generation, wal, catalog, segment)));
    }

    method DecodePullResult() returns (r: Taken<Message>)
      requires Valid()
      modifies this`pos
      ensures Valid() && Agrees(ReadPullResult(old(Rest())), r, Rest())
    {
      hide ReadStatus, ReadNumber, ReadMany, ReadBool;
      var status :- DecodeSyncStatus();
      var count :- ReadUnsigned(4);
      if count > MAX_SYNC_UNITS {
        return Malformed;
      }
      var units :- DecodeUnits(count);
      var hasMore :- ReadFlag();
      return Took(SyncPullResult(status, units, hasMore));
    }

    method DecodeAckResult() returns (r: Taken<Message>)
      requires Valid()
      modifies this`pos
      ensures Valid() && Agrees(ReadAckResult(old(Rest())), r, Rest())
    {
      hide ReadStatus, ReadNumber, ReadBool;
      var previous :- ReadUnsigned(8);
      var applied :- ReadUnsigned(8);
      var remote :- ReadUnsigned(8);
      var advanced :- ReadFlag();
      var status :- DecodeSyncStatus();
      return Took(SyncAckResult(previous, applied, remote, advanced, status));
    }

    method DecodeError() returns (r: Taken<Message>)
      requires Valid()
      modifies this`pos
      ensures Valid() && Agrees(ReadError(old(Rest())), r, Rest())
    {
      hide ReadText;
      var message :- DecodeString();
      if pos < |payload| {
        return Took(Error(message, Some(payload[pos])));
      }
      return Took(Error(message, None));
    }

    method DecodeQuery(native: bool) returns (r: Taken<(bytes, seq<Param>)>)
      requires Valid()
      modifies this`pos
      ensures Valid()
      ensures Agrees(ReadQuery(if native then ReadNativeParam else ReadParam, if native then ReadStrict else ReadText,
                               native, old(Rest())), r, Rest())
    {
      hide ReadText, ReadStrict, ReadParams;
      var query: bytes;
      if native {
        query :- DecodeStringStrict();
      } else {
        query :- DecodeString();
      }
      var params :- DecodeParams(native);
      return Took((query, params));
    }
  }

  method CheckJson(body: bytes) returns (ok: bool)
    ensures ok <==> ValidJson(body)
  {
    hide Pj1.WellFormed, Pj1.Encode, Pj1.Representable;
    var doc := Pj1Decoder.Decode(body);
    ok := doc.Some?;
    if ok {
      assert doc == Some(doc.value);
    }
  }

  /** A message with nothing but one text in it. */
  method DecodeTextMessage(kind: byte, cursor: Cursor) returns (r: Taken<Message>)
    requires cursor.Valid() && kind in {0x03, 0x05, 0x08, 0x0b, 0x20}
    modifies cursor`pos
    ensures cursor.Valid() && Agrees(DecodePayload(kind, old(cursor.Rest())), r, cursor.Rest())
  {
    hide ReadText;
    var text :- cursor.DecodeString();
    match kind {
      case 0x03 => r := Took(Query(text));
      case 0x05 => r := Took(QuerySql(text));
      case 0x08 => r := Took(ResultScalar(text));
      case 0x0b => r := Took(ResultMessage(text));
      case _ => r := Took(SyncStatus(text));
    }
  }

  /** A message whose payload must end where it does. */
  method DecodeNativeMessage(kind: byte, cursor: Cursor) returns (r: Taken<Message>)
    requires cursor.Valid() && 0x13 <= kind <= 0x17
    modifies cursor`pos
    ensures cursor.Valid() && Agrees(DecodePayload(kind, old(cursor.Rest())), r, cursor.Rest())
  {
    hide ReadStrict, ReadQuery, ReadColumns, ReadRows, ReadValue;
    match kind {
      case 0x13 =>
        var query :- cursor.DecodeStringStrict();
        r := Took(QueryNative(query));
      case 0x14 =>
        var q :- cursor.DecodeQuery(true);
        r := Took(QueryWithParamsNative(q.0, q.1));
      case 0x15 =>
        var query :- cursor.DecodeStringStrict();
        r := Took(QuerySqlNative(query));
      case 0x16 =>
        var columns :- cursor.DecodeColumns(true);
        var rows :- cursor.DecodeValueRows(|columns|);
        r := Took(ResultRowsNative(columns, rows));
      case _ =>
        var v :- cursor.DecodeWireValue();
        r := Took(ResultScalarNative(v));
    }
    if cursor.pos != |cursor.payload| {
      r := Malformed;
    }
  }

  method DecodeSyncMessage(kind: byte, cursor: Cursor) returns (r: Taken<Message>)
    requires cursor.Valid() && 0x21 <= kind <= 0x25
    modifies cursor`pos
    ensures cursor.Valid() && Agrees(DecodePayload(kind, old(cursor.Rest())), r, cursor.Rest())
  {
    hide ReadText, ReadNumber, ReadSyncPull, ReadStatus, ReadPullResult, ReadAckResult;
    match kind {
      case 0x21 => r := cursor.DecodeSyncPull();
      case 0x22 =>
        var replica :- cursor.DecodeString();
        var applied :- cursor.ReadUnsigned(8);
        var remote :- cursor.ReadUnsigned(8);
        r := Took(SyncAck(replica, applied, remote));
      case 0x23 =>
        var st :- cursor.DecodeSyncStatus();
        r := Took(SyncStatusResult(st));
      case 0x24 => r := cursor.DecodePullResult();
      case _ => r := cursor.DecodeAckResult();
    }
  }

  method DecodeSessionMessage(kind: byte, cursor: Cursor) returns (r: Taken<Message>)
    requires cursor.Valid() && kind in {0x01, 0x02, 0x0a, 0x10, 0x11, 0x12}
    modifies cursor`pos
    ensures cursor.Valid() && Agrees(DecodePayload(kind, old(cursor.Rest())), r, cursor.Rest())
  {
    hide ReadConnect, ReadConnectOk, ReadError;
    match kind {
      case 0x01 => r := cursor.DecodeConnect();
      case 0x02 => r := cursor.DecodeConnectOk();
      case 0x0a => r := cursor.DecodeError();
      case 0x10 => r := Took(Disconnect);
      case 0x11 => r := Took(Ping);
      case _ => r := Took(Pong);
    }
  }

  method DecodeResultMessage(kind: byte, cursor: Cursor) returns (r: Taken<Message>)
    requires cursor.Valid() && kind in {0x04, 0x07, 0x09}
    modifies cursor`pos
    ensures cursor.Valid() && Agrees(DecodePayload(kind, old(cursor.Rest())), r, cursor.Rest())
  {
    hide ReadQuery, ReadColumns, ReadRows, ReadNumber;
    match kind {
      case 0x04 =>
        var q :- cursor.DecodeQuery(false);
        r := Took(QueryWithParams(q.0, q.1));
      case 0x07 =>
        var columns :- cursor.DecodeColumns(false);
        var rows :- cursor.DecodeTextRows(|columns|);
        r := Took(ResultRows(columns, rows));
      case _ =>
        var n :- cursor.ReadUnsigned(8);
        r := Took(ResultOk(n));
    }
  }

  predicate Known(kind: byte) {
    0x01 <= kind <= 0x05 || 0x07 <= kind <= 0x0b || 0x10 <= kind <= 0x17 || 0x20 <= kind <= 0x25
  }

  lemma UnknownKind(kind: byte, payload: bytes)
    requires !Known(kind)
    ensures DecodePayload(kind, payload) == Bad
  {
  }

  /** Decode a payload by its message type. */
  method DecodeMessage(kind: byte, payload: bytes) returns (r: Taken<Message>)
    ensures match DecodePayload(kind, payload)
            case Got(m, _) => r == Took(m)
            case Bad => r == Malformed
            case TooBig => r == Oversized
  {
    hide DecodePayload;
    var cursor := new Cursor(payload);
    if kind in {0x01, 0x02, 0x0a, 0x10, 0x11, 0x12} {
      r := DecodeSessionMessage(kind, cursor);
    } else if kind in {0x04, 0x07, 0x09} {
      r := DecodeResultMessage(kind, cursor);
    } else if kind in {0x03, 0x05, 0x08, 0x0b, 0x20} {
      r := DecodeTextMessage(kind, cursor);
    } else if 0x13 <= kind <= 0x17 {
      r := DecodeNativeMessage(kind, cursor);
    } else if 0x21 <= kind <= 0x25 {
      r := DecodeSyncMessage(kind, cursor);
    } else {
      UnknownKind(kind, payload);
      r := Malformed;
    }
  }

  /** Decode one frame from the front of a buffer. */
  method TryDecodeFrame(buf: bytes) returns (r: Tried)
    ensures r == TryDecode(buf)
  {
    hide DecodePayload;
    if |buf| < ClientSpec.HEADER {
      return Wait;
    }
    var payloadLen := ClientSpec.PayloadLength(buf);
    if payloadLen > ClientSpec.MAX_PAYLOAD {
      return Failed;
    }
    var end := ClientSpec.HEADER + payloadLen;
    if |buf| < end {
      return Wait;
    }
    var message := DecodeMessage(buf[0], buf[ClientSpec.HEADER..end]);
    match message {
      case Took(m) => r := Decoded(m, end);
      case Malformed => r := Failed;
      case Oversized => r := TooLarge;
    }
  }
}
