/**
 The wire messages and what their payload bytes are. Encoders put a field in front of the bytes that
 follow it; decoders take a field off the front. Texts are their UTF-8 bytes and floats their eight
 bytes.
 */
module WireSpec {
  import opened Bytes
  import opened Wrappers
  import ClientSpec
  import Pj1

  const MAX_PARAMS := 4096
  const MAX_COLUMNS := 4096
  const MAX_ROWS := 10_000_000
  const MAX_RESULT_CELLS := 2_000_000
  const MAX_SYNC_UNITS := 262_144
  const HELLO_MAGIC := 0x5057_4831
  const MAX_HELLO_FEATURES := 64
  const MAX_FEATURE_NAME_LEN := 64

  // ---------- messages ----------

  datatype Param = NullParam | IntParam(i: int) | FloatParam(bits: bytes) | BoolParam(b: bool) | TextParam(text: bytes)

  datatype Value =
    | Empty
    | Int(i: int)
    | Float(bits: bytes)
    | Bool(b: bool)
    | Str(text: bytes)
    | DateTime(micros: int)
    | Uuid(id: bytes)
    | Blob(data: bytes)
    | Json(pj1: bytes)

  datatype Repair = NoRepair | Pull | AwaitArchive | Rebootstrap

  datatype Status = Status(replica: bytes, active: bool, lastApplied: Option<nat>, remote: nat, servable: Option<nat>,
                           unarchived: Option<nat>, lagLsn: Option<nat>, lagBytes: Option<nat>, lagMs: Option<nat>,
                           stale: bool, repair: Repair, lastError: Option<bytes>)

  datatype Unit = Unit(tx: nat, kind: nat, lsn: nat, data: bytes)

  /** `versions` are minimum and maximum protocol and the catalog; a server puts the agreed protocol first. */
  datatype Hello = Hello(versions: seq<nat>, features: seq<bytes>)

  datatype Identity = Identity(database: bytes, generation: nat, wal: nat, catalog: nat, segment: nat)

  datatype Message =
    | Connect(db: bytes, password: Option<bytes>, username: Option<bytes>, hello: Option<Hello>)
    | ConnectOk(version: bytes, serverHello: Option<Hello>)
    | Query(query: bytes)
    | QuerySql(query: bytes)
    | QueryWithParams(query: bytes, params: seq<Param>)
    | QueryNative(query: bytes)
    | QueryWithParamsNative(query: bytes, params: seq<Param>)
    | QuerySqlNative(query: bytes)
    | SyncStatus(replica: bytes)
    | SyncPull(replica: bytes, since: nat, maxUnits: nat, maxBytes: nat, identity: Identity)
    | SyncAck(replica: bytes, applied: nat, remote: nat)
    | SyncStatusResult(status: Status)
    | SyncPullResult(status: Status, units: seq<Unit>, hasMore: bool)
    | SyncAckResult(previous: nat, applied: nat, remote: nat, advanced: bool, status: Status)
    | ResultRows(columns: seq<bytes>, rows: seq<seq<bytes>>)
    | ResultScalar(value: bytes)
    | ResultRowsNative(columns: seq<bytes>, nativeRows: seq<seq<Value>>)
    | ResultScalarNative(nativeValue: Value)
    | ResultOk(affected: nat)
    | ResultMessage(message: bytes)
    | Error(message: bytes, errorClass: Option<int>)
    | Disconnect
    | Ping
    | Pong

  // ---------- taking fields off the front ----------

  /** `TooBig` is the one failure that leaves the stream usable: a result over the cell cap. */
  datatype Parse<+T> = Got(value: T, rest: bytes) | Bad | TooBig {
    predicate IsFailure() {
      !Got?
    }

    function PropagateFailure<U>(): Parse<U>
      requires IsFailure()
    {
      if Bad? then Bad else TooBig
    }

    function Extract(): (T, bytes)
      requires Got?
    {
      (value, rest)
    }
  }

  function ReadNumber(s: bytes, k: nat): (p: Parse<nat>)
    ensures !p.TooBig?
  {
    if |s| < k then Bad else Got(FromLE(s[..k]), s[k..])
  }

  function ReadFixed(s: bytes, n: nat): Parse<bytes> {
    if |s| < n then Bad else Got(s[..n], s[n..])
  }

  function ReadBool(s: bytes): Parse<bool> {
    var (b, r) :- ReadNumber(s, 1);
    if b == 0 then Got(false, r) else if b == 1 then Got(true, r) else Bad
  }

  function ReadText(s: bytes): Parse<bytes> {
    var (n, r) :- ReadNumber(s, 4);
    ReadFixed(r, n)
  }

  /** A strict decoder swallows a byte order mark in front. */
  function StripBom(t: bytes): bytes {
    if |t| >= 3 && t[0] == 0xEF && t[1] == 0xBB && t[2] == 0xBF then t[3..] else t
  }

  function ReadStrict(s: bytes): Parse<bytes> {
    var (t, r) :- ReadText(s);
    if Pj1.Utf8(t) then Got(StripBom(t), r) else Bad
  }

  function ReadOptionalNumber(s: bytes): Parse<Option<nat>> {
    var (present, r) :- ReadBool(s);
    if !present then Got(None, r)
    else
      var (n, q) :- ReadNumber(r, 8);
      Got(Some(n), q)
  }

  function ReadOptionalText(s: bytes): Parse<Option<bytes>> {
    var (present, r) :- ReadBool(s);
    if !present then Got(None, r)
    else
      var (t, q) :- ReadText(r);
      Got(Some(t), q)
  }

  function ReadMany<T>(read: bytes -> Parse<T>, n: nat, s: bytes): Parse<seq<T>>
    decreases n
  {
    if n == 0 then Got([], s)
    else
      var (x, r) :- read(s);
      var (xs, q) :- ReadMany(read, n - 1, r);
      Got([x] + xs, q)
  }

  function ReadParam(s: bytes): Parse<Param> {
    var (tag, r) :- ReadNumber(s, 1);
    match tag
    case 0 => Got(NullParam, r)
    case 1 =>
      var (raw, q) :- ReadNumber(r, 8);
      Got(IntParam(Signed(raw)), q)
    case 2 =>
      var (bits, q) :- ReadFixed(r, 8);
      Got(FloatParam(bits), q)
    case 3 =>
      var (b, q) :- ReadNumber(r, 1);
      Got(BoolParam(b != 0), q)
    case 4 =>
      var (t, q) :- ReadText(r);
      Got(TextParam(t), q)
    case _ => Bad
  }

  function ReadNativeParam(s: bytes): Parse<Param> {
    var (tag, r) :- ReadNumber(s, 1);
    match tag
    case 0 => Got(NullParam, r)
    case 1 =>
      var (raw, q) :- ReadNumber(r, 8);
      Got(IntParam(Signed(raw)), q)
    case 2 =>
      var (bits, q) :- ReadFixed(r, 8);
      Got(FloatParam(bits), q)
    case 3 =>
      var (b, q) :- ReadBool(r);
      Got(BoolParam(b), q)
    case 4 =>
      var (t, q) :- ReadStrict(r);
      Got(TextParam(t), q)
    case _ => Bad
  }

  /** The bytes of some well-formed document. */
  ghost predicate ValidJson(b: bytes) {
    exists t :: Pj1.WellFormed(t, 0) && b == Pj1.Encode(t)
  }

  /** What a typed value's tag and body stand for. */
  ghost function ValueOf(tag: nat, body: bytes): Option<Value> {
    match tag
    case 0 => if body == [] then Some(Empty) else None
    case 1 => if |body| == 8 then Some(Int(Signed(FromLE(body)))) else None
    case 2 => if |body| == 8 then Some(Float(body)) else None
    case 3 => if body == [0] || body == [1] then Some(Bool(body == [1])) else None
    case 4 => if Pj1.Utf8(body) then Some(Str(StripBom(body))) else None
    case 5 => if |body| == 8 then Some(DateTime(Signed(FromLE(body)))) else None
    case 6 => if |body| == 16 then Some(Uuid(body)) else None
    case 7 => Some(Blob(body))
    case 8 => if ValidJson(body) then Some(Json(body)) else None
    case _ => None
  }

  ghost function ReadValue(s: bytes): Parse<Value> {
    var (tag, r) :- ReadNumber(s, 1);
    var (body, q) :- ReadText(r);
    match ValueOf(tag, body)
    case Some(v) => Got(v, q)
    case None => Bad
  }

  function ReadStatus(s: bytes): Parse<Status> {
    var (replica, s1) :- ReadText(s);
    var (active, s2) :- ReadBool(s1);
    var (lastApplied, s3) :- ReadOptionalNumber(s2);
    var (remote, s4) :- ReadNumber(s3, 8);
    var (servable, s5) :- ReadOptionalNumber(s4);
    var (unarchived, s6) :- ReadOptionalNumber(s5);
    var (lagLsn, s7) :- ReadOptionalNumber(s6);
    var (lagBytes, s8) :- ReadOptionalNumber(s7);
    var (lagMs, s9) :- ReadOptionalNumber(s8);
    var (stale, s10) :- ReadBool(s9);
    var (repair, s11) :- ReadNumber(s10, 1);
    if repair > 3 then Bad
    else
      var (lastError, s12) :- ReadOptionalText(s11);
      Got(Status(replica, active, lastApplied, remote, servable, unarchived, lagLsn, lagBytes, lagMs,
                 stale, RepairOf(repair), lastError), s12)
  }

  function RepairOf(n: nat): Repair
    requires n <= 3
  {
    if n == 0 then NoRepair else if n == 1 then Pull else if n == 2 then AwaitArchive else Rebootstrap
  }

  function RepairCode(r: Repair): nat {
    match r
    case NoRepair => 0
    case Pull => 1
    case AwaitArchive => 2
    case Rebootstrap => 3
  }

  function ReadUnit(s: bytes): Parse<Unit> {
    var (tx, s1) :- ReadNumber(s, 8);
    var (kind, s2) :- ReadNumber(s1, 1);
    var (lsn, s3) :- ReadNumber(s2, 8);
    var (data, s4) :- ReadText(s3);
    Got(Unit(tx, kind, lsn, data), s4)
  }

  function ReadFeature(s: bytes): Parse<bytes> {
    var (name, r) :- ReadStrict(s);
    if |name| > MAX_FEATURE_NAME_LEN then Bad else Got(name, r)
  }

  function ReadFeatures(s: bytes): Parse<seq<bytes>> {
    var (count, r) :- ReadNumber(s, 2);
    if count > MAX_HELLO_FEATURES || count * 4 > |r| then Bad else ReadMany(ReadFeature, count, r)
  }

  function ReadU16(s: bytes): Parse<nat> {
    ReadNumber(s, 2)
  }

  /** A hello block with `n` version numbers. */
  function ReadHello(s: bytes, n: nat): Parse<Hello> {
    var (magic, s1) :- ReadNumber(s, 4);
    if magic != HELLO_MAGIC then Bad
    else
      var (versions, s2) :- ReadMany(ReadU16, n, s1);
      var (features, s3) :- ReadFeatures(s2);
      Got(Hello(versions, features), s3)
  }

  function ReadIdentity(s: bytes): Parse<Identity> {
    var (database, s1) :- ReadFixed(s, 16);
    var (generation, s2) :- ReadNumber(s1, 8);
    var (wal, s3) :- ReadNumber(s2, 2);
    var (catalog, s4) :- ReadNumber(s3, 2);
    var (segment, s5) :- ReadNumber(s4, 2);
    Got(Identity(database, generation, wal, catalog, segment), s5)
  }

  /** Whether a declared shape may be decoded, given the bytes left and the least a cell takes. */
  function CheckShape(rowCount: nat, colCount: nat, left: nat, cellBytes: nat): Parse<()> {
    if rowCount > MAX_ROWS then Bad
    else if colCount == 0 && rowCount > 0 then Bad
    else if left < rowCount * colCount * cellBytes then Bad
    else if rowCount * colCount > MAX_RESULT_CELLS then TooBig
    else Got((), [])
  }

  function ReadColumns(read: bytes -> Parse<bytes>, s: bytes): Parse<seq<bytes>> {
    var (count, r) :- ReadNumber(s, 2);
    if count > MAX_COLUMNS then Bad else ReadMany(read, count, r)
  }

  /** The row count, its checks, and the rows. */
  function ReadRows<T>(read: bytes -> Parse<T>, colCount: nat, cellBytes: nat, s: bytes): Parse<seq<seq<T>>> {
    var (rowCount, r) :- ReadNumber(s, 4);
    var (_, _) :- CheckShape(rowCount, colCount, |r|, cellBytes);
    ReadMany((t: bytes) => ReadMany(read, colCount, t), rowCount, r)
  }

  /** Nothing may follow. */
  function AtEnd<T>(p: Parse<T>): Parse<T> {
    if p.Got? && p.rest != [] then Bad else p
  }

  function Mapped<T, U>(p: Parse<T>, f: T -> U): Parse<U> {
    var (x, r) :- p;
    Got(f(x), r)
  }

  function ReadParams(read: bytes -> Parse<Param>, native: bool, s: bytes): Parse<seq<Param>> {
    var (count, r) :- ReadNumber(s, 2);
    if count > MAX_PARAMS || (native && count > |r|) then Bad else ReadMany(read, count, r)
  }

  function NullIfEmpty(t: bytes): Option<bytes> {
    if t == [] then None else Some(t)
  }

  function ReadConnect(s: bytes): Parse<Message> {
    var (db, s1) :- ReadText(s);
    if s1 == [] then Got(Connect(db, None, None, None), s1)
    else
      var (password, s2) :- ReadText(s1);
      if s2 == [] then Got(Connect(db, NullIfEmpty(password), None, None), s2)
      else
        var (username, s3) :- ReadText(s2);
        if s3 == [] then Got(Connect(db, NullIfEmpty(password), NullIfEmpty(username), None), s3)
        else
          var (hello, s4) :- ReadHello(s3, 3);
          Got(Connect(db, NullIfEmpty(password), NullIfEmpty(username), Some(hello)), s4)
  }

  function ReadConnectOk(s: bytes): Parse<Message> {
    var (version, s1) :- ReadText(s);
    if s1 == [] then Got(ConnectOk(version, None), s1)
    else
      var (hello, s2) :- ReadHello(s1, 4);
      Got(ConnectOk(version, Some(hello)), s2)
  }

  function ReadError(s: bytes): Parse<Message> {
    var (message, r) :- ReadText(s);
    Got(Error(message, if r == [] then None else Some(r[0])), r)
  }

  function ReadSyncPull(s: bytes): Parse<Message> {
    var (replica, s1) :- ReadText(s);
    var (since, s2) :- ReadNumber(s1, 8);
    var (maxUnits, s3) :- ReadNumber(s2, 4);
    var (maxBytes, s4) :- ReadNumber(s3, 8);
    var (identity, s5) :- ReadIdentity(s4);
    Got(SyncPull(replica, since, maxUnits, maxBytes, identity), s5)
  }

  function ReadSyncAck(s: bytes): Parse<Message> {
    var (replica, s1) :- ReadText(s);
    var (applied, s2) :- ReadNumber(s1, 8);
    var (remote, s3) :- ReadNumber(s2, 8);
    Got(SyncAck(replica, applied, remote), s3)
  }

  function ReadPullResult(s: bytes): Parse<Message> {
    var (status, s1) :- ReadStatus(s);
    var (count, s2) :- ReadNumber(s1, 4);
    if count > MAX_SYNC_UNITS then Bad
    else
      var (units, s3) :- ReadMany(ReadUnit, count, s2);
      var (hasMore, s4) :- ReadBool(s3);
      Got(SyncPullResult(status, units, hasMore), s4)
  }

  function ReadAckResult(s: bytes): Parse<Message> {
    var (previous, s1) :- ReadNumber(s, 8);
    var (applied, s2) :- ReadNumber(s1, 8);
    var (remote, s3) :- ReadNumber(s2, 8);
    var (advanced, s4) :- ReadBool(s3);
    var (status, s5) :- ReadStatus(s4);
    Got(SyncAckResult(previous, applied, remote, advanced, status), s5)
  }

  function ReadResultRows(s: bytes): Parse<Message> {
    var (columns, s1) :- ReadColumns(ReadText, s);
    var (rows, s2) :- ReadRows(ReadText, |columns|, 4, s1);
    Got(ResultRows(columns, rows), s2)
  }

  ghost function ReadNativeRows(s: bytes): Parse<Message> {
    var (columns, s1) :- ReadColumns(ReadStrict, s);
    var (rows, s2) :- ReadRows(ReadValue, |columns|, 5, s1);
    Got(ResultRowsNative(columns, rows), s2)
  }

  function ReadQuery(read: bytes -> Parse<Param>, text: bytes -> Parse<bytes>, native: bool, s: bytes): Parse<(bytes, seq<Param>)> {
    var (query, s1) :- text(s);
    var (params, s2) :- ReadParams(read, native, s1);
    Got((query, params), s2)
  }

  /** Decode a payload by its message type. Trailing bytes are refused only where the format says so. */
  ghost function DecodePayload(kind: byte, s: bytes): Parse<Message> {
    match kind
    case 0x01 => ReadConnect(s)
    case 0x02 => ReadConnectOk(s)
    case 0x03 => Mapped(ReadText(s), q => Query(q))
    case 0x04 => Mapped(ReadQuery(ReadParam, ReadText, false, s), (p: (bytes, seq<Param>)) => QueryWithParams(p.0, p.1))
    case 0x05 => Mapped(ReadText(s), q => QuerySql(q))
    case 0x07 => ReadResultRows(s)
    case 0x08 => Mapped(ReadText(s), v => ResultScalar(v))
    case 0x09 => Mapped(ReadNumber(s, 8), n => ResultOk(n))
    case 0x0a => ReadError(s)
    case 0x0b => Mapped(ReadText(s), t => ResultMessage(t))
    case 0x10 => Got(Disconnect, s)
    case 0x11 => Got(Ping, s)
    case 0x12 => Got(Pong, s)
    case 0x13 => AtEnd(Mapped(ReadStrict(s), q => QueryNative(q)))
    case 0x14 =>
      AtEnd(Mapped(ReadQuery(ReadNativeParam, ReadStrict, true, s), (p: (bytes, seq<Param>)) => QueryWithParamsNative(p.0, p.1)))
    case 0x15 => AtEnd(Mapped(ReadStrict(s), q => QuerySqlNative(q)))
    case 0x16 => AtEnd(ReadNativeRows(s))
    case 0x17 => AtEnd(Mapped(ReadValue(s), v => ResultScalarNative(v)))
    case 0x20 => Mapped(ReadText(s), r => SyncStatus(r))
    case 0x21 => ReadSyncPull(s)
    case 0x22 => ReadSyncAck(s)
    case 0x23 => Mapped(ReadStatus(s), st => SyncStatusResult(st))
    case 0x24 => ReadPullResult(s)
    case 0x25 => ReadAckResult(s)
    case _ => Bad
  }

  datatype Tried = Wait | Decoded(message: Message, consumed: nat) | TooLarge | Failed

  /** Decode one frame from the front of a buffer. */
  ghost function TryDecode(buf: bytes): Tried {
    match ClientSpec.HeadOf(buf)
    case Short => Wait
    case Illegal => Failed
    case Whole(f, rest) =>
      match DecodePayload(f.kind, f.payload)
      case Got(m, _) => Decoded(m, |buf| - |rest|)
      case TooBig => TooLarge
      case Bad => Failed
  }
}
