/**
 The wire encoders, and the round trip: decoding the bytes of a message gives the message back, up to
 the few things the format does not carry.
 */
module WireRoundTrip {
  import opened Bytes
  import opened Wrappers
  import opened WireSpec
  import ClientSpec
  import Pj1

  // ---------- putting fields in front ----------

  function PutNumber(n: nat, k: nat, rest: bytes): (s: bytes)
    ensures |s| == k + |rest|
  {
    LE(n, k) + rest
  }

  function PutBool(b: bool, rest: bytes): bytes {
    PutNumber(if b then 1 else 0, 1, rest)
  }

  function PutText(t: bytes, rest: bytes): (s: bytes)
    ensures |s| == 4 + |t| + |rest|
  {
    PutNumber(|t|, 4, t + rest)
  }

  function PutOptionalNumber(o: Option<nat>, rest: bytes): bytes {
    match o
    case None => PutBool(false, rest)
    case Some(n) => PutBool(true, PutNumber(n, 8, rest))
  }

  function PutOptionalText(o: Option<bytes>, rest: bytes): bytes {
    match o
    case None => PutBool(false, rest)
    case Some(t) => PutBool(true, PutText(t, rest))
  }

  function PutMany<T>(put: (T, bytes) -> bytes, xs: seq<T>, rest: bytes): bytes {
    if xs == [] then rest else put(xs[0], PutMany(put, xs[1..], rest))
  }

  function PutParam(p: Param, rest: bytes): bytes {
    match p
    case NullParam => PutNumber(0, 1, rest)
    case IntParam(i) => PutNumber(1, 1, PutNumber(Unsigned(i), 8, rest))
    case FloatParam(bits) => PutNumber(2, 1, bits + rest)
    case BoolParam(b) => PutNumber(3, 1, PutBool(b, rest))
    case TextParam(t) => PutNumber(4, 1, PutText(t, rest))
  }

  function ValueTag(v: Value): nat {
    match v
    case Empty => 0
    case Int(_) => 1
    case Float(_) => 2
    case Bool(_) => 3
    case Str(_) => 4
    case DateTime(_) => 5
    case Uuid(_) => 6
    case Blob(_) => 7
    case Json(_) => 8
  }

  function ValueBody(v: Value): bytes {
    match v
    case Empty => []
    case Int(i) => LE(Unsigned(i), 8)
    case Float(bits) => bits
    case Bool(b) => [if b then 1 else 0]
    case Str(t) => t
    case DateTime(i) => LE(Unsigned(i), 8)
    case Uuid(id) => id
    case Blob(data) => data
    case Json(pj1) => pj1
  }

  function PutValue(v: Value, rest: bytes): bytes {
    PutNumber(ValueTag(v), 1, PutText(ValueBody(v), rest))
  }

  function PutStatus(st: Status, rest: bytes): bytes {
    PutText(st.replica,
    PutBool(st.active,
    PutOptionalNumber(st.lastApplied,
    PutNumber(st.remote, 8,
    PutOptionalNumber(st.servable,
    PutOptionalNumber(st.unarchived,
    PutOptionalNumber(st.lagLsn,
    PutOptionalNumber(st.lagBytes,
    PutOptionalNumber(st.lagMs,
    PutBool(st.stale,
    PutNumber(RepairCode(st.repair), 1,
    PutOptionalText(st.lastError, rest))))))))))))
  }

  function PutUnit(u: Unit, rest: bytes): bytes {
    PutNumber(u.tx, 8, PutNumber(u.kind, 1, PutNumber(u.lsn, 8, PutText(u.data, rest))))
  }

  /** Only the first features are sent. */
  function KeptFeatures(features: seq<bytes>): seq<bytes> {
    if |features| <= MAX_HELLO_FEATURES then features else features[..MAX_HELLO_FEATURES]
  }

  function PutFeatures(features: seq<bytes>, rest: bytes): bytes {
    PutNumber(|KeptFeatures(features)|, 2, PutMany(PutText, KeptFeatures(features), rest))
  }

  function PutU16(n: nat, rest: bytes): bytes {
    PutNumber(n, 2, rest)
  }

  function PutHello(h: Hello, rest: bytes): bytes {
    PutNumber(HELLO_MAGIC, 4, PutMany(PutU16, h.versions, PutFeatures(h.features, rest)))
  }

  function PutIdentity(x: Identity, rest: bytes): bytes {
    x.database + PutNumber(x.generation, 8, PutNumber(x.wal, 2, PutNumber(x.catalog, 2, PutNumber(x.segment, 2, rest))))
  }

  function PutTexts(row: seq<bytes>, rest: bytes): bytes {
    PutMany(PutText, row, rest)
  }

  function PutValues(row: seq<Value>, rest: bytes): bytes {
    PutMany(PutValue, row, rest)
  }

  function OrEmpty(o: Option<bytes>): bytes {
    if o.Some? then o.value else []
  }

  /** The username is left out when it is null and no hello follows it. */
  function PutConnectTail(m: Message): bytes
    requires m.Connect?
  {
    if m.hello.Some? then PutText(OrEmpty(m.username), PutHello(m.hello.value, []))
    else if m.username.Some? then PutText(m.username.value, [])
    else []
  }

  function PutQuery(query: bytes, params: seq<Param>): bytes {
    PutText(query, PutNumber(|params|, 2, PutMany(PutParam, params, [])))
  }

  function Payload(m: Message): bytes {
    match m
    case Connect(db, password, _, _) => PutText(db, PutText(OrEmpty(password), PutConnectTail(m)))
    case ConnectOk(version, hello) => PutText(version, if hello.Some? then PutHello(hello.value, []) else [])
    case Query(q) => PutText(q, [])
    case QuerySql(q) => PutText(q, [])
    case QueryWithParams(q, params) => PutQuery(q, params)
    case QueryNative(q) => PutText(q, [])
    case QueryWithParamsNative(q, params) => PutQuery(q, params)
    case QuerySqlNative(q) => PutText(q, [])
    case SyncStatus(r) => PutText(r, [])
    case SyncPull(r, since, maxUnits, maxBytes, identity) =>
      PutText(r, PutNumber(since, 8, PutNumber(maxUnits, 4, PutNumber(maxBytes, 8, PutIdentity(identity, [])))))
    case SyncAck(r, applied, remote) => PutText(r, PutNumber(applied, 8, PutNumber(remote, 8, [])))
    case SyncStatusResult(st) => PutStatus(st, [])
    case SyncPullResult(st, units, hasMore) =>
      PutStatus(st, PutNumber(|units|, 4, PutMany(PutUnit, units, PutBool(hasMore, []))))
    case SyncAckResult(previous, applied, remote, advanced, st) =>
      PutNumber(previous, 8, PutNumber(applied, 8, PutNumber(remote, 8, PutBool(advanced, PutStatus(st, [])))))
    case ResultRows(columns, rows) =>
      PutNumber(|columns|, 2, PutMany(PutText, columns, PutNumber(|rows|, 4, PutMany(PutTexts, rows, []))))
    case ResultScalar(v) => PutText(v, [])
    case ResultRowsNative(columns, rows) =>
      PutNumber(|columns|, 2, PutMany(PutText, columns, PutNumber(|rows|, 4, PutMany(PutValues, rows, []))))
    case ResultScalarNative(v) => PutValue(v, [])
    case ResultOk(n) => PutNumber(n, 8, [])
    case ResultMessage(t) => PutText(t, [])
    case Error(t, class_) => PutText(t, if class_.Some? then PutNumber(class_.value % 256, 1, []) else [])
    case _ => []
  }

  function Kind(m: Message): byte {
    match m
    case Connect(_, _, _, _) => 0x01
    case ConnectOk(_, _) => 0x02
    case Query(_) => 0x03
    case QueryWithParams(_, _) => 0x04
    case QuerySql(_) => 0x05
    case ResultRows(_, _) => 0x07
    case ResultScalar(_) => 0x08
    case ResultOk(_) => 0x09
    case Error(_, _) => 0x0a
    case ResultMessage(_) => 0x0b
    case Disconnect => 0x10
    case Ping => 0x11
    case Pong => 0x12
    case QueryNative(_) => 0x13
    case QueryWithParamsNative(_, _) => 0x14
    case QuerySqlNative(_) => 0x15
    case ResultRowsNative(_, _) => 0x16
    case ResultScalarNative(_) => 0x17
    case SyncStatus(_) => 0x20
    case SyncPull(_, _, _, _, _) => 0x21
    case SyncAck(_, _, _) => 0x22
    case SyncStatusResult(_) => 0x23
    case SyncPullResult(_, _, _) => 0x24
    case SyncAckResult(_, _, _, _, _) => 0x25
  }

  // ---------- what the encoder accepts ----------

  predicate TextOk(t: bytes) {
    |t| < U32_LIMIT
  }

  predicate OptionOk(o: Option<nat>) {
    o.Some? ==> o.value < U64_LIMIT
  }

  predicate ParamOk(p: Param) {
    match p
    case IntParam(i) => I64(i)
    case FloatParam(bits) => |bits| == 8
    case TextParam(t) => TextOk(t)
    case _ => true
  }

  ghost predicate ValueOk(v: Value) {
    && TextOk(ValueBody(v))
    && match v
       case Int(i) => I64(i)
       case DateTime(i) => I64(i)
       case Float(bits) => |bits| == 8
       case Uuid(id) => |id| == 16
       case Json(pj1) => ValidJson(pj1)
       case Str(t) => Pj1.Utf8(t)
       case _ => true
  }

  predicate StatusOk(st: Status) {
    && TextOk(st.replica) && OptionOk(st.lastApplied) && st.remote < U64_LIMIT && OptionOk(st.servable)
    && OptionOk(st.unarchived) && OptionOk(st.lagLsn) && OptionOk(st.lagBytes) && OptionOk(st.lagMs)
    && (st.lastError.Some? ==> TextOk(st.lastError.value))
  }

  predicate UnitOk(u: Unit) {
    u.tx < U64_LIMIT && u.kind < 256 && u.lsn < U64_LIMIT && TextOk(u.data)
  }

  predicate IdentityOk(x: Identity) {
    && |x.database| == 16 && x.generation < U64_LIMIT
    && x.wal < U16_LIMIT && x.catalog < U16_LIMIT && x.segment < U16_LIMIT
  }

  // ---------- one field back ----------

  lemma NumberBack(n: nat, k: nat, rest: bytes)
    requires n < Radix(k)
    ensures ReadNumber(PutNumber(n, k, rest), k) == Got(n, rest)
  {
    var s := PutNumber(n, k, rest);
    assert s[..k] == LE(n, k) && s[k..] == rest;
    LERoundTrip(n, k);
  }

  lemma BoolBack(b: bool, rest: bytes)
    ensures ReadBool(PutBool(b, rest)) == Got(b, rest)
  {
    RadixValues();
    NumberBack(if b then 1 else 0, 1, rest);
  }

  lemma TextBack(t: bytes, rest: bytes)
    requires TextOk(t)
    ensures ReadText(PutText(t, rest)) == Got(t, rest)
  {
    RadixValues();
    NumberBack(|t|, 4, t + rest);
    assert (t + rest)[..|t|] == t && (t + rest)[|t|..] == rest;
  }

  lemma StrictBack(t: bytes, rest: bytes)
    requires TextOk(t) && Pj1.Utf8(t)
    ensures ReadStrict(PutText(t, rest)) == Got(StripBom(t), rest)
  {
    hide ReadText, PutText, Pj1.Utf8;
    TextBack(t, rest);
  }

  lemma OptionalNumberBack(o: Option<nat>, rest: bytes)
    requires OptionOk(o)
    ensures ReadOptionalNumber(PutOptionalNumber(o, rest)) == Got(o, rest)
  {
    hide ReadBool, PutBool, ReadNumber, PutNumber;
    RadixValues();
    match o {
      case None => BoolBack(false, rest);
      case Some(n) =>
        BoolBack(true, PutNumber(n, 8, rest));
        NumberBack(n, 8, rest);
    }
  }

  lemma OptionalTextBack(o: Option<bytes>, rest: bytes)
    requires o.Some? ==> TextOk(o.value)
    ensures ReadOptionalText(PutOptionalText(o, rest)) == Got(o, rest)
  {
    hide ReadBool, PutBool, ReadText, PutText;
    match o {
      case None => BoolBack(false, rest);
      case Some(t) =>
        BoolBack(true, PutText(t, rest));
        TextBack(t, rest);
    }
  }

  function Map<T, U>(f: T -> U, xs: seq<T>): (ys: seq<U>)
    ensures |ys| == |xs|
  {
    seq(|xs|, i requires 0 <= i < |xs| => f(xs[i]))
  }

  /** `read` takes off what `put` put on, and refuses exactly the elements that are not `good`. */
  ghost predicate Reads<T(!new), U(!new)>(put: (T, bytes) -> bytes, read: bytes -> Parse<U>, good: T -> bool, canon: T -> U,
                                          xs: seq<T>)
  {
    forall i, r :: 0 <= i < |xs| ==> read(put(xs[i], r)) == if good(xs[i]) then Got(canon(xs[i]), r) else Bad
  }

  predicate All<T>(good: T -> bool, xs: seq<T>) {
    forall i :: 0 <= i < |xs| ==> good(xs[i])
  }

  lemma {:induction false} ManyBack<T(!new), U(!new)>(put: (T, bytes) -> bytes, read: bytes -> Parse<U>, good: T -> bool,
                                                      canon: T -> U, xs: seq<T>, rest: bytes)
    requires Reads(put, read, good, canon, xs)
    ensures ReadMany(read, |xs|, PutMany(put, xs, rest)) == if All(good, xs) then Got(Map(canon, xs), rest) else Bad
    decreases |xs|
  {
    if xs != [] {
      var more := PutMany(put, xs[1..], rest);
      assert read(put(xs[0], more)) == if good(xs[0]) then Got(canon(xs[0]), more) else Bad;
      forall i, r | 0 <= i < |xs[1..]|
        ensures read(put(xs[1..][i], r)) == if good(xs[1..][i]) then Got(canon(xs[1..][i]), r) else Bad
      {
        assert xs[1..][i] == xs[i + 1];
      }
      ManyBack(put, read, good, canon, xs[1..], rest);
      assert Map(canon, xs) == [canon(xs[0])] + Map(canon, xs[1..]);
      assert All(good, xs) <==> good(xs[0]) && All(good, xs[1..]);
    }
  }

  lemma {:induction false} ManySize<T(!new)>(put: (T, bytes) -> bytes, xs: seq<T>, rest: bytes, least: nat)
    requires forall i, r :: 0 <= i < |xs| ==> |put(xs[i], r)| >= least + |r|
    ensures |PutMany(put, xs, rest)| >= least * |xs| + |rest|
    decreases |xs|
  {
    if xs != [] {
      forall i, r | 0 <= i < |xs[1..]| ensures |put(xs[1..][i], r)| >= least + |r| {
        assert xs[1..][i] == xs[i + 1];
      }
      ManySize(put, xs[1..], rest, least);
      assert least * |xs| == least + least * |xs[1..]|;
    }
  }

  // ---------- records back ----------

  function CanonParam(p: Param): Param {
    if p.TextParam? then TextParam(StripBom(p.text)) else p
  }

  lemma SignedBack(i: int, rest: bytes)
    requires I64(i)
    ensures ReadNumber(PutNumber(Unsigned(i), 8, rest), 8) == Got(Unsigned(i), rest) && Signed(Unsigned(i)) == i
  {
    RadixValues();
    NumberBack(Unsigned(i), 8, rest);
  }

  lemma FixedBack(b: bytes, rest: bytes)
    ensures ReadFixed(b + rest, |b|) == Got(b, rest)
  {
    assert (b + rest)[..|b|] == b && (b + rest)[|b|..] == rest;
  }

  lemma ParamBack(p: Param, rest: bytes)
    requires ParamOk(p)
    ensures ReadParam(PutParam(p, rest)) == Got(p, rest)
    ensures (p.TextParam? ==> Pj1.Utf8(p.text)) ==> ReadNativeParam(PutParam(p, rest)) == Got(CanonParam(p), rest)
  {
    hide ReadNumber, PutNumber, ReadText, PutText, ReadBool, ReadFixed, ReadStrict, Signed, Unsigned, Pj1.Utf8;
    RadixValues();
    match p {
      case NullParam => NumberBack(0, 1, rest);
      case IntParam(i) =>
        NumberBack(1, 1, PutNumber(Unsigned(i), 8, rest));
        SignedBack(i, rest);
      case FloatParam(bits) =>
        NumberBack(2, 1, bits + rest);
        FixedBack(bits, rest);
      case BoolParam(b) =>
        NumberBack(3, 1, PutBool(b, rest));
        NumberBack(if b then 1 else 0, 1, rest);
        BoolBack(b, rest);
      case TextParam(t) =>
        NumberBack(4, 1, PutText(t, rest));
        TextBack(t, rest);
        if Pj1.Utf8(t) {
          StrictBack(t, rest);
        }
    }
  }

  function CanonValue(v: Value): Value {
    if v.Str? then Str(StripBom(v.text)) else v
  }

  lemma BodyMeans(v: Value)
    requires ValueOk(v)
    ensures ValueOf(ValueTag(v), ValueBody(v)) == Some(CanonValue(v))
  {
    hide Pj1.Utf8, StripBom, LE, ValidJson;
    RadixValues();
    match v {
      case Int(i) =>
        LERoundTrip(Unsigned(i), 8);
        assert Signed(Unsigned(i)) == i;
      case DateTime(i) =>
        LERoundTrip(Unsigned(i), 8);
        assert Signed(Unsigned(i)) == i;
      case _ =>
    }
  }

  lemma ValueBack(v: Value, rest: bytes)
    requires ValueOk(v)
    ensures ReadValue(PutValue(v, rest)) == Got(CanonValue(v), rest)
  {
    hide ReadNumber, PutNumber, ReadText, PutText, ValueOf, ValueBody;
    RadixValues();
    NumberBack(ValueTag(v), 1, PutText(ValueBody(v), rest));
    TextBack(ValueBody(v), rest);
    BodyMeans(v);
  }

  lemma StatusBack(st: Status, rest: bytes)
    requires StatusOk(st)
    ensures ReadStatus(PutStatus(st, rest)) == Got(st, rest)
  {
    hide ReadNumber, PutNumber, ReadText, PutText, ReadBool, PutBool, ReadOptionalNumber, PutOptionalNumber,
         ReadOptionalText, PutOptionalText;
    RadixValues();
    OptionalTextBack(st.lastError, rest);
    var r11 := PutOptionalText(st.lastError, rest);
    NumberBack(RepairCode(st.repair), 1, r11);
    var r10 := PutNumber(RepairCode(st.repair), 1, r11);
    BoolBack(st.stale, r10);
    var r9 := PutBool(st.stale, r10);
    OptionalNumberBack(st.lagMs, r9);
    var r8 := PutOptionalNumber(st.lagMs, r9);
    OptionalNumberBack(st.lagBytes, r8);
    var r7 := PutOptionalNumber(st.lagBytes, r8);
    OptionalNumberBack(st.lagLsn, r7);
    var r6 := PutOptionalNumber(st.lagLsn, r7);
    OptionalNumberBack(st.unarchived, r6);
    var r5 := PutOptionalNumber(st.unarchived, r6);
    OptionalNumberBack(st.servable, r5);
    var r4 := PutOptionalNumber(st.servable, r5);
    NumberBack(st.remote, 8, r4);
    var r3 := PutNumber(st.remote, 8, r4);
    OptionalNumberBack(st.lastApplied, r3);
    var r2 := PutOptionalNumber(st.lastApplied, r3);
    BoolBack(st.active, r2);
    TextBack(st.replica, PutBool(st.active, r2));
  }

  lemma UnitBack(u: Unit, rest: bytes)
    requires UnitOk(u)
    ensures ReadUnit(PutUnit(u, rest)) == Got(u, rest)
  {
    hide ReadNumber, PutNumber, ReadText, PutText;
    RadixValues();
    TextBack(u.data, rest);
    var r3 := PutText(u.data, rest);
    NumberBack(u.lsn, 8, r3);
    var r2 := PutNumber(u.lsn, 8, r3);
    NumberBack(u.kind, 1, r2);
    NumberBack(u.tx, 8, PutNumber(u.kind, 1, r2));
  }

  lemma IdentityBack(x: Identity, rest: bytes)
    requires IdentityOk(x)
    ensures ReadIdentity(PutIdentity(x, rest)) == Got(x, rest)
  {
    hide ReadNumber, PutNumber, ReadFixed;
    RadixValues();
    NumberBack(x.segment, 2, rest);
    var r4 := PutNumber(x.segment, 2, rest);
    NumberBack(x.catalog, 2, r4);
    var r3 := PutNumber(x.catalog, 2, r4);
    NumberBack(x.wal, 2, r3);
    var r2 := PutNumber(x.wal, 2, r3);
    NumberBack(x.generation, 8, r2);
    FixedBack(x.database, PutNumber(x.generation, 8, r2));
  }

  // ---------- hello blocks ----------

  predicate NameFits(name: bytes) {
    |StripBom(name)| <= MAX_FEATURE_NAME_LEN
  }

  predicate StrictOk(t: bytes) {
    TextOk(t) && Pj1.Utf8(t)
  }

  predicate HelloOk(h: Hello, n: nat) {
    && |h.versions| == n && (forall i :: 0 <= i < n ==> h.versions[i] < U16_LIMIT)
    && All(StrictOk, h.features)
  }

  function CanonHello(h: Hello): Hello {
    h.(features := Map(StripBom, KeptFeatures(h.features)))
  }

  lemma FeaturesBack(features: seq<bytes>, rest: bytes)
    requires All(StrictOk, features)
    ensures ReadFeatures(PutFeatures(features, rest)) ==
            if All(NameFits, KeptFeatures(features)) then Got(Map(StripBom, KeptFeatures(features)), rest) else Bad
  {
    hide ReadNumber, PutNumber, ReadStrict, PutText, Pj1.Utf8, StripBom;
    RadixValues();
    var kept := KeptFeatures(features);
    var more := PutMany(PutText, kept, rest);
    NumberBack(|kept|, 2, more);
    forall i, r | 0 <= i < |kept|
      ensures ReadFeature(PutText(kept[i], r)) == if NameFits(kept[i]) then Got(StripBom(kept[i]), r) else Bad
    {
      assert StrictOk(features[i]);
      StrictBack(kept[i], r);
    }
    ManyBack(PutText, ReadFeature, NameFits, StripBom, kept, rest);
    ManySize(PutText, kept, rest, 4);
  }

  lemma HelloBack(h: Hello, n: nat, rest: bytes)
    requires HelloOk(h, n)
    ensures ReadHello(PutHello(h, rest), n) ==
            if All(NameFits, KeptFeatures(h.features)) then Got(CanonHello(h), rest) else Bad
    ensures PutHello(h, rest) != []
  {
    hide ReadNumber, PutNumber, ReadFeatures, PutFeatures, StrictOk, NameFits, StripBom;
    RadixValues();
    var more := PutFeatures(h.features, rest);
    NumberBack(HELLO_MAGIC, 4, PutMany(PutU16, h.versions, more));
    forall i, r | 0 <= i < |h.versions| ensures ReadU16(PutU16(h.versions[i], r)) == Got(h.versions[i], r) {
      NumberBack(h.versions[i], 2, r);
    }
    ManyBack(PutU16, ReadU16, (_: nat) => true, (v: nat) => v, h.versions, more);
    assert Map((v: nat) => v, h.versions) == h.versions;
    FeaturesBack(h.features, rest);
  }

  // ---------- rows ----------

  predicate Rectangular<T>(rows: seq<seq<T>>, width: nat) {
    forall i :: 0 <= i < |rows| ==> |rows[i]| == width
  }

  /** The cells of all rows, one after the other: what the encoder writes, whatever the rows' widths. */
  function Flat<T>(rows: seq<seq<T>>): seq<T> {
    if rows == [] then [] else rows[0] + Flat(rows[1..])
  }

  /** The cells in `n` rows of `width`, as far as they go. */
  function Regroup<T>(cells: seq<T>, width: nat, n: nat): (rows: seq<seq<T>>)
    ensures Rectangular(rows, width) && |rows| <= n
  {
    if n == 0 || |cells| < width then [] else [cells[..width]] + Regroup(cells[width..], width, n - 1)
  }

  lemma {:induction false} RegroupFlat<T>(rows: seq<seq<T>>, width: nat)
    ensures Regroup(Flat(rows), width, |rows|) == rows <==> Rectangular(rows, width)
  {
    if rows != [] && Rectangular(rows, width) {
      RegroupFlat(rows[1..], width);
      assert Flat(rows)[..width] == rows[0] && Flat(rows)[width..] == Flat(rows[1..]);
    }
  }

  lemma {:induction false} FlatSize<T>(rows: seq<seq<T>>, width: nat)
    requires Rectangular(rows, width)
    ensures |Flat(rows)| == |rows| * width
  {
    if rows != [] {
      FlatSize(rows[1..], width);
    }
  }

  lemma {:induction false} FlatAll<T(!new)>(good: T -> bool, rows: seq<seq<T>>)
    requires forall i, j :: 0 <= i < |rows| && 0 <= j < |rows[i]| ==> good(rows[i][j])
    ensures All(good, Flat(rows))
  {
    if rows != [] {
      forall i, j | 0 <= i < |rows[1..]| && 0 <= j < |rows[1..][i]| ensures good(rows[1..][i][j]) {
        assert good(rows[i + 1][j]);
      }
      FlatAll(good, rows[1..]);
      assert forall j :: 0 <= j < |rows[0]| ==> good(rows[0][j]);
    }
  }

  lemma {:induction false} PutManyConcat<T>(put: (T, bytes) -> bytes, xs: seq<T>, ys: seq<T>, rest: bytes)
    ensures PutMany(put, xs + ys, rest) == PutMany(put, xs, PutMany(put, ys, rest))
  {
    if xs == [] {
      assert xs + ys == ys;
    } else {
      assert (xs + ys)[1..] == xs[1..] + ys;
      PutManyConcat(put, xs[1..], ys, rest);
    }
  }

  lemma {:induction false} PutFlat<T(!new)>(put: (T, bytes) -> bytes, putRow: (seq<T>, bytes) -> bytes, rows: seq<seq<T>>)
    requires forall row, r :: putRow(row, r) == PutMany(put, row, r)
    ensures PutMany(putRow, rows, []) == PutMany(put, Flat(rows), [])
  {
    if rows != [] {
      PutFlat(put, putRow, rows[1..]);
      PutManyConcat(put, rows[0], Flat(rows[1..]), []);
    }
  }

  /** Each cell reads back, takes at least `least` bytes, and cannot be read off nothing. */
  ghost predicate ReadsCells<T(!new), U(!new)>(put: (T, bytes) -> bytes, read: bytes -> Parse<U>, canon: T -> U, least: nat,
                                               cells: seq<T>)
  {
    && read([]).Bad?
    && forall i, r :: 0 <= i < |cells| ==>
         read(put(cells[i], r)) == Got(canon(cells[i]), r) && |put(cells[i], r)| >= least + |r|
  }

  lemma ReadsFrom<T(!new), U(!new)>(put: (T, bytes) -> bytes, read: bytes -> Parse<U>, canon: T -> U, least: nat,
                                    cells: seq<T>, n: nat)
    requires ReadsCells(put, read, canon, least, cells) && n <= |cells|
    ensures ReadsCells(put, read, canon, least, cells[..n]) && ReadsCells(put, read, canon, least, cells[n..])
  {
    forall i, r | 0 <= i < |cells[n..]|
      ensures read(put(cells[n..][i], r)) == Got(canon(cells[n..][i]), r) && |put(cells[n..][i], r)| >= least + |r|
    {
      assert cells[n..][i] == cells[n + i];
    }
  }

  /** More cells are asked for than there are. */
  lemma {:induction false} CellsRunOut<T(!new), U(!new)>(put: (T, bytes) -> bytes, read: bytes -> Parse<U>, canon: T -> U,
                                                         least: nat, cells: seq<T>, n: nat)
    requires ReadsCells(put, read, canon, least, cells) && n > |cells|
    ensures ReadMany(read, n, PutMany(put, cells, [])) == Bad
    decreases n
  {
    if cells != [] {
      ReadsFrom(put, read, canon, least, cells, 1);
      CellsRunOut(put, read, canon, least, cells[1..], n - 1);
      assert read(put(cells[0], PutMany(put, cells[1..], []))).Got?;
    }
  }

  /** One row off the front. */
  lemma RowBack<T(!new), U(!new)>(put: (T, bytes) -> bytes, read: bytes -> Parse<U>, canon: T -> U, least: nat,
                                  cells: seq<T>, width: nat)
    requires ReadsCells(put, read, canon, least, cells)
    ensures ReadMany(read, width, PutMany(put, cells, [])) ==
            if width <= |cells| then Got(Map(canon, cells[..width]), PutMany(put, cells[width..], [])) else Bad
  {
    hide PutMany, ReadMany;
    if width <= |cells| {
      assert cells == cells[..width] + cells[width..];
      PutManyConcat(put, cells[..width], cells[width..], []);
      assert Reads(put, read, (_: T) => true, canon, cells[..width]);
      ManyBack(put, read, (_: T) => true, canon, cells[..width], PutMany(put, cells[width..], []));
    } else {
      CellsRunOut(put, read, canon, least, cells, width);
    }
  }

  lemma RowsLeft(n: nat, width: nat, cells: nat)
    requires n > 0
    ensures n * width == width + (n - 1) * width
    ensures width <= cells ==> (n * width <= cells <==> (n - 1) * width <= cells - width)
    ensures width > cells ==> n * width > cells
  {
    assert (n - 1) * width >= 0;
  }

  /** Rows read back are the cells regrouped, and reading fails when the cells run out. */
  lemma {:induction false} RowsMany<T(!new), U(!new)>(put: (T, bytes) -> bytes, read: bytes -> Parse<U>, canon: T -> U,
                                                      least: nat, cells: seq<T>, width: nat, n: nat)
    requires ReadsCells(put, read, canon, least, cells)
    ensures ReadMany((t: bytes) => ReadMany(read, width, t), n, PutMany(put, cells, [])) ==
            if n * width <= |cells| then
              Got(Map((row: seq<T>) => Map(canon, row), Regroup(cells, width, n)), PutMany(put, cells[n * width..], []))
            else Bad
    decreases n
  {
    hide PutMany, ReadsCells, Map;
    var readRow, canonRow := (t: bytes) => ReadMany(read, width, t), (row: seq<T>) => Map(canon, row);
    if n > 0 {
      RowBack(put, read, canon, least, cells, width);
      RowsLeft(n, width, |cells|);
      if width <= |cells| {
        ReadsFrom(put, read, canon, least, cells, width);
        RowsMany(put, read, canon, least, cells[width..], width, n - 1);
        MapCons(canonRow, cells[..width], Regroup(cells[width..], width, n - 1));
        if n * width <= |cells| {
          assert cells[width..][(n - 1) * width..] == cells[n * width..];
        }
      }
    } else {
      MapNil(canonRow);
    }
  }

  lemma MapNil<T, U>(f: T -> U)
    ensures Map(f, []) == []
  {
  }

  lemma MapCons<T, U>(f: T -> U, x: T, xs: seq<T>)
    ensures Map(f, [x] + xs) == [f(x)] + Map(f, xs)
  {
  }

  datatype Fate = Arrives | Refused | OverCells

  /** What becomes of rows: their declared shape, how many cells follow, and the bytes those take. */
  function RowsFate(cols: nat, rows: nat, cells: nat, size: nat, least: nat): Fate {
    if cols > MAX_COLUMNS || rows > MAX_ROWS || (cols == 0 && rows > 0) || size < rows * cols * least then Refused
    else if rows * cols > MAX_RESULT_CELLS then OverCells
    else if cells < rows * cols then Refused
    else Arrives
  }

  lemma RowsBack<T(!new), U(!new)>(put: (T, bytes) -> bytes, putRow: (seq<T>, bytes) -> bytes, read: bytes -> Parse<U>,
                                   canon: T -> U, least: nat, rows: seq<seq<T>>, width: nat)
    requires ReadsCells(put, read, canon, least, Flat(rows))
    requires forall row, r :: putRow(row, r) == PutMany(put, row, r)
    requires |rows| < U32_LIMIT && width <= MAX_COLUMNS
    ensures var cells, body := Flat(rows), PutMany(putRow, rows, []);
            ReadRows(read, width, least, PutNumber(|rows|, 4, body)) ==
            match RowsFate(width, |rows|, |cells|, |body|, least)
            case Refused => Bad
            case OverCells => TooBig
            case Arrives =>
              Got(Map((row: seq<T>) => Map(canon, row), Regroup(cells, width, |rows|)),
                  PutMany(put, cells[|rows| * width..], []))
  {
    hide ReadNumber, PutNumber, ReadsCells, PutMany, ReadMany, Map, Regroup;
    RadixValues();
    NumberBack(|rows|, 4, PutMany(putRow, rows, []));
    PutFlat(put, putRow, rows);
    RowsMany(put, read, canon, least, Flat(rows), width, |rows|);
  }

  /** What becomes of rows as wide as the columns. */
  function ShapeFate(cols: nat, rows: nat): Fate {
    if cols > MAX_COLUMNS || rows > MAX_ROWS || (cols == 0 && rows > 0) then Refused
    else if rows * cols > MAX_RESULT_CELLS then OverCells
    else Arrives
  }

  lemma RectangularFate<T(!new)>(put: (T, bytes) -> bytes, putRow: (seq<T>, bytes) -> bytes, least: nat, rows: seq<seq<T>>,
                                 width: nat)
    requires forall i, r :: 0 <= i < |Flat(rows)| ==> |put(Flat(rows)[i], r)| >= least + |r|
    requires Rectangular(rows, width) && forall row, r :: putRow(row, r) == PutMany(put, row, r)
    ensures |Flat(rows)| == |rows| * width
    ensures RowsFate(width, |rows|, |Flat(rows)|, |PutMany(putRow, rows, [])|, least) == ShapeFate(width, |rows|)
  {
    PutFlat(put, putRow, rows);
    ManySize(put, Flat(rows), [], least);
    FlatSize(rows, width);
    Reorder(least, |rows|, width);
  }

  lemma Reorder(a: nat, b: nat, c: nat)
    ensures a * (b * c) == b * c * a
  {
  }

  // ---------- messages ----------

  ghost predicate ParamsOk(params: seq<Param>, native: bool) {
    && |params| <= MAX_PARAMS && All(ParamOk, params)
    && (native ==> forall i :: 0 <= i < |params| && params[i].TextParam? ==> Pj1.Utf8(params[i].text))
  }

  ghost predicate RowsOk(columns: seq<bytes>, rows: seq<seq<bytes>>) {
    && |columns| < U16_LIMIT && |rows| < U32_LIMIT && All(TextOk, columns)
    && (forall i, j :: 0 <= i < |rows| && 0 <= j < |rows[i]| ==> TextOk(rows[i][j]))
  }

  ghost predicate NativeRowsOk(columns: seq<bytes>, rows: seq<seq<Value>>) {
    && |columns| < U16_LIMIT && |rows| < U32_LIMIT && All(StrictOk, columns)
    && (forall i, j :: 0 <= i < |rows| && 0 <= j < |rows[i]| ==> ValueOk(rows[i][j]))
  }

  /** The messages the encoder accepts: everything fits its field. Rows may be of any width. */
  ghost predicate Encodable(m: Message) {
    match m
    case Connect(db, password, username, hello) =>
      && TextOk(db) && TextOk(OrEmpty(password)) && TextOk(OrEmpty(username))
      && (hello.Some? ==> HelloOk(hello.value, 3))
    case ConnectOk(version, hello) => TextOk(version) && (hello.Some? ==> HelloOk(hello.value, 4))
    case Query(q) => TextOk(q)
    case QuerySql(q) => TextOk(q)
    case QueryWithParams(q, params) => TextOk(q) && ParamsOk(params, false)
    case QueryNative(q) => StrictOk(q)
    case QueryWithParamsNative(q, params) => StrictOk(q) && ParamsOk(params, true)
    case QuerySqlNative(q) => StrictOk(q)
    case SyncStatus(r) => TextOk(r)
    case SyncPull(r, since, maxUnits, maxBytes, x) =>
      TextOk(r) && since < U64_LIMIT && maxUnits < U32_LIMIT && maxBytes < U64_LIMIT && IdentityOk(x)
    case SyncAck(r, applied, remote) => TextOk(r) && applied < U64_LIMIT && remote < U64_LIMIT
    case SyncStatusResult(st) => StatusOk(st)
    case SyncPullResult(st, units, _) => StatusOk(st) && |units| < U32_LIMIT && All(UnitOk, units)
    case SyncAckResult(previous, applied, remote, _, st) =>
      previous < U64_LIMIT && applied < U64_LIMIT && remote < U64_LIMIT && StatusOk(st)
    case ResultRows(columns, rows) => RowsOk(columns, rows)
    case ResultScalar(v) => TextOk(v)
    case ResultRowsNative(columns, rows) => NativeRowsOk(columns, rows)
    case ResultScalarNative(v) => ValueOk(v)
    case ResultOk(n) => n < U64_LIMIT
    case ResultMessage(t) => TextOk(t)
    case Error(t, _) => TextOk(t)
    case _ => true
  }

  /** What the decoder does with an encoded message. */
  function MessageFate(m: Message): Fate {
    match m
    case Connect(_, _, _, Some(h)) => if All(NameFits, KeptFeatures(h.features)) then Arrives else Refused
    case ConnectOk(_, Some(h)) => if All(NameFits, KeptFeatures(h.features)) then Arrives else Refused
    case SyncPullResult(_, units, _) => if |units| <= MAX_SYNC_UNITS then Arrives else Refused
    case ResultRows(columns, rows) =>
      RowsFate(|columns|, |rows|, |Flat(rows)|, |PutMany(PutTexts, rows, [])|, 4)
    case ResultRowsNative(columns, rows) =>
      var fate := RowsFate(|columns|, |rows|, |Flat(rows)|, |PutMany(PutValues, rows, [])|, 5);
      if fate.Arrives? && |Flat(rows)| > |rows| * |columns| then Refused else fate
    case _ => Arrives
  }

  function CanonNull(o: Option<bytes>): Option<bytes> {
    if o == Some([]) then None else o
  }

  /**
   What arrives: an empty password or username reads as none, the error class keeps its low byte,
   features past the cap are not sent, strict texts lose a leading byte order mark, and rows are cut
   to the width of the columns.
   */
  function Canon(m: Message): Message {
    match m
    case Connect(db, password, username, hello) =>
      Connect(db, CanonNull(password), CanonNull(username), if hello.Some? then Some(CanonHello(hello.value)) else None)
    case ConnectOk(version, hello) => ConnectOk(version, if hello.Some? then Some(CanonHello(hello.value)) else None)
    case QueryNative(q) => QueryNative(StripBom(q))
    case QueryWithParamsNative(q, params) => QueryWithParamsNative(StripBom(q), Map(CanonParam, params))
    case QuerySqlNative(q) => QuerySqlNative(StripBom(q))
    case ResultRowsNative(columns, rows) =>
      ResultRowsNative(Map(StripBom, columns),
                       Map((row: seq<Value>) => Map(CanonValue, row), Regroup(Flat(rows), |columns|, |rows|)))
    case ResultRows(columns, rows) => ResultRows(columns, Regroup(Flat(rows), |columns|, |rows|))
    case ResultScalarNative(v) => ResultScalarNative(CanonValue(v))
    case Error(t, class_) => Error(t, if class_.Some? then Some(class_.value % 256) else None)
    case _ => m
  }

  /** The parse of an encoded message is as its fate says. */
  ghost predicate Meets(p: Parse<Message>, m: Message) {
    match MessageFate(m)
    case Arrives => p.Got? && p.value == Canon(m)
    case Refused => p.Bad?
    case OverCells => p.TooBig?
  }

  lemma ConnectTrip(m: Message)
    requires m.Connect? && Encodable(m)
    ensures Meets(DecodePayload(Kind(m), Payload(m)), m)
  {
    hide ReadText, PutText, ReadHello, PutHello, NameFits, StrictOk, CanonHello;
    var tail := PutConnectTail(m);
    TextBack(m.db, PutText(OrEmpty(m.password), tail));
    TextBack(OrEmpty(m.password), tail);
    if m.hello.Some? {
      TextBack(OrEmpty(m.username), PutHello(m.hello.value, []));
      HelloBack(m.hello.value, 3, []);
    } else if m.username.Some? {
      TextBack(m.username.value, []);
    }
  }

  lemma ConnectOkTrip(m: Message)
    requires m.ConnectOk? && Encodable(m)
    ensures Meets(DecodePayload(Kind(m), Payload(m)), m)
  {
    hide ReadText, PutText, ReadHello, PutHello, NameFits, StrictOk, CanonHello;
    if m.serverHello.Some? {
      HelloBack(m.serverHello.value, 4, []);
      TextBack(m.version, PutHello(m.serverHello.value, []));
    } else {
      TextBack(m.version, []);
    }
  }

  lemma ParamsBack(params: seq<Param>, native: bool)
    requires ParamsOk(params, native)
    ensures var s := PutNumber(|params|, 2, PutMany(PutParam, params, []));
            if native then ReadParams(ReadNativeParam, true, s) == Got(Map(CanonParam, params), [])
            else ReadParams(ReadParam, false, s) == Got(params, [])
  {
    hide ReadNumber, PutNumber, ReadParam, ReadNativeParam, PutParam, ParamOk, Pj1.Utf8, CanonParam;
    RadixValues();
    NumberBack(|params|, 2, PutMany(PutParam, params, []));
    forall i, r | 0 <= i < |params|
      ensures ReadParam(PutParam(params[i], r)) == Got(params[i], r)
      ensures native ==> ReadNativeParam(PutParam(params[i], r)) == Got(CanonParam(params[i]), r)
      ensures |PutParam(params[i], r)| >= 1 + |r|
    {
      ParamBack(params[i], r);
      ParamSize(params[i], r);
    }
    if native {
      ManyBack(PutParam, ReadNativeParam, (_: Param) => true, CanonParam, params, []);
      ManySize(PutParam, params, [], 1);
    } else {
      ManyBack(PutParam, ReadParam, (_: Param) => true, (p: Param) => p, params, []);
      assert Map((p: Param) => p, params) == params;
    }
  }

  lemma ParamSize(p: Param, r: bytes)
    ensures |PutParam(p, r)| >= 1 + |r|
  {
  }

  lemma QueryTrip(m: Message)
    requires (m.QueryWithParams? || m.QueryWithParamsNative?) && Encodable(m)
    ensures Meets(DecodePayload(Kind(m), Payload(m)), m)
  {
    hide ReadText, PutText, ReadStrict, ReadParams, StripBom, Pj1.Utf8;
    var more := PutNumber(|m.params|, 2, PutMany(PutParam, m.params, []));
    ParamsBack(m.params, m.QueryWithParamsNative?);
    TextBack(m.query, more);
    if m.QueryWithParamsNative? {
      StrictBack(m.query, more);
    }
  }

  lemma SyncTrip(m: Message)
    requires (m.SyncPull? || m.SyncAck?) && Encodable(m)
    ensures Meets(DecodePayload(Kind(m), Payload(m)), m)
  {
    hide ReadText, PutText, ReadNumber, PutNumber, ReadIdentity, PutIdentity;
    RadixValues();
    if m.SyncPull? {
      var r3 := PutIdentity(m.identity, []);
      IdentityBack(m.identity, []);
      NumberBack(m.maxBytes, 8, r3);
      var r2 := PutNumber(m.maxBytes, 8, r3);
      NumberBack(m.maxUnits, 4, r2);
      var r1 := PutNumber(m.maxUnits, 4, r2);
      NumberBack(m.since, 8, r1);
      TextBack(m.replica, PutNumber(m.since, 8, r1));
    } else {
      var r1 := PutNumber(m.remote, 8, []);
      NumberBack(m.remote, 8, []);
      NumberBack(m.applied, 8, r1);
      TextBack(m.replica, PutNumber(m.applied, 8, r1));
    }
  }

  lemma PullResultTrip(m: Message)
    requires m.SyncPullResult? && Encodable(m)
    ensures Meets(DecodePayload(Kind(m), Payload(m)), m)
  {
    hide ReadStatus, PutStatus, ReadNumber, PutNumber, ReadBool, PutBool, ReadUnit, PutUnit, UnitOk, StatusOk;
    RadixValues();
    var r2 := PutBool(m.hasMore, []);
    var r1 := PutMany(PutUnit, m.units, r2);
    StatusBack(m.status, PutNumber(|m.units|, 4, r1));
    NumberBack(|m.units|, 4, r1);
    forall i, r | 0 <= i < |m.units| ensures ReadUnit(PutUnit(m.units[i], r)) == Got(m.units[i], r) {
      UnitBack(m.units[i], r);
    }
    ManyBack(PutUnit, ReadUnit, (_: Unit) => true, (u: Unit) => u, m.units, r2);
    assert Map((u: Unit) => u, m.units) == m.units;
    BoolBack(m.hasMore, []);
  }

  lemma AckResultTrip(m: Message)
    requires m.SyncAckResult? && Encodable(m)
    ensures Meets(DecodePayload(Kind(m), Payload(m)), m)
  {
    hide ReadStatus, PutStatus, ReadNumber, PutNumber, ReadBool, PutBool, StatusOk;
    RadixValues();
    StatusBack(m.status, []);
    var r3 := PutStatus(m.status, []);
    BoolBack(m.advanced, r3);
    var r2 := PutBool(m.advanced, r3);
    NumberBack(m.remote, 8, r2);
    var r1 := PutNumber(m.remote, 8, r2);
    NumberBack(m.applied, 8, r1);
    NumberBack(m.previous, 8, PutNumber(m.applied, 8, r1));
  }

  lemma ColumnsBack(columns: seq<bytes>, rest: bytes)
    requires |columns| < U16_LIMIT && All(TextOk, columns)
    ensures ReadColumns(ReadText, PutNumber(|columns|, 2, PutMany(PutText, columns, rest))) ==
            if |columns| <= MAX_COLUMNS then Got(columns, rest) else Bad
    ensures All(StrictOk, columns) ==>
              ReadColumns(ReadStrict, PutNumber(|columns|, 2, PutMany(PutText, columns, rest))) ==
              if |columns| <= MAX_COLUMNS then Got(Map(StripBom, columns), rest) else Bad
  {
    hide ReadText, PutText, ReadNumber, PutNumber, ReadStrict, StripBom, Pj1.Utf8;
    RadixValues();
    NumberBack(|columns|, 2, PutMany(PutText, columns, rest));
    forall i, r | 0 <= i < |columns|
      ensures ReadText(PutText(columns[i], r)) == Got(columns[i], r)
      ensures All(StrictOk, columns) ==> ReadStrict(PutText(columns[i], r)) == Got(StripBom(columns[i]), r)
    {
      TextBack(columns[i], r);
      if All(StrictOk, columns) {
        StrictBack(columns[i], r);
      }
    }
    ManyBack(PutText, ReadText, (_: bytes) => true, (t: bytes) => t, columns, rest);
    assert Map((t: bytes) => t, columns) == columns;
    if All(StrictOk, columns) {
      ManyBack(PutText, ReadStrict, (_: bytes) => true, StripBom, columns, rest);
    }
  }

  lemma SameRows(rows: seq<seq<bytes>>)
    ensures Map((row: seq<bytes>) => Map((t: bytes) => t, row), rows) == rows
  {
    forall i | 0 <= i < |rows| ensures Map((t: bytes) => t, rows[i]) == rows[i] {
    }
  }

  lemma RowsTrip(m: Message)
    requires m.ResultRows? && Encodable(m)
    ensures Meets(DecodePayload(Kind(m), Payload(m)), m)
  {
    hide ReadColumns, ReadRows, PutMany, PutNumber, ReadText, PutText, Flat, Regroup, Map;
    var cells := Flat(m.rows);
    ColumnsBack(m.columns, PutNumber(|m.rows|, 4, PutMany(PutTexts, m.rows, [])));
    if |m.columns| <= MAX_COLUMNS {
      FlatAll(TextOk, m.rows);
      forall i, r | 0 <= i < |cells|
        ensures ReadText(PutText(cells[i], r)) == Got(((t: bytes) => t)(cells[i]), r) && |PutText(cells[i], r)| >= 4 + |r|
      {
        TextBack(cells[i], r);
      }
      NoText();
      assert ReadsCells(PutText, ReadText, (t: bytes) => t, 4, cells);
      RowsBack(PutText, PutTexts, ReadText, (t: bytes) => t, 4, m.rows, |m.columns|);
      SameRows(Regroup(cells, |m.columns|, |m.rows|));
    }
  }

  lemma NoText()
    ensures ReadText([]).Bad? && ReadValue([]).Bad?
  {
  }

  lemma NativeRowsTrip(m: Message)
    requires m.ResultRowsNative? && Encodable(m)
    ensures Meets(DecodePayload(Kind(m), Payload(m)), m)
  {
    hide ReadColumns, ReadRows, PutMany, PutNumber, ReadValue, PutValue, Pj1.Utf8, CanonValue, ValueOk, Flat, Regroup, Map;
    var cells := Flat(m.nativeRows);
    ColumnsBack(m.columns, PutNumber(|m.nativeRows|, 4, PutMany(PutValues, m.nativeRows, [])));
    if |m.columns| <= MAX_COLUMNS {
      FlatAll(ValueOk, m.nativeRows);
      forall i, r | 0 <= i < |cells|
        ensures ReadValue(PutValue(cells[i], r)) == Got(CanonValue(cells[i]), r) && |PutValue(cells[i], r)| >= 5 + |r|
      {
        ValueBack(cells[i], r);
        ValueSize(cells[i], r);
      }
      NoText();
      assert ReadsCells(PutValue, ReadValue, CanonValue, 5, cells);
      RowsBack(PutValue, PutValues, ReadValue, CanonValue, 5, m.nativeRows, |m.columns|);
      if |m.nativeRows| * |m.columns| <= |cells| {
        Leftover(cells, |m.nativeRows| * |m.columns|);
      }
    }
  }

  /** Rows as wide as the columns meet only the caps: the size guards never refuse what the encoder wrote. */
  lemma OnlyCapsRefuseRows(m: Message)
    requires m.ResultRows? || m.ResultRowsNative?
    requires if m.ResultRows? then Rectangular(m.rows, |m.columns|) else Rectangular(m.nativeRows, |m.columns|)
    ensures MessageFate(m) == ShapeFate(|m.columns|, if m.ResultRows? then |m.rows| else |m.nativeRows|)
  {
    hide Flat, PutMany, RowsFate, ShapeFate;
    if m.ResultRows? {
      RectangularFate(PutText, PutTexts, 4, m.rows, |m.columns|);
    } else {
      forall i, r | 0 <= i < |Flat(m.nativeRows)| ensures |PutValue(Flat(m.nativeRows)[i], r)| >= 5 + |r| {
        ValueSize(Flat(m.nativeRows)[i], r);
      }
      RectangularFate(PutValue, PutValues, 5, m.nativeRows, |m.columns|);
    }
  }

  lemma Leftover(cells: seq<Value>, n: nat)
    requires n <= |cells|
    ensures PutMany(PutValue, cells[n..], []) == [] <==> n == |cells|
  {
    if n < |cells| {
      ValueSize(cells[n], PutMany(PutValue, cells[n..][1..], []));
    }
  }

  lemma ValueSize(v: Value, r: bytes)
    ensures |PutValue(v, r)| >= 5 + |r|
  {
  }

  lemma ErrorTrip(m: Message)
    requires m.Error? && Encodable(m)
    ensures Meets(DecodePayload(Kind(m), Payload(m)), m)
  {
    hide ReadText, PutText;
    if m.errorClass.Some? {
      TextBack(m.message, PutNumber(m.errorClass.value % 256, 1, []));
      assert LE(m.errorClass.value % 256, 1)[0] == m.errorClass.value % 256;
    } else {
      TextBack(m.message, []);
    }
  }

  /** A payload that is one text. */
  lemma TextTrip(m: Message)
    requires Encodable(m)
    requires m.Query? || m.QuerySql? || m.QueryNative? || m.QuerySqlNative? || m.SyncStatus? || m.ResultScalar? || m.ResultMessage?
    ensures Meets(DecodePayload(Kind(m), Payload(m)), m)
  {
    hide ReadText, PutText, ReadStrict, StripBom, Pj1.Utf8;
    var t := match m
      case Query(q) => q
      case QuerySql(q) => q
      case QueryNative(q) => q
      case QuerySqlNative(q) => q
      case SyncStatus(q) => q
      case ResultScalar(q) => q
      case ResultMessage(q) => q;
    TextBack(t, []);
    if Pj1.Utf8(t) {
      StrictBack(t, []);
    }
  }

  /** A payload that is one record or one number. */
  lemma SimpleTrip(m: Message)
    requires Encodable(m)
    requires m.SyncStatusResult? || m.ResultScalarNative? || m.ResultOk?
    ensures Meets(DecodePayload(Kind(m), Payload(m)), m)
  {
    hide ReadStatus, PutStatus, ReadValue, PutValue, ReadNumber, PutNumber, CanonValue, StatusOk, ValueOk;
    if m.SyncStatusResult? {
      StatusBack(m.status, []);
    } else if m.ResultScalarNative? {
      ValueBack(m.nativeValue, []);
    } else {
      RadixValues();
      NumberBack(m.affected, 8, []);
    }
  }

  lemma EmptyTrip(m: Message)
    requires m.Disconnect? || m.Ping? || m.Pong?
    ensures Meets(DecodePayload(Kind(m), Payload(m)), m)
  {
  }

  lemma PayloadTrip(m: Message)
    requires Encodable(m)
    ensures Meets(DecodePayload(Kind(m), Payload(m)), m)
  {
    hide DecodePayload, Payload, Meets, Encodable;
    match m {
      case Connect(_, _, _, _) => ConnectTrip(m);
      case ConnectOk(_, _) => ConnectOkTrip(m);
      case QueryWithParams(_, _) => QueryTrip(m);
      case QueryWithParamsNative(_, _) => QueryTrip(m);
      case SyncPull(_, _, _, _, _) => SyncTrip(m);
      case SyncAck(_, _, _) => SyncTrip(m);
      case SyncPullResult(_, _, _) => PullResultTrip(m);
      case SyncAckResult(_, _, _, _, _) => AckResultTrip(m);
      case ResultRows(_, _) => RowsTrip(m);
      case ResultRowsNative(_, _) => NativeRowsTrip(m);
      case Error(_, _) => ErrorTrip(m);
      case SyncStatusResult(_) => SimpleTrip(m);
      case ResultScalarNative(_) => SimpleTrip(m);
      case ResultOk(_) => SimpleTrip(m);
      case Disconnect => EmptyTrip(m);
      case Ping => EmptyTrip(m);
      case Pong => EmptyTrip(m);
      case _ => TextTrip(m);
    }
  }

  // ---------- frames ----------

  /** Type, an unused flags byte, the payload length, the payload. */
  function Frame(m: Message): bytes {
    [Kind(m), 0] + LE(|Payload(m)|, 4) + Payload(m)
  }

  /** What the encoder turns into a frame: the payload's length has to fit its four bytes. */
  ghost predicate Framed(m: Message) {
    Encodable(m) && |Payload(m)| < U32_LIMIT
  }

  lemma FrameHead(m: Message, rest: bytes)
    requires |Payload(m)| < U32_LIMIT
    ensures ClientSpec.HeadOf(Frame(m) + rest) ==
            if |Payload(m)| > ClientSpec.MAX_PAYLOAD then ClientSpec.Illegal
            else ClientSpec.Whole(ClientSpec.Frame(Kind(m), Payload(m)), rest)
  {
    hide Payload, LE;
    var buf, n := Frame(m) + rest, |Payload(m)|;
    RadixValues();
    LERoundTrip(n, 4);
    assert buf[2..6] == LE(n, 4);
    assert buf[6..6 + n] == Payload(m) && buf[6 + n..] == rest;
  }

  /**
   The wire round trip, whatever follows the frame: an encoded message decodes to itself, up to what
   `Canon` says, and takes exactly its own bytes. A payload over the cap fails, and otherwise the
   message meets its fate.
   */
  lemma RoundTrip(m: Message, rest: bytes)
    requires Framed(m)
    ensures TryDecode(Frame(m) + rest) ==
            if |Payload(m)| > ClientSpec.MAX_PAYLOAD then Failed
            else match MessageFate(m)
              case Arrives => Decoded(Canon(m), |Frame(m)|)
              case Refused => Failed
              case OverCells => TooLarge
  {
    hide Payload, DecodePayload, Canon, Encodable, MessageFate;
    FrameHead(m, rest);
    PayloadTrip(m);
  }

  /** A proper prefix of a frame decodes to nothing, unless its header is there and already over the cap. */
  lemma PrefixWaits(m: Message, k: nat)
    requires |Payload(m)| < U32_LIMIT && k < |Frame(m)|
    ensures TryDecode(Frame(m)[..k]) == if k >= 6 && |Payload(m)| > ClientSpec.MAX_PAYLOAD then Failed else Wait
  {
    hide Payload, LE, DecodePayload;
    var buf, n := Frame(m)[..k], |Payload(m)|;
    if k >= 6 {
      RadixValues();
      LERoundTrip(n, 4);
      assert buf[2..6] == LE(n, 4);
    }
  }

  predicate HasBom(t: bytes) {
    |t| >= 3 && t[0] == 0xEF && t[1] == 0xBB && t[2] == 0xBF
  }

  predicate NoBoms(ts: seq<bytes>) {
    forall i :: 0 <= i < |ts| ==> !HasBom(ts[i])
  }

  predicate PlainParam(p: Param) {
    p.TextParam? ==> !HasBom(p.text)
  }

  predicate PlainValue(v: Value) {
    v.Str? ==> !HasBom(v.text)
  }

  predicate PlainHello(h: Option<Hello>) {
    h.Some? ==> |h.value.features| <= MAX_HELLO_FEATURES && NoBoms(h.value.features)
  }

  /** Messages the format carries without loss. */
  predicate Plain(m: Message) {
    match m
    case Connect(_, password, username, hello) => password != Some([]) && username != Some([]) && PlainHello(hello)
    case ConnectOk(_, hello) => PlainHello(hello)
    case QueryNative(q) => !HasBom(q)
    case QueryWithParamsNative(q, params) => !HasBom(q) && All(PlainParam, params)
    case QuerySqlNative(q) => !HasBom(q)
    case ResultRows(columns, rows) => Rectangular(rows, |columns|)
    case ResultRowsNative(columns, rows) =>
      && NoBoms(columns) && Rectangular(rows, |columns|)
      && forall i, j :: 0 <= i < |rows| && 0 <= j < |rows[i]| ==> PlainValue(rows[i][j])
    case ResultScalarNative(v) => PlainValue(v)
    case Error(_, class_) => class_.Some? ==> 0 <= class_.value < 256
    case _ => true
  }

  lemma MapSame<T(!new)>(f: T -> T, xs: seq<T>)
    ensures Map(f, xs) == xs <==> forall i :: 0 <= i < |xs| ==> f(xs[i]) == xs[i]
  {
    if Map(f, xs) == xs {
      forall i | 0 <= i < |xs| ensures f(xs[i]) == xs[i] {
        assert Map(f, xs)[i] == xs[i];
      }
    }
  }

  lemma StripBomSame(t: bytes)
    ensures StripBom(t) == t <==> !HasBom(t)
  {
    if HasBom(t) {
      assert |StripBom(t)| < |t|;
    }
  }

  /** Only a byte order mark goes, and only the first. */
  lemma StripBomMeans(t: bytes)
    ensures t == StripBom(t) || t == [0xEF, 0xBB, 0xBF] + StripBom(t)
    ensures StripBom([0xEF, 0xBB, 0xBF] + t) == t
  {
    if HasBom(t) {
      assert t == [0xEF, 0xBB, 0xBF] + t[3..];
    }
    assert ([0xEF, 0xBB, 0xBF] + t)[3..] == t;
  }

  lemma TextsSame(ts: seq<bytes>)
    ensures Map(StripBom, ts) == ts <==> NoBoms(ts)
  {
    hide StripBom, HasBom;
    MapSame(StripBom, ts);
    forall i | 0 <= i < |ts| ensures StripBom(ts[i]) == ts[i] <==> !HasBom(ts[i]) {
      StripBomSame(ts[i]);
    }
  }

  lemma HelloSame(h: Hello)
    ensures CanonHello(h) == h <==> |h.features| <= MAX_HELLO_FEATURES && NoBoms(h.features)
  {
    TextsSame(KeptFeatures(h.features));
    assert CanonHello(h).features == h.features ==> |KeptFeatures(h.features)| == |h.features|;
  }

  lemma RowsSame(rows: seq<seq<Value>>)
    ensures Map((row: seq<Value>) => Map(CanonValue, row), rows) == rows <==>
            forall i, j :: 0 <= i < |rows| && 0 <= j < |rows[i]| ==> PlainValue(rows[i][j])
  {
    hide StripBom, HasBom;
    MapSame((row: seq<Value>) => Map(CanonValue, row), rows);
    forall i | 0 <= i < |rows|
      ensures Map(CanonValue, rows[i]) == rows[i] <==> forall j :: 0 <= j < |rows[i]| ==> PlainValue(rows[i][j])
    {
      MapSame(CanonValue, rows[i]);
      forall j | 0 <= j < |rows[i]| ensures CanonValue(rows[i][j]) == rows[i][j] <==> PlainValue(rows[i][j]) {
        if rows[i][j].Str? {
          StripBomSame(rows[i][j].text);
        }
      }
    }
  }

  lemma NativeRowsSame(rows: seq<seq<Value>>, width: nat)
    ensures Map((row: seq<Value>) => Map(CanonValue, row), Regroup(Flat(rows), width, |rows|)) == rows <==>
            && Rectangular(rows, width)
            && forall i, j :: 0 <= i < |rows| && 0 <= j < |rows[i]| ==> PlainValue(rows[i][j])
  {
    hide PlainValue, CanonValue, Flat;
    var cut := Regroup(Flat(rows), width, |rows|);
    var mapped := Map((row: seq<Value>) => Map(CanonValue, row), cut);
    RegroupFlat(rows, width);
    RowsSame(rows);
    assert Rectangular(mapped, width);
  }

  lemma ParamsSame(params: seq<Param>)
    ensures Map(CanonParam, params) == params <==> All(PlainParam, params)
  {
    hide StripBom, HasBom;
    MapSame(CanonParam, params);
    forall i | 0 <= i < |params| ensures CanonParam(params[i]) == params[i] <==> PlainParam(params[i]) {
      if params[i].TextParam? {
        StripBomSame(params[i].text);
      }
    }
  }

  /** A message comes back unchanged if and only if it is plain. */
  lemma LosslessWhenPlain(m: Message)
    ensures Canon(m) == m <==> Plain(m)
  {
    hide StripBom, HasBom, Map, CanonHello, NoBoms, CanonParam, CanonValue;
    match m {
      case Connect(_, _, _, Some(h)) => HelloSame(h);
      case ConnectOk(_, Some(h)) => HelloSame(h);
      case QueryNative(q) => StripBomSame(q);
      case QueryWithParamsNative(q, params) =>
        StripBomSame(q);
        ParamsSame(params);
      case QuerySqlNative(q) => StripBomSame(q);
      case ResultRows(columns, rows) => RegroupFlat(rows, |columns|);
      case ResultRowsNative(columns, rows) =>
        TextsSame(columns);
        NativeRowsSame(rows, |columns|);
      case ResultScalarNative(v) => ValueSame(v);
      case _ =>
    }
  }

  lemma ValueSame(v: Value)
    ensures CanonValue(v) == v <==> PlainValue(v)
  {
    if v.Str? {
      StripBomSame(v.text);
    }
  }

  // ---------- what the client makes of a frame ----------

  /** How the client's reader classes a frame. */
  ghost function Judge(f: ClientSpec.Frame): ClientSpec.Verdict {
    match DecodePayload(f.kind, f.payload)
    case Got(m, _) => if m.Ping? then ClientSpec.IsPing else ClientSpec.IsReply
    case TooBig => ClientSpec.IsTooLarge
    case Bad => ClientSpec.IsMalformed
  }

  /** An encoded message reaches the client's reader whole, and only a cap keeps it from being delivered. */
  lemma EncodedFrameIsDelivered(m: Message, rest: bytes)
    requires Framed(m)
    ensures var h := ClientSpec.HeadOf(Frame(m) + rest);
            if |Payload(m)| > ClientSpec.MAX_PAYLOAD then h.Illegal?
            else
              && h.Whole? && h.rest == rest
              && Judge(h.frame) ==
                 match MessageFate(m)
                 case Arrives => if m.Ping? then ClientSpec.IsPing else ClientSpec.IsReply
                 case Refused => ClientSpec.IsMalformed
                 case OverCells => ClientSpec.IsTooLarge
  {
    hide Payload, DecodePayload, Encodable, CanonHello, StripBom, Map, Flat, Regroup, MessageFate;
    FrameHead(m, rest);
    PayloadTrip(m);
    assert Canon(m).Ping? <==> m.Ping?;
  }
}
