/**
 The converse of the wire round trip. Whatever payload a decoder accepts has the bytes of some message
 that arrives as what was read, perhaps with bytes after it that the format ignores. An encoder can
 have written it exactly when its texts are well formed and it is not one of two tolerated spellings.
 */
module WireConverse {
  import opened Bytes
  import opened Wrappers
  import opened WireSpec
  import opened WireRoundTrip
  import Pj1

  // ---------- what follows a field stays behind it ----------

  lemma NumberAppends(n: nat, k: nat, a: bytes, b: bytes)
    ensures PutNumber(n, k, a + b) == PutNumber(n, k, a) + b
  {
    assert LE(n, k) + (a + b) == LE(n, k) + a + b;
  }

  lemma BoolAppends(x: bool, a: bytes, b: bytes)
    ensures PutBool(x, a + b) == PutBool(x, a) + b
  {
    NumberAppends(if x then 1 else 0, 1, a, b);
  }

  lemma TextAppends(t: bytes, a: bytes, b: bytes)
    ensures PutText(t, a + b) == PutText(t, a) + b
  {
    assert t + (a + b) == t + a + b;
    NumberAppends(|t|, 4, t + a, b);
  }

  lemma OptionalNumberAppends(o: Option<nat>, a: bytes, b: bytes)
    ensures PutOptionalNumber(o, a + b) == PutOptionalNumber(o, a) + b
  {
    hide PutBool, PutNumber;
    match o {
      case None => BoolAppends(false, a, b);
      case Some(n) =>
        NumberAppends(n, 8, a, b);
        BoolAppends(true, PutNumber(n, 8, a), b);
    }
  }

  lemma OptionalTextAppends(o: Option<bytes>, a: bytes, b: bytes)
    ensures PutOptionalText(o, a + b) == PutOptionalText(o, a) + b
  {
    hide PutBool, PutText;
    match o {
      case None => BoolAppends(false, a, b);
      case Some(t) =>
        TextAppends(t, a, b);
        BoolAppends(true, PutText(t, a), b);
    }
  }

  lemma {:induction false} ManyAppends<T(!new)>(put: (T, bytes) -> bytes, xs: seq<T>, a: bytes, b: bytes)
    requires forall x, p, q :: put(x, p + q) == put(x, p) + q
    ensures PutMany(put, xs, a + b) == PutMany(put, xs, a) + b
  {
    if xs != [] {
      ManyAppends(put, xs[1..], a, b);
      assert put(xs[0], PutMany(put, xs[1..], a) + b) == put(xs[0], PutMany(put, xs[1..], a)) + b;
    }
  }

  lemma TextsAppend(ts: seq<bytes>, a: bytes, b: bytes)
    ensures PutMany(PutText, ts, a + b) == PutMany(PutText, ts, a) + b
  {
    hide PutText;
    forall t, p, q ensures PutText(t, p + q) == PutText(t, p) + q {
      TextAppends(t, p, q);
    }
    ManyAppends(PutText, ts, a, b);
  }

  lemma ParamAppends(p: Param, a: bytes, b: bytes)
    ensures PutParam(p, a + b) == PutParam(p, a) + b
  {
    hide PutNumber, PutText, PutBool;
    match p {
      case NullParam => NumberAppends(0, 1, a, b);
      case IntParam(i) =>
        NumberAppends(Unsigned(i), 8, a, b);
        NumberAppends(1, 1, PutNumber(Unsigned(i), 8, a), b);
      case FloatParam(bits) =>
        assert bits + (a + b) == bits + a + b;
        NumberAppends(2, 1, bits + a, b);
      case BoolParam(x) =>
        BoolAppends(x, a, b);
        NumberAppends(3, 1, PutBool(x, a), b);
      case TextParam(t) =>
        TextAppends(t, a, b);
        NumberAppends(4, 1, PutText(t, a), b);
    }
  }

  lemma UnitAppends(u: Unit, a: bytes, b: bytes)
    ensures PutUnit(u, a + b) == PutUnit(u, a) + b
  {
    hide PutNumber, PutText;
    TextAppends(u.data, a, b);
    var r3 := PutText(u.data, a);
    NumberAppends(u.lsn, 8, r3, b);
    var r2 := PutNumber(u.lsn, 8, r3);
    NumberAppends(u.kind, 1, r2, b);
    NumberAppends(u.tx, 8, PutNumber(u.kind, 1, r2), b);
  }

  lemma StatusAppends(st: Status, a: bytes, b: bytes)
    ensures PutStatus(st, a + b) == PutStatus(st, a) + b
  {
    hide PutNumber, PutText, PutBool, PutOptionalNumber, PutOptionalText;
    OptionalTextAppends(st.lastError, a, b);
    var r11 := PutOptionalText(st.lastError, a);
    NumberAppends(RepairCode(st.repair), 1, r11, b);
    var r10 := PutNumber(RepairCode(st.repair), 1, r11);
    BoolAppends(st.stale, r10, b);
    var r9 := PutBool(st.stale, r10);
    OptionalNumberAppends(st.lagMs, r9, b);
    var r8 := PutOptionalNumber(st.lagMs, r9);
    OptionalNumberAppends(st.lagBytes, r8, b);
    var r7 := PutOptionalNumber(st.lagBytes, r8);
    OptionalNumberAppends(st.lagLsn, r7, b);
    var r6 := PutOptionalNumber(st.lagLsn, r7);
    OptionalNumberAppends(st.unarchived, r6, b);
    var r5 := PutOptionalNumber(st.unarchived, r6);
    OptionalNumberAppends(st.servable, r5, b);
    var r4 := PutOptionalNumber(st.servable, r5);
    NumberAppends(st.remote, 8, r4, b);
    var r3 := PutNumber(st.remote, 8, r4);
    OptionalNumberAppends(st.lastApplied, r3, b);
    var r2 := PutOptionalNumber(st.lastApplied, r3);
    BoolAppends(st.active, r2, b);
    TextAppends(st.replica, PutBool(st.active, r2), b);
  }

  lemma IdentityAppends(x: Identity, a: bytes, b: bytes)
    ensures PutIdentity(x, a + b) == PutIdentity(x, a) + b
  {
    hide PutNumber;
    NumberAppends(x.segment, 2, a, b);
    var r4 := PutNumber(x.segment, 2, a);
    NumberAppends(x.catalog, 2, r4, b);
    var r3 := PutNumber(x.catalog, 2, r4);
    NumberAppends(x.wal, 2, r3, b);
    var r2 := PutNumber(x.wal, 2, r3);
    NumberAppends(x.generation, 8, r2, b);
    var r1 := PutNumber(x.generation, 8, r2);
    assert x.database + (r1 + b) == x.database + r1 + b;
  }

  lemma HelloAppends(h: Hello, a: bytes, b: bytes)
    ensures PutHello(h, a + b) == PutHello(h, a) + b
  {
    hide PutNumber, PutText, PutMany, KeptFeatures;
    var kept := KeptFeatures(h.features);
    TextsAppend(kept, a, b);
    NumberAppends(|kept|, 2, PutMany(PutText, kept, a), b);
    var features := PutFeatures(h.features, a);
    forall n, p, q ensures PutU16(n, p + q) == PutU16(n, p) + q {
      NumberAppends(n, 2, p, q);
    }
    ManyAppends(PutU16, h.versions, features, b);
    NumberAppends(HELLO_MAGIC, 4, PutMany(PutU16, h.versions, features), b);
  }

  // ---------- fields read are fields written ----------

  lemma NumberFrom(s: bytes, k: nat)
    requires ReadNumber(s, k).Got?
    ensures var p := ReadNumber(s, k); s == PutNumber(p.value, k, p.rest) && p.value < Radix(k)
  {
    hide LE, FromLE;
    LEOfFromLE(s[..k]);
    assert s == s[..k] + s[k..];
  }

  lemma FixedFrom(s: bytes, n: nat)
    requires ReadFixed(s, n).Got?
    ensures var p := ReadFixed(s, n); s == p.value + p.rest && |p.value| == n
  {
  }

  lemma BoolFrom(s: bytes)
    requires ReadBool(s).Got?
    ensures s == PutBool(ReadBool(s).value, ReadBool(s).rest)
  {
    hide PutNumber;
    NumberFrom(s, 1);
  }

  lemma TextFrom(s: bytes)
    requires ReadText(s).Got?
    ensures var p := ReadText(s); s == PutText(p.value, p.rest) && TextOk(p.value)
  {
    hide PutNumber, ReadNumber, ReadFixed;
    RadixValues();
    NumberFrom(s, 4);
    FixedFrom(ReadNumber(s, 4).rest, ReadNumber(s, 4).value);
  }

  lemma StrictFrom(s: bytes)
    requires ReadStrict(s).Got?
    ensures ReadText(s).Got?
    ensures var t, p := ReadText(s).value, ReadStrict(s);
            s == PutText(t, p.rest) && StrictOk(t) && StripBom(t) == p.value
  {
    hide PutText, ReadText, Pj1.Utf8, StripBom;
    assert ReadText(s).Got?;
    TextFrom(s);
  }

  lemma OptionalNumberFrom(s: bytes)
    requires ReadOptionalNumber(s).Got?
    ensures var p := ReadOptionalNumber(s); s == PutOptionalNumber(p.value, p.rest) && OptionOk(p.value)
  {
    hide ReadBool, PutBool, ReadNumber, PutNumber;
    RadixValues();
    BoolFrom(s);
    if ReadBool(s).value {
      NumberFrom(ReadBool(s).rest, 8);
    }
  }

  lemma OptionalTextFrom(s: bytes)
    requires ReadOptionalText(s).Got?
    ensures var p := ReadOptionalText(s);
            s == PutOptionalText(p.value, p.rest) && (p.value.Some? ==> TextOk(p.value.value))
  {
    hide ReadBool, PutBool, ReadText, PutText, TextOk;
    BoolFrom(s);
    if ReadBool(s).value {
      TextFrom(ReadBool(s).rest);
    }
  }

  function Same<T>(x: T): T {
    x
  }

  lemma SameMap<T(!new)>(xs: seq<T>)
    ensures Map(Same, xs) == xs
  {
    forall i | 0 <= i < |xs| ensures Map(Same, xs)[i] == xs[i] {
      assert Same(xs[i]) == xs[i];
    }
  }

  /** `x` is good, is what `s` starts with, and reads as `s` was read. */
  ghost predicate SpeltBy<T(!new), U(!new)>(put: (T, bytes) -> bytes, read: bytes -> Parse<U>, good: T -> bool, canon: T -> U,
                                            s: bytes, x: T)
  {
    read(s).Got? && good(x) && s == put(x, read(s).rest) && canon(x) == read(s).value
  }

  ghost predicate Spelt<T(!new), U(!new)>(put: (T, bytes) -> bytes, read: bytes -> Parse<U>, good: T -> bool, canon: T -> U)
  {
    forall s :: read(s).Got? ==> exists x :: SpeltBy(put, read, good, canon, s, x)
  }

  lemma {:induction false} ManyFrom<T(!new), U(!new)>(put: (T, bytes) -> bytes, read: bytes -> Parse<U>, good: T -> bool,
                                                      canon: T -> U, n: nat, s: bytes) returns (xs: seq<T>)
    requires Spelt(put, read, good, canon) && ReadMany(read, n, s).Got?
    ensures var p := ReadMany(read, n, s);
            |xs| == n && All(good, xs) && s == PutMany(put, xs, p.rest) && Map(canon, xs) == p.value
    decreases n
  {
    if n == 0 {
      xs := [];
    } else {
      assert read(s).Got?;
      var x :| SpeltBy(put, read, good, canon, s, x);
      var more := ManyFrom(put, read, good, canon, n - 1, read(s).rest);
      xs := [x] + more;
      MapCons(canon, x, more);
      assert xs[1..] == more;
    }
  }

  // ---------- records ----------

  /** A bool parameter that is neither 0 nor 1 reads as true, though no encoder writes it. */
  predicate TightParam(s: bytes) {
    |s| >= 2 && s[0] == 3 ==> s[1] <= 1
  }

  /** The parameters with their bools held to 0 and 1. */
  function ReadTightParam(s: bytes): Parse<Param> {
    if TightParam(s) then ReadParam(s) else Bad
  }

  lemma ParamFrom(s: bytes)
    requires ReadTightParam(s).Got?
    ensures SpeltBy(PutParam, ReadTightParam, ParamOk, Same, s, ReadTightParam(s).value)
  {
    hide ReadNumber, PutNumber, ReadText, PutText, ReadFixed;
    RadixValues();
    NumberFrom(s, 1);
    var tag, r := ReadNumber(s, 1).value, ReadNumber(s, 1).rest;
    TagIs(s);
    match tag {
      case 1 => NumberFrom(r, 8);
      case 2 => FixedFrom(r, 8);
      case 3 =>
        NumberFrom(r, 1);
        TagIs(r);
      case 4 => TextFrom(r);
      case _ =>
    }
  }

  lemma TagIs(s: bytes)
    ensures ReadNumber(s, 1).Got? ==> s != [] && ReadNumber(s, 1) == Got(s[0], s[1..])
  {
    if s != [] {
      assert s[..1] == [s[0]] && FromLE([s[0]][1..]) == 0;
    }
  }

  /** What a strict parameter was before its byte order mark went. */
  function RawParam(s: bytes): Param {
    var p := ReadParam(s);
    if p.Got? then p.value else NullParam
  }

  predicate NativeParamOk(p: Param) {
    ParamOk(p) && (p.TextParam? ==> Pj1.Utf8(p.text))
  }

  lemma NativeParamFrom(s: bytes)
    requires ReadNativeParam(s).Got?
    ensures SpeltBy(PutParam, ReadNativeParam, NativeParamOk, CanonParam, s, RawParam(s))
  {
    hide ReadNumber, PutNumber, ReadText, PutText, ReadFixed, ReadStrict, Pj1.Utf8, StripBom, ReadBool;
    RadixValues();
    NumberFrom(s, 1);
    var tag, r := ReadNumber(s, 1).value, ReadNumber(s, 1).rest;
    match tag {
      case 1 => NumberFrom(r, 8);
      case 2 => FixedFrom(r, 8);
      case 3 =>
        BoolFrom(r);
        BoolIsNumber(r);
      case 4 => StrictFrom(r);
        StrictIsText(r);
      case _ =>
    }
  }

  lemma BoolIsNumber(s: bytes)
    requires ReadBool(s).Got?
    ensures ReadNumber(s, 1) == Got(if ReadBool(s).value then 1 else 0, ReadBool(s).rest)
  {
    hide ReadNumber;
  }

  lemma StrictIsText(s: bytes)
    requires ReadStrict(s).Got?
    ensures ReadText(s).Got? && ReadText(s).rest == ReadStrict(s).rest
  {
    hide ReadText, Pj1.Utf8, StripBom;
    assert ReadText(s).Got?;
  }

  /** The value a tag and a body spell, byte order mark and all. */
  function RawValue(tag: nat, body: bytes): Value {
    match tag
    case 1 => Int(Signed(FromLE(body)))
    case 2 => Float(body)
    case 3 => Bool(body == [1])
    case 4 => Str(body)
    case 5 => DateTime(Signed(FromLE(body)))
    case 6 => Uuid(body)
    case 7 => Blob(body)
    case 8 => Json(body)
    case _ => Empty
  }

  lemma BodyFrom(tag: nat, body: bytes)
    requires TextOk(body) && ValueOf(tag, body).Some?
    ensures var v := RawValue(tag, body);
            ValueOk(v) && ValueTag(v) == tag && ValueBody(v) == body && ValueOf(tag, body) == Some(CanonValue(v))
  {
    hide LE, FromLE, Pj1.Utf8, StripBom, ValidJson;
    if tag == 1 || tag == 5 {
      RadixValues();
      LEOfFromLE(body);
    }
  }

  lemma ValueFrom(s: bytes)
    requires ReadValue(s).Got?
    ensures exists v :: SpeltBy(PutValue, ReadValue, ValueOk, CanonValue, s, v)
  {
    hide ReadNumber, PutNumber, ReadText, PutText, ValueOf, ValueBody, ValueTag, ValueOk, CanonValue;
    NumberFrom(s, 1);
    var tag, r := ReadNumber(s, 1).value, ReadNumber(s, 1).rest;
    TextFrom(r);
    var body := ReadText(r).value;
    BodyFrom(tag, body);
    assert SpeltBy(PutValue, ReadValue, ValueOk, CanonValue, s, RawValue(tag, body));
  }

  lemma UnitFrom(s: bytes)
    requires ReadUnit(s).Got?
    ensures SpeltBy(PutUnit, ReadUnit, UnitOk, Same, s, ReadUnit(s).value)
  {
    hide ReadNumber, PutNumber, ReadText, PutText;
    RadixValues();
    NumberFrom(s, 8);
    var s1 := ReadNumber(s, 8).rest;
    NumberFrom(s1, 1);
    var s2 := ReadNumber(s1, 1).rest;
    NumberFrom(s2, 8);
    TextFrom(ReadNumber(s2, 8).rest);
  }

  lemma StatusFrom(s: bytes)
    requires ReadStatus(s).Got?
    ensures var p := ReadStatus(s); s == PutStatus(p.value, p.rest) && StatusOk(p.value)
  {
    hide ReadNumber, PutNumber, ReadText, PutText, ReadBool, PutBool, ReadOptionalNumber, PutOptionalNumber,
         ReadOptionalText, PutOptionalText, TextOk, OptionOk;
    RadixValues();
    TextFrom(s);
    var s1 := ReadText(s).rest;
    BoolFrom(s1);
    var s2 := ReadBool(s1).rest;
    OptionalNumberFrom(s2);
    var s3 := ReadOptionalNumber(s2).rest;
    NumberFrom(s3, 8);
    var s4 := ReadNumber(s3, 8).rest;
    OptionalNumberFrom(s4);
    var s5 := ReadOptionalNumber(s4).rest;
    OptionalNumberFrom(s5);
    var s6 := ReadOptionalNumber(s5).rest;
    OptionalNumberFrom(s6);
    var s7 := ReadOptionalNumber(s6).rest;
    OptionalNumberFrom(s7);
    var s8 := ReadOptionalNumber(s7).rest;
    OptionalNumberFrom(s8);
    var s9 := ReadOptionalNumber(s8).rest;
    BoolFrom(s9);
    var s10 := ReadBool(s9).rest;
    NumberFrom(s10, 1);
    OptionalTextFrom(ReadNumber(s10, 1).rest);
  }

  lemma IdentityFrom(s: bytes)
    requires ReadIdentity(s).Got?
    ensures var p := ReadIdentity(s); s == PutIdentity(p.value, p.rest) && IdentityOk(p.value)
  {
    hide ReadNumber, PutNumber, ReadFixed;
    RadixValues();
    FixedFrom(s, 16);
    var s1 := ReadFixed(s, 16).rest;
    NumberFrom(s1, 8);
    var s2 := ReadNumber(s1, 8).rest;
    NumberFrom(s2, 2);
    var s3 := ReadNumber(s2, 2).rest;
    NumberFrom(s3, 2);
    NumberFrom(ReadNumber(s3, 2).rest, 2);
  }

  lemma U16From(s: bytes)
    requires ReadU16(s).Got?
    ensures SpeltBy<nat, nat>(PutU16, ReadU16, U16Ok, Same, s, ReadU16(s).value)
  {
    RadixValues();
    NumberFrom(s, 2);
  }

  lemma VersionsSpelt()
    ensures Spelt<nat, nat>(PutU16, ReadU16, U16Ok, Same)
  {
    hide ReadU16, SpeltBy;
    forall t | ReadU16(t).Got? ensures exists x: nat :: SpeltBy<nat, nat>(PutU16, ReadU16, U16Ok, Same, t, x) {
      U16From(t);
    }
  }

  predicate U16Ok(n: nat) {
    n < U16_LIMIT
  }

  lemma FeatureFrom(s: bytes)
    requires ReadFeature(s).Got?
    ensures exists t :: SpeltBy(PutText, ReadFeature, StrictOk, StripBom, s, t)
  {
    hide ReadStrict, ReadText, PutText, StrictOk, StripBom;
    StrictFrom(s);
    assert SpeltBy(PutText, ReadFeature, StrictOk, StripBom, s, ReadText(s).value);
  }

  lemma FeaturesFrom(s: bytes) returns (features: seq<bytes>)
    requires ReadFeatures(s).Got?
    ensures var p := ReadFeatures(s);
            && s == PutFeatures(features, p.rest) && All(StrictOk, features)
            && |features| <= MAX_HELLO_FEATURES && Map(StripBom, features) == p.value
  {
    hide ReadNumber, PutNumber, ReadFeature, StrictOk, StripBom, ReadMany, PutMany, Map;
    NumberFrom(s, 2);
    forall t | ReadFeature(t).Got? ensures exists x :: SpeltBy(PutText, ReadFeature, StrictOk, StripBom, t, x) {
      FeatureFrom(t);
    }
    features := ManyFrom(PutText, ReadFeature, StrictOk, StripBom, ReadNumber(s, 2).value, ReadNumber(s, 2).rest);
  }

  lemma HelloFrom(s: bytes, n: nat) returns (h: Hello)
    requires ReadHello(s, n).Got?
    ensures var p := ReadHello(s, n); s == PutHello(h, p.rest) && HelloOk(h, n) && CanonHello(h) == p.value
  {
    hide ReadNumber, PutNumber, ReadFeatures, PutFeatures, ReadU16, PutU16, StrictOk, StripBom, ReadMany, PutMany, Map;
    NumberFrom(s, 4);
    var s1 := ReadNumber(s, 4).rest;
    VersionsSpelt();
    var versions := ManyFrom<nat, nat>(PutU16, ReadU16, U16Ok, Same, n, s1);
    SameMap(versions);
    var features := FeaturesFrom(ReadMany(ReadU16, n, s1).rest);
    h := Hello(versions, features);
  }

  // ---------- parameters, columns and rows ----------

  lemma {:induction false} TightIsLoose(n: nat, s: bytes)
    requires ReadMany(ReadTightParam, n, s).Got?
    ensures ReadMany(ReadParam, n, s) == ReadMany(ReadTightParam, n, s)
  {
    hide ReadParam, TightParam;
    if n > 0 {
      assert ReadTightParam(s).Got?;
      TightIsLoose(n - 1, ReadTightParam(s).rest);
    }
  }

  lemma ParamsFrom(s: bytes) returns (params: seq<Param>)
    requires ReadParams(ReadTightParam, false, s).Got?
    ensures ReadParams(ReadParam, false, s) == ReadParams(ReadTightParam, false, s)
    ensures var p := ReadParams(ReadParam, false, s);
            && s == PutNumber(|params|, 2, PutMany(PutParam, params, p.rest))
            && ParamsOk(params, false) && params == p.value
  {
    hide ReadNumber, PutNumber, ReadTightParam, ReadParam, PutParam, ReadMany, PutMany, ParamOk, Map, SpeltBy;
    NumberFrom(s, 2);
    var n, r := ReadNumber(s, 2).value, ReadNumber(s, 2).rest;
    forall t | ReadTightParam(t).Got? ensures exists x :: SpeltBy(PutParam, ReadTightParam, ParamOk, Same, t, x) {
      ParamFrom(t);
    }
    params := ManyFrom(PutParam, ReadTightParam, ParamOk, Same, n, r);
    SameMap(params);
    TightIsLoose(n, r);
  }

  lemma NativeParamsFrom(s: bytes) returns (params: seq<Param>)
    requires ReadParams(ReadNativeParam, true, s).Got?
    ensures var p := ReadParams(ReadNativeParam, true, s);
            && s == PutNumber(|params|, 2, PutMany(PutParam, params, p.rest))
            && ParamsOk(params, true) && Map(CanonParam, params) == p.value
  {
    hide ReadNumber, PutNumber, ReadNativeParam, PutParam, ReadMany, PutMany, ParamOk, Map, SpeltBy, Pj1.Utf8, CanonParam;
    NumberFrom(s, 2);
    forall t | ReadNativeParam(t).Got? ensures exists x :: SpeltBy(PutParam, ReadNativeParam, NativeParamOk, CanonParam, t, x) {
      NativeParamFrom(t);
    }
    params := ManyFrom(PutParam, ReadNativeParam, NativeParamOk, CanonParam, ReadNumber(s, 2).value, ReadNumber(s, 2).rest);
  }

  lemma TextsSpelt()
    ensures Spelt(PutText, ReadText, TextOk, Same)
    ensures Spelt(PutText, ReadStrict, StrictOk, StripBom)
  {
    hide ReadText, PutText, ReadStrict, StrictOk, TextOk, StripBom;
    forall t | ReadText(t).Got? ensures exists x :: SpeltBy(PutText, ReadText, TextOk, Same, t, x) {
      TextFrom(t);
      assert SpeltBy(PutText, ReadText, TextOk, Same, t, ReadText(t).value);
    }
    forall t | ReadStrict(t).Got? ensures exists x :: SpeltBy(PutText, ReadStrict, StrictOk, StripBom, t, x) {
      StrictFrom(t);
      assert SpeltBy(PutText, ReadStrict, StrictOk, StripBom, t, ReadText(t).value);
    }
  }

  lemma ColumnsFrom(read: bytes -> Parse<bytes>, good: bytes -> bool, canon: bytes -> bytes, s: bytes)
    returns (columns: seq<bytes>)
    requires Spelt(PutText, read, good, canon) && ReadColumns(read, s).Got?
    ensures var p := ReadColumns(read, s);
            && s == PutNumber(|columns|, 2, PutMany(PutText, columns, p.rest))
            && |columns| <= MAX_COLUMNS && All(good, columns) && Map(canon, columns) == p.value
  {
    hide ReadNumber, PutNumber, ReadMany, PutMany, Map, PutText, Spelt;
    NumberFrom(s, 2);
    columns := ManyFrom(PutText, read, good, canon, ReadNumber(s, 2).value, ReadNumber(s, 2).rest);
  }

  ghost predicate GoodRow<T(!new)>(good: T -> bool, width: nat, row: seq<T>) {
    |row| == width && All(good, row)
  }

  lemma RowsFrom<T(!new), U(!new)>(put: (T, bytes) -> bytes, putRow: (seq<T>, bytes) -> bytes, read: bytes -> Parse<U>,
                                   good: T -> bool, canon: T -> U, least: nat, width: nat, s: bytes) returns (rows: seq<seq<T>>)
    requires Spelt(put, read, good, canon) && ReadRows(read, width, least, s).Got?
    requires forall row, r :: putRow(row, r) == PutMany(put, row, r)
    ensures var p := ReadRows(read, width, least, s);
            && s == PutNumber(|rows|, 4, PutMany(putRow, rows, p.rest))
            && |rows| < U32_LIMIT && Rectangular(rows, width)
            && (forall i :: 0 <= i < |rows| ==> All(good, rows[i]))
            && Map((row: seq<T>) => Map(canon, row), rows) == p.value
  {
    hide ReadNumber, PutNumber, ReadMany, PutMany, Map, Spelt;
    RadixValues();
    NumberFrom(s, 4);
    var readRow, canonRow := (t: bytes) => ReadMany(read, width, t), (row: seq<T>) => Map(canon, row);
    var goodRow := (row: seq<T>) => GoodRow(good, width, row);
    RowSpelt(put, putRow, read, good, canon, width);
    rows := ManyFrom(putRow, readRow, goodRow, canonRow, ReadNumber(s, 4).value, ReadNumber(s, 4).rest);
    forall i | 0 <= i < |rows| ensures GoodRow(good, width, rows[i]) {
      assert goodRow(rows[i]);
    }
  }

  lemma RowSpelt<T(!new), U(!new)>(put: (T, bytes) -> bytes, putRow: (seq<T>, bytes) -> bytes, read: bytes -> Parse<U>,
                                   good: T -> bool, canon: T -> U, width: nat)
    requires Spelt(put, read, good, canon)
    requires forall row, r :: putRow(row, r) == PutMany(put, row, r)
    ensures Spelt(putRow, (t: bytes) => ReadMany(read, width, t), (row: seq<T>) => GoodRow(good, width, row),
                  (row: seq<T>) => Map(canon, row))
  {
    hide ReadMany, PutMany, Map;
    var readRow, canonRow := (t: bytes) => ReadMany(read, width, t), (row: seq<T>) => Map(canon, row);
    var goodRow := (row: seq<T>) => GoodRow(good, width, row);
    forall t | readRow(t).Got? ensures exists x :: SpeltBy(putRow, readRow, goodRow, canonRow, t, x) {
      var row := ManyFrom(put, read, good, canon, width, t);
      assert SpeltBy(putRow, readRow, goodRow, canonRow, t, row);
    }
  }

  // ---------- messages ----------

  /** `s` is the payload of `w`, with perhaps bytes after it, and reads as what arrives of `w`. */
  ghost predicate Writes(w: Message, kind: byte, s: bytes) {
    && Encodable(w) && Kind(w) == kind && Payload(w) <= s
    && (0x13 <= kind <= 0x17 ==> Payload(w) == s)
    && var p := DecodePayload(kind, s); p.Got? && p.value == Canon(w)
  }

  /** The spellings no encoder writes: a connect that ends after the database, a bool that is not 0 or 1. */
  predicate Tolerated(kind: byte, s: bytes) {
    || (kind == 0x01 && ReadText(s).Got? && ReadText(s).rest == [])
    || (kind == 0x04 && !ReadQuery(ReadTightParam, ReadText, false, s).Got?)
  }

  // ---------- what an encoder can say ----------

  /** The float patterns of a platform: which eight bytes it writes for some number. */
  type Floats = bytes -> bool

  predicate SayableParam(p: Param, floats: Floats) {
    match p
    case FloatParam(bits) => floats(bits)
    case TextParam(t) => Pj1.Utf8(t)
    case _ => true
  }

  /** In strict parameters the texts are held to UTF-8 anyway. */
  predicate SayableNativeParam(p: Param, floats: Floats) {
    p.FloatParam? ==> floats(p.bits)
  }

  predicate SayableValue(v: Value, floats: Floats) {
    v.Float? ==> floats(v.bits)
  }

  predicate SayableStatus(st: Status) {
    Pj1.Utf8(st.replica) && (st.lastError.Some? ==> Pj1.Utf8(st.lastError.value))
  }

  predicate Cells<T>(good: T -> bool, rows: seq<seq<T>>) {
    forall i :: 0 <= i < |rows| ==> All(good, rows[i])
  }

  /**
   A message with no text and no float an encoder could not write. Encoders turn strings into
   well-formed UTF-8, while loose decoders take any bytes. `Encodable` already holds the texts to UTF-8
   that are decoded strictly.
   */
  predicate Sayable(m: Message, floats: Floats) {
    match m
    case Connect(db, password, username, _) => Pj1.Utf8(db) && Pj1.Utf8(OrEmpty(password)) && Pj1.Utf8(OrEmpty(username))
    case ConnectOk(version, _) => Pj1.Utf8(version)
    case Query(q) => Pj1.Utf8(q)
    case QuerySql(q) => Pj1.Utf8(q)
    case QueryWithParams(q, params) => Pj1.Utf8(q) && All((p: Param) => SayableParam(p, floats), params)
    case QueryWithParamsNative(_, params) => All((p: Param) => SayableNativeParam(p, floats), params)
    case SyncStatus(r) => Pj1.Utf8(r)
    case SyncPull(r, _, _, _, _) => Pj1.Utf8(r)
    case SyncAck(r, _, _) => Pj1.Utf8(r)
    case SyncStatusResult(st) => SayableStatus(st)
    case SyncPullResult(st, _, _) => SayableStatus(st)
    case SyncAckResult(_, _, _, _, st) => SayableStatus(st)
    case ResultRows(columns, rows) =>
      All(Pj1.Utf8, columns) && Cells(Pj1.Utf8, rows)
    case ResultScalar(v) => Pj1.Utf8(v)
    case ResultRowsNative(_, rows) => Cells((v: Value) => SayableValue(v, floats), rows)
    case ResultScalarNative(v) => SayableValue(v, floats)
    case ResultMessage(t) => Pj1.Utf8(t)
    case Error(t, _) => Pj1.Utf8(t)
    case _ => true
  }

  /** Every row is as wide as the columns. */
  predicate Even(m: Message) {
    match m
    case ResultRows(columns, rows) => Rectangular(rows, |columns|)
    case ResultRowsNative(columns, rows) => Rectangular(rows, |columns|)
    case _ => true
  }

  lemma {:induction false} RegroupAll<T(!new)>(good: T -> bool, cells: seq<T>, width: nat, n: nat)
    requires All(good, cells)
    ensures Cells(good, Regroup(cells, width, n))
    decreases n
  {
    if n > 0 && |cells| >= width {
      RegroupAll(good, cells[width..], width, n - 1);
    }
  }

  /** Regrouping keeps only cells that were there. */
  lemma CutCells<T(!new)>(good: T -> bool, rows: seq<seq<T>>, width: nat)
    requires Cells(good, rows)
    ensures Cells(good, Regroup(Flat(rows), width, |rows|))
  {
    hide Flat, Regroup;
    FlatAll(good, rows);
    RegroupAll(good, Flat(rows), width, |rows|);
  }

  /** A byte order mark makes no difference to the floats. */
  lemma CanonParams(params: seq<Param>, floats: Floats)
    ensures All((p: Param) => SayableNativeParam(p, floats), Map(CanonParam, params)) <==>
            All((p: Param) => SayableNativeParam(p, floats), params)
  {
    var good := (p: Param) => SayableNativeParam(p, floats);
    forall i | 0 <= i < |params| ensures good(Map(CanonParam, params)[i]) <==> good(params[i]) {
      assert Map(CanonParam, params)[i] == CanonParam(params[i]);
    }
  }


  lemma CanonCells(rows: seq<seq<Value>>, floats: Floats)
    ensures Cells((v: Value) => SayableValue(v, floats), Map((row: seq<Value>) => Map(CanonValue, row), rows)) <==>
            Cells((v: Value) => SayableValue(v, floats), rows)
  {
    var good := (v: Value) => SayableValue(v, floats);
    var canon := Map((row: seq<Value>) => Map(CanonValue, row), rows);
    forall i | 0 <= i < |rows| ensures All(good, canon[i]) <==> All(good, rows[i]) {
      forall j | 0 <= j < |rows[i]| ensures good(canon[i][j]) <==> good(rows[i][j]) {
        assert canon[i][j] == CanonValue(rows[i][j]);
      }
    }
  }

  /** What is sayable arrives sayable. */
  lemma SayableArrives(w: Message, floats: Floats)
    requires Sayable(w, floats)
    ensures Sayable(Canon(w), floats)
  {
    hide Pj1.Utf8, StripBom, CanonHello, Flat, Regroup, Cells;
    match w {
      case QueryWithParamsNative(_, params) => CanonParams(params, floats);
      case ResultRows(columns, rows) => CutCells(Pj1.Utf8, rows, |columns|);
      case ResultRowsNative(columns, rows) =>
        CutCells((v: Value) => SayableValue(v, floats), rows, |columns|);
        CanonCells(Regroup(Flat(rows), |columns|, |rows|), floats);
      case _ =>
    }
  }

  /** With even rows nothing is lost that could have been unsayable. */
  lemma SayableBack(w: Message, floats: Floats)
    requires Even(w) && Sayable(Canon(w), floats)
    ensures Sayable(w, floats)
  {
    hide Pj1.Utf8, StripBom, CanonHello, Flat, Regroup, Cells;
    match w {
      case QueryWithParamsNative(_, params) => CanonParams(params, floats);
      case ResultRows(columns, rows) => RegroupFlat(rows, |columns|);
      case ResultRowsNative(columns, rows) =>
        RegroupFlat(rows, |columns|);
        CanonCells(rows, floats);
      case _ =>
    }
  }

  // ---------- messages read are messages written ----------

  lemma Nothing(r: bytes)
    ensures [] + r == r
  {
  }

  lemma ConnectFrom(s: bytes) returns (w: Message)
    requires ReadConnect(s).Got? && !Tolerated(0x01, s)
    ensures Writes(w, 0x01, s)
  {
    hide ReadText, PutText, ReadHello, PutHello, HelloOk, CanonHello, TextOk;
    TextFrom(s);
    var db, s1 := ReadText(s).value, ReadText(s).rest;
    TextFrom(s1);
    var password, s2 := ReadText(s1).value, ReadText(s1).rest;
    if s2 == [] {
      w := Connect(db, Some(password), None, None);
      EmptyOk();
    } else {
      TextFrom(s2);
      var username, s3 := ReadText(s2).value, ReadText(s2).rest;
      if s3 == [] {
        w := Connect(db, Some(password), Some(username), None);
      } else {
        var h := HelloFrom(s3, 3);
        var rest := ReadHello(s3, 3).rest;
        w := Connect(db, Some(password), Some(username), Some(h));
        Nothing(rest);
        HelloAppends(h, [], rest);
        TextAppends(username, PutHello(h, []), rest);
        TextAppends(password, PutText(username, PutHello(h, [])), rest);
        TextAppends(db, PutText(password, PutText(username, PutHello(h, []))), rest);
      }
    }
  }

  lemma EmptyOk()
    ensures TextOk([])
  {
  }

  lemma ConnectOkFrom(s: bytes) returns (w: Message)
    requires ReadConnectOk(s).Got?
    ensures Writes(w, 0x02, s)
  {
    hide ReadText, PutText, ReadHello, PutHello, HelloOk, CanonHello, TextOk;
    TextFrom(s);
    var version, s1 := ReadText(s).value, ReadText(s).rest;
    if s1 == [] {
      w := ConnectOk(version, None);
    } else {
      var h := HelloFrom(s1, 4);
      var rest := ReadHello(s1, 4).rest;
      w := ConnectOk(version, Some(h));
      Nothing(rest);
      HelloAppends(h, [], rest);
      TextAppends(version, PutHello(h, []), rest);
    }
  }

  lemma QueryFrom(s: bytes) returns (w: Message)
    requires DecodePayload(0x04, s).Got? && !Tolerated(0x04, s)
    ensures Writes(w, 0x04, s)
  {
    hide ReadText, PutText, ReadParams, ReadParam, ReadTightParam, PutNumber, PutMany, TextOk, ParamsOk;
    TextFrom(s);
    var query, s1 := ReadText(s).value, ReadText(s).rest;
    var params := ParamsFrom(s1);
    var rest := ReadParams(ReadParam, false, s1).rest;
    w := QueryWithParams(query, params);
    Nothing(rest);
    ParamsAppend(params, rest);
    TextAppends(query, PutNumber(|params|, 2, PutMany(PutParam, params, [])), rest);
  }

  lemma ParamsAppend(params: seq<Param>, rest: bytes)
    ensures PutNumber(|params|, 2, PutMany(PutParam, params, rest)) ==
            PutNumber(|params|, 2, PutMany(PutParam, params, [])) + rest
  {
    hide PutParam, PutNumber;
    forall p, a, b ensures PutParam(p, a + b) == PutParam(p, a) + b {
      ParamAppends(p, a, b);
    }
    Nothing(rest);
    ManyAppends(PutParam, params, [], rest);
    NumberAppends(|params|, 2, PutMany(PutParam, params, []), rest);
  }

  lemma NativeQueryFrom(s: bytes) returns (w: Message)
    requires DecodePayload(0x14, s).Got?
    ensures Writes(w, 0x14, s)
  {
    hide ReadStrict, ReadText, PutText, ReadParams, ReadNativeParam, PutNumber, PutMany, StrictOk, ParamsOk, StripBom, Map;
    StrictFrom(s);
    var s1 := ReadStrict(s).rest;
    var params := NativeParamsFrom(s1);
    w := QueryWithParamsNative(ReadText(s).value, params);
  }

  /** The payloads that are one text. */
  lemma OneTextFrom(kind: byte, s: bytes) returns (w: Message)
    requires kind in {0x03, 0x05, 0x08, 0x0b, 0x20} && DecodePayload(kind, s).Got?
    ensures Writes(w, kind, s)
  {
    hide ReadText, PutText, TextOk;
    TextFrom(s);
    var t, rest := ReadText(s).value, ReadText(s).rest;
    w := if kind == 0x03 then Query(t) else if kind == 0x05 then QuerySql(t) else if kind == 0x08 then ResultScalar(t)
         else if kind == 0x0b then ResultMessage(t) else SyncStatus(t);
    Nothing(rest);
    TextAppends(t, [], rest);
  }

  lemma OneStrictFrom(kind: byte, s: bytes) returns (w: Message)
    requires kind in {0x13, 0x15} && DecodePayload(kind, s).Got?
    ensures Writes(w, kind, s)
  {
    hide ReadText, PutText, ReadStrict, StrictOk, StripBom;
    StrictFrom(s);
    w := if kind == 0x13 then QueryNative(ReadText(s).value) else QuerySqlNative(ReadText(s).value);
  }

  lemma OkFrom(s: bytes) returns (w: Message)
    requires DecodePayload(0x09, s).Got?
    ensures Writes(w, 0x09, s)
  {
    hide ReadNumber, PutNumber;
    RadixValues();
    NumberFrom(s, 8);
    var n, rest := ReadNumber(s, 8).value, ReadNumber(s, 8).rest;
    w := ResultOk(n);
    Nothing(rest);
    NumberAppends(n, 8, [], rest);
  }

  lemma ErrorFrom(s: bytes) returns (w: Message)
    requires ReadError(s).Got?
    ensures Writes(w, 0x0a, s)
  {
    hide ReadText, PutText, TextOk;
    TextFrom(s);
    var t, r := ReadText(s).value, ReadText(s).rest;
    if r == [] {
      w := Error(t, None);
    } else {
      w := Error(t, Some(r[0]));
      assert PutNumber(r[0], 1, []) == [r[0]];
      assert r == [r[0]] + r[1..];
      TextAppends(t, [r[0]], r[1..]);
    }
  }

  lemma ScalarFrom(s: bytes) returns (w: Message)
    requires DecodePayload(0x17, s).Got?
    ensures Writes(w, 0x17, s)
  {
    hide ReadValue, PutValue, ValueOk, CanonValue;
    ValueFrom(s);
    var v :| SpeltBy(PutValue, ReadValue, ValueOk, CanonValue, s, v);
    w := ResultScalarNative(v);
  }

  lemma SyncFrom(kind: byte, s: bytes) returns (w: Message)
    requires kind in {0x21, 0x22} && DecodePayload(kind, s).Got?
    ensures Writes(w, kind, s)
  {
    hide ReadText, PutText, ReadNumber, PutNumber, ReadIdentity, PutIdentity, TextOk, IdentityOk;
    RadixValues();
    TextFrom(s);
    var replica, s1 := ReadText(s).value, ReadText(s).rest;
    NumberFrom(s1, 8);
    var first, s2 := ReadNumber(s1, 8).value, ReadNumber(s1, 8).rest;
    if kind == 0x21 {
      NumberFrom(s2, 4);
      var units, s3 := ReadNumber(s2, 4).value, ReadNumber(s2, 4).rest;
      NumberFrom(s3, 8);
      var size, s4 := ReadNumber(s3, 8).value, ReadNumber(s3, 8).rest;
      IdentityFrom(s4);
      var x, rest := ReadIdentity(s4).value, ReadIdentity(s4).rest;
      w := SyncPull(replica, first, units, size, x);
      Nothing(rest);
      IdentityAppends(x, [], rest);
      NumberAppends(size, 8, PutIdentity(x, []), rest);
      var r2 := PutNumber(size, 8, PutIdentity(x, []));
      NumberAppends(units, 4, r2, rest);
      NumberAppends(first, 8, PutNumber(units, 4, r2), rest);
      TextAppends(replica, PutNumber(first, 8, PutNumber(units, 4, r2)), rest);
    } else {
      NumberFrom(s2, 8);
      var remote, rest := ReadNumber(s2, 8).value, ReadNumber(s2, 8).rest;
      w := SyncAck(replica, first, remote);
      Nothing(rest);
      NumberAppends(remote, 8, [], rest);
      NumberAppends(first, 8, PutNumber(remote, 8, []), rest);
      TextAppends(replica, PutNumber(first, 8, PutNumber(remote, 8, [])), rest);
    }
  }

  lemma StatusResultFrom(s: bytes) returns (w: Message)
    requires DecodePayload(0x23, s).Got?
    ensures Writes(w, 0x23, s)
  {
    hide ReadStatus, PutStatus, StatusOk;
    StatusFrom(s);
    var st, rest := ReadStatus(s).value, ReadStatus(s).rest;
    w := SyncStatusResult(st);
    Nothing(rest);
    StatusAppends(st, [], rest);
  }

  lemma UnitsFrom(n: nat, s: bytes)
    requires ReadMany(ReadUnit, n, s).Got?
    ensures var p := ReadMany(ReadUnit, n, s);
            |p.value| == n && All(UnitOk, p.value) && s == PutMany(PutUnit, p.value, p.rest)
  {
    hide ReadUnit, PutUnit, UnitOk, SpeltBy, ReadMany, PutMany, Map;
    forall t | ReadUnit(t).Got? ensures exists x :: SpeltBy(PutUnit, ReadUnit, UnitOk, Same, t, x) {
      UnitFrom(t);
    }
    var units := ManyFrom(PutUnit, ReadUnit, UnitOk, Same, n, s);
    SameMap(units);
  }

  lemma PullResultFrom(s: bytes) returns (w: Message)
    requires ReadPullResult(s).Got?
    ensures Writes(w, 0x24, s)
  {
    hide ReadStatus, PutStatus, ReadNumber, PutNumber, ReadBool, PutBool, ReadUnit, PutUnit, UnitOk, StatusOk, ReadMany, PutMany;
    RadixValues();
    StatusFrom(s);
    var st, s1 := ReadStatus(s).value, ReadStatus(s).rest;
    NumberFrom(s1, 4);
    var n, s2 := ReadNumber(s1, 4).value, ReadNumber(s1, 4).rest;
    UnitsFrom(n, s2);
    var units, s3 := ReadMany(ReadUnit, n, s2).value, ReadMany(ReadUnit, n, s2).rest;
    BoolFrom(s3);
    var hasMore, rest := ReadBool(s3).value, ReadBool(s3).rest;
    w := SyncPullResult(st, units, hasMore);
    Nothing(rest);
    BoolAppends(hasMore, [], rest);
    forall u, a, b ensures PutUnit(u, a + b) == PutUnit(u, a) + b {
      UnitAppends(u, a, b);
    }
    ManyAppends(PutUnit, units, PutBool(hasMore, []), rest);
    var r1 := PutMany(PutUnit, units, PutBool(hasMore, []));
    NumberAppends(n, 4, r1, rest);
    StatusAppends(st, PutNumber(n, 4, r1), rest);
  }

  lemma AckResultFrom(s: bytes) returns (w: Message)
    requires ReadAckResult(s).Got?
    ensures Writes(w, 0x25, s)
  {
    hide ReadStatus, PutStatus, ReadNumber, PutNumber, ReadBool, PutBool, StatusOk;
    RadixValues();
    NumberFrom(s, 8);
    var previous, s1 := ReadNumber(s, 8).value, ReadNumber(s, 8).rest;
    NumberFrom(s1, 8);
    var applied, s2 := ReadNumber(s1, 8).value, ReadNumber(s1, 8).rest;
    NumberFrom(s2, 8);
    var remote, s3 := ReadNumber(s2, 8).value, ReadNumber(s2, 8).rest;
    BoolFrom(s3);
    var advanced, s4 := ReadBool(s3).value, ReadBool(s3).rest;
    StatusFrom(s4);
    var st, rest := ReadStatus(s4).value, ReadStatus(s4).rest;
    w := SyncAckResult(previous, applied, remote, advanced, st);
    Nothing(rest);
    StatusAppends(st, [], rest);
    BoolAppends(advanced, PutStatus(st, []), rest);
    var r2 := PutBool(advanced, PutStatus(st, []));
    NumberAppends(remote, 8, r2, rest);
    NumberAppends(applied, 8, PutNumber(remote, 8, r2), rest);
    NumberAppends(previous, 8, PutNumber(applied, 8, PutNumber(remote, 8, r2)), rest);
  }

  lemma RowsResultFrom(s: bytes) returns (w: Message)
    requires ReadResultRows(s).Got?
    ensures Writes(w, 0x07, s) && Even(w)
  {
    hide ReadColumns, ReadRows, PutMany, PutNumber, ReadText, PutText, Flat, Regroup, Map, TextOk, Spelt;
    TextsSpelt();
    var columns := ColumnsFrom(ReadText, TextOk, Same, s);
    SameMap(columns);
    var s1 := ReadColumns(ReadText, s).rest;
    var rows := RowsFrom(PutText, PutTexts, ReadText, TextOk, Same, 4, |columns|, s1);
    SameRowsToo(rows);
    var rest := ReadRows(ReadText, |columns|, 4, s1).rest;
    w := ResultRows(columns, rows);
    RegroupFlat(rows, |columns|);
    RowsAppend(rows, rest);
    var body := PutNumber(|rows|, 4, PutMany(PutTexts, rows, []));
    TextsAppend(columns, body, rest);
    NumberAppends(|columns|, 2, PutMany(PutText, columns, body), rest);
  }

  lemma SameRowsToo(rows: seq<seq<bytes>>)
    ensures Map((row: seq<bytes>) => Map(Same, row), rows) == rows
  {
    forall i | 0 <= i < |rows| ensures Map((row: seq<bytes>) => Map(Same, row), rows)[i] == rows[i] {
      SameMap(rows[i]);
    }
  }

  lemma RowsAppend(rows: seq<seq<bytes>>, rest: bytes)
    ensures PutNumber(|rows|, 4, PutMany(PutTexts, rows, rest)) == PutNumber(|rows|, 4, PutMany(PutTexts, rows, [])) + rest
  {
    hide PutNumber, PutMany;
    forall row, a, b ensures PutTexts(row, a + b) == PutTexts(row, a) + b {
      TextsAppend(row, a, b);
    }
    Nothing(rest);
    ManyAppends(PutTexts, rows, [], rest);
    NumberAppends(|rows|, 4, PutMany(PutTexts, rows, []), rest);
  }

  lemma NativeRowsFrom(s: bytes) returns (w: Message)
    requires DecodePayload(0x16, s).Got?
    ensures Writes(w, 0x16, s) && Even(w)
  {
    hide ReadColumns, ReadRows, PutMany, PutNumber, ReadValue, PutValue, ReadStrict, Flat, Regroup, Map, ValueOk, StrictOk,
         CanonValue, StripBom, Spelt, SpeltBy;
    TextsSpelt();
    var columns := ColumnsFrom(ReadStrict, StrictOk, StripBom, s);
    var s1 := ReadColumns(ReadStrict, s).rest;
    ValuesSpelt();
    var rows := RowsFrom(PutValue, PutValues, ReadValue, ValueOk, CanonValue, 5, |columns|, s1);
    w := ResultRowsNative(columns, rows);
    RegroupFlat(rows, |columns|);
  }

  lemma ValuesSpelt()
    ensures Spelt(PutValue, ReadValue, ValueOk, CanonValue)
  {
    hide ReadValue, PutValue, ValueOk, CanonValue, SpeltBy;
    forall t | ReadValue(t).Got? ensures exists x :: SpeltBy(PutValue, ReadValue, ValueOk, CanonValue, t, x) {
      ValueFrom(t);
    }
  }

  lemma EmptyFrom(kind: byte, s: bytes) returns (w: Message)
    requires kind in {0x10, 0x11, 0x12}
    ensures Writes(w, kind, s)
  {
    w := if kind == 0x10 then Disconnect else if kind == 0x11 then Ping else Pong;
  }

  lemma EvenFrom(kind: byte, s: bytes) returns (w: Message)
    requires DecodePayload(kind, s).Got? && !Tolerated(kind, s)
    ensures Writes(w, kind, s) && (kind == 0x07 || kind == 0x16 ==> Even(w))
  {
    hide Writes, Tolerated, Even;
    match kind {
      case 0x01 => w := ConnectFrom(s);
      case 0x02 => w := ConnectOkFrom(s);
      case 0x04 => w := QueryFrom(s);
      case 0x07 => w := RowsResultFrom(s);
      case 0x09 => w := OkFrom(s);
      case 0x0a => w := ErrorFrom(s);
      case 0x14 => w := NativeQueryFrom(s);
      case 0x16 => w := NativeRowsFrom(s);
      case 0x17 => w := ScalarFrom(s);
      case 0x23 => w := StatusResultFrom(s);
      case 0x24 => w := PullResultFrom(s);
      case 0x25 => w := AckResultFrom(s);
      case _ =>
        if kind in {0x03, 0x05, 0x08, 0x0b, 0x20} {
          w := OneTextFrom(kind, s);
        } else if kind in {0x13, 0x15} {
          w := OneStrictFrom(kind, s);
        } else if kind in {0x21, 0x22} {
          w := SyncFrom(kind, s);
        } else {
          w := EmptyFrom(kind, s);
        }
    }
  }

  lemma EvenElsewhere(w: Message)
    requires Kind(w) != 0x07 && Kind(w) != 0x16
    ensures Even(w)
  {
  }

  /**
   Every payload a decoder accepts, apart from the two tolerated spellings, has the bytes of some
   message that arrives as what was read. Where the format refuses trailing bytes it is exactly that
   payload; elsewhere it may have bytes after it. An encoder could be given that message if and only if
   it could be given what was read.
   */
  lemma WhatDecodesWasEncoded(kind: byte, s: bytes, floats: Floats) returns (w: Message)
    requires DecodePayload(kind, s).Got? && !Tolerated(kind, s)
    ensures Writes(w, kind, s)
    ensures Sayable(w, floats) <==> Sayable(DecodePayload(kind, s).value, floats)
  {
    hide DecodePayload, Tolerated, Payload, Encodable, Canon, Sayable, Even;
    w := EvenFrom(kind, s);
    if kind != 0x07 && kind != 0x16 {
      EvenElsewhere(w);
    }
    if Sayable(w, floats) {
      SayableArrives(w, floats);
    }
    if Sayable(Canon(w), floats) {
      SayableBack(w, floats);
    }
  }

  lemma TightParamBack(p: Param, rest: bytes)
    requires ParamOk(p)
    ensures ReadTightParam(PutParam(p, rest)) == Got(p, rest)
  {
    hide ReadParam, ParamOk;
    ParamBack(p, rest);
    if p.BoolParam? {
      assert LE(3, 1) == [3] && LE(if p.b then 1 else 0, 1) == [if p.b then 1 else 0];
    }
    assert TightParam(PutParam(p, rest));
  }

  lemma TightQueryBack(query: bytes, params: seq<Param>, x: bytes)
    requires TextOk(query) && ParamsOk(params, false)
    ensures ReadQuery(ReadTightParam, ReadText, false, PutQuery(query, params) + x).Got?
  {
    hide ReadText, PutText, ReadNumber, PutNumber, ReadTightParam, PutParam, ParamOk, TextOk, ReadMany, PutMany, Map;
    RadixValues();
    var more := PutNumber(|params|, 2, PutMany(PutParam, params, x));
    ParamsAppend(params, x);
    TextAppends(query, PutNumber(|params|, 2, PutMany(PutParam, params, [])), x);
    TextBack(query, more);
    NumberBack(|params|, 2, PutMany(PutParam, params, x));
    forall i, r | 0 <= i < |params| ensures ReadTightParam(PutParam(params[i], r)) == Got(Same(params[i]), r) {
      TightParamBack(params[i], r);
    }
    assert Reads(PutParam, ReadTightParam, (_: Param) => true, Same, params);
    ManyBack(PutParam, ReadTightParam, (_: Param) => true, Same, params, x);
  }

  /** The tolerated spellings really are no message's payload. */
  lemma ToleratedIsNotWritten(kind: byte, s: bytes, w: Message)
    requires Tolerated(kind, s)
    ensures !Writes(w, kind, s)
  {
    hide ReadText, PutText, ReadQuery, PutQuery, ReadTightParam, DecodePayload, Canon, ParamsOk;
    if Encodable(w) && Kind(w) == kind && Payload(w) <= s {
      var x := s[|Payload(w)|..];
      assert s == Payload(w) + x;
      if kind == 0x01 {
        var more := PutText(OrEmpty(w.password), PutConnectTail(w));
        TextAppends(w.db, more, x);
        TextBack(w.db, more + x);
      } else {
        TightQueryBack(w.query, w.params, x);
      }
    }
  }

  /**
   An encoder can have written a payload, with perhaps ignored bytes after it, if and only if it decodes
   to something sayable and is not a tolerated spelling.
   */
  lemma WrittenUnlessTolerated(kind: byte, s: bytes, floats: Floats)
    ensures (exists w :: Writes(w, kind, s) && Sayable(w, floats)) <==>
            var p := DecodePayload(kind, s);
            p.Got? && !Tolerated(kind, s) && Sayable(p.value, floats)
  {
    hide DecodePayload, Tolerated, Payload, Encodable, Canon, Sayable;
    if DecodePayload(kind, s).Got? && !Tolerated(kind, s) && Sayable(DecodePayload(kind, s).value, floats) {
      var w := WhatDecodesWasEncoded(kind, s, floats);
    }
    forall w | Writes(w, kind, s) && Sayable(w, floats)
      ensures !Tolerated(kind, s) && Sayable(DecodePayload(kind, s).value, floats)
    {
      if Tolerated(kind, s) {
        ToleratedIsNotWritten(kind, s, w);
      }
      SayableArrives(w, floats);
    }
  }

  /** A query whose one byte is not UTF-8 is accepted, and no encoder writes it. */
  lemma IllFormedTextIsAccepted(floats: Floats)
    ensures var s: bytes := [1, 0, 0, 0, 0xFF];
            && DecodePayload(0x03, s) == Got(Query([0xFF]), []) && !Tolerated(0x03, s)
            && !exists w :: Writes(w, 0x03, s) && Sayable(w, floats)
  {
    hide ReadText, Pj1.Utf8, Writes, ReadQuery;
    IllFormedText();
    WrittenUnlessTolerated(0x03, [1, 0, 0, 0, 0xFF], floats);
  }

  lemma IllFormedText()
    ensures ReadText([1, 0, 0, 0, 0xFF]) == Got([0xFF], []) && !Pj1.Utf8([0xFF])
  {
    var s: bytes := [1, 0, 0, 0, 0xFF];
    assert PutText([0xFF], []) == s by {
      assert LE(1, 4) == [1] + LE(0, 3) && LE(0, 3) == [0] + LE(0, 2) && LE(0, 2) == [0] + LE(0, 1);
      assert LE(0, 1) == [0];
    }
    hide PutText, ReadText, LE;
    TextBack([0xFF], []);
  }

  /**
   The same for a whole frame. The bytes a decoded frame takes are its header and that payload, and they
   are the frame the encoder makes if and only if the unused flags byte is zero and nothing ignored
   follows the payload.
   */
  lemma DecodedFrameWasWritten(buf: bytes, floats: Floats) returns (w: Message)
    requires TryDecode(buf).Decoded? && !Tolerated(buf[0], buf[6..TryDecode(buf).consumed])
    ensures var d := TryDecode(buf);
            && d.message == Canon(w) && Writes(w, buf[0], buf[6..d.consumed])
            && (Sayable(w, floats) <==> Sayable(d.message, floats))
            && d.consumed == 6 + FromLE(buf[2..6])
            && (buf[..d.consumed] == Frame(w) <==> buf[1] == 0 && |Payload(w)| == d.consumed - 6)
  {
    hide DecodePayload, Tolerated, Payload, Encodable, Canon, Sayable;
    var n := TryDecode(buf).consumed;
    w := WhatDecodesWasEncoded(buf[0], buf[6..n], floats);
    FrameBytes(buf, n, w);
  }

  lemma FrameBytes(buf: bytes, n: nat, w: Message)
    requires 6 <= n <= |buf| && n == 6 + FromLE(buf[2..6]) && Kind(w) == buf[0] && Payload(w) <= buf[6..n]
    ensures buf[..n] == Frame(w) <==> buf[1] == 0 && |Payload(w)| == n - 6
  {
    hide Payload, Kind, LE, FromLE;
    LEOfFromLE(buf[2..6]);
    var p := Payload(w);
    if buf[1] == 0 && |p| == n - 6 {
      assert p == buf[6..n];
      assert buf[..n] == [buf[0], buf[1]] + buf[2..6] + buf[6..n];
    }
    if buf[..n] == Frame(w) {
      assert |Frame(w)| == 6 + |p|;
      assert Frame(w)[1] == 0;
    }
  }
}
