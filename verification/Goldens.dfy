/** Byte strings the repository's own tests hold fixed, as the encoders here write them. */
module Goldens {
  import opened Bytes
  import opened Wrappers
  import opened WireSpec
  import opened WireRoundTrip
  import Pj1

  lemma LE4(n: nat)
    requires n < 256
    ensures LE(n, 4) == [n, 0, 0, 0]
  {
    assert LE(n, 4) == [n % 256] + LE(n / 256, 3);
    assert LE(0, 3) == [0] + LE(0, 2) && LE(0, 2) == [0] + LE(0, 1) && LE(0, 1) == [0] + LE(0, 0);
  }

  lemma LE2(n: nat)
    requires n < 256
    ensures LE(n, 2) == [n, 0]
  {
    assert LE(n, 2) == [n % 256] + LE(n / 256, 1);
    assert LE(0, 1) == [0] + LE(0, 0);
  }

  // ---------- the handshake ----------

  const MYDB: bytes := [0x6D, 0x79, 0x64, 0x62]
  const PW: bytes := [0x70, 0x77]
  const ALICE: bytes := [0x61, 0x6C, 0x69, 0x63, 0x65]
  const PARAMS: bytes := [0x70, 0x61, 0x72, 0x61, 0x6D, 0x73]
  const SQL: bytes := [0x73, 0x71, 0x6C]

  lemma Prefixed(t: bytes, rest: bytes)
    requires |t| < 256
    ensures PutText(t, rest) == [|t|, 0, 0, 0] + t + rest
  {
    LE4(|t|);
  }

  /** The rows frame older clients read, field by field. */
  lemma LegacyRows()
    ensures Frame(ResultRows([[0x78]], [[[0x79]]])) ==
            [0x07, 0x00, 0x10, 0x00, 0x00, 0x00]
            + ([1, 0] + ([1, 0, 0, 0] + [0x78] + ([1, 0, 0, 0] + ([1, 0, 0, 0] + [0x79] + []))))
  {
    hide LE, PutText, PutMany;
    LE4(1);
    LE4(16);
    LE2(1);
    var cell := PutText([0x79], []);
    Prefixed([0x79], []);
    OnePut(PutText, [0x79], []);
    OnePut(PutTexts, [[0x79]], []);
    var tail := PutNumber(1, 4, cell);
    OnePut(PutText, [0x78], tail);
    Prefixed([0x78], tail);
  }

  lemma OnePut<T(!new)>(put: (T, bytes) -> bytes, x: T, rest: bytes)
    ensures PutMany(put, [x], rest) == put(x, rest)
  {
    assert [x][1..] == [];
  }

  lemma FeatureBytes()
    ensures PutFeatures([PARAMS, SQL], []) ==
            [2, 0] + ([6, 0, 0, 0] + PARAMS + ([3, 0, 0, 0] + SQL + []))
  {
    hide LE;
    LE2(2);
    Prefixed(SQL, []);
    Prefixed(PARAMS, PutText(SQL, []));
    assert [PARAMS, SQL][1..] == [SQL] && [SQL][1..] == [];
    assert PutMany(PutText, [SQL], []) == PutText(SQL, []);
    assert PutMany(PutText, [PARAMS, SQL], []) == PutText(PARAMS, PutText(SQL, []));
  }

  lemma MagicBytes()
    ensures LE(HELLO_MAGIC, 4) == [0x31, 0x48, 0x57, 0x50]
  {
    assert LE(0x5057_4831, 4) == [0x31] + LE(0x50_5748, 3) && LE(0x50_5748, 3) == [0x48] + LE(0x5057, 2);
    assert LE(0x5057, 2) == [0x57] + LE(0x50, 1) && LE(0x50, 1) == [0x50] + LE(0, 0);
  }

  lemma HelloBytes()
    ensures PutHello(Hello([1, 2, 7], [PARAMS, SQL]), []) ==
            [0x31, 0x48, 0x57, 0x50, 1, 0, 2, 0, 7, 0] + PutFeatures([PARAMS, SQL], [])
  {
    hide LE, PutFeatures;
    MagicBytes();
    LE2(1);
    LE2(2);
    LE2(7);
    var more := PutFeatures([PARAMS, SQL], []);
    assert [1, 2, 7][1..] == [2, 7] && [2, 7][1..] == [7] && [7][1..] == [];
    assert PutMany(PutU16, [7], more) == [7, 0] + more;
    assert PutMany(PutU16, [2, 7], more) == [2, 0] + ([7, 0] + more);
    assert PutMany(PutU16, [1, 2, 7], more) == [1, 0] + ([2, 0] + ([7, 0] + more));
  }

  /** The frame `connect_hello_full`, field by field. */
  lemma ConnectHelloFull()
    ensures Frame(Connect(MYDB, Some(PW), Some(ALICE), Some(Hello([1, 2, 7], [PARAMS, SQL])))) ==
            [0x01, 0x00, 0x34, 0x00, 0x00, 0x00]
            + ([4, 0, 0, 0] + MYDB + ([2, 0, 0, 0] + PW + ([5, 0, 0, 0] + ALICE
            + ([0x31, 0x48, 0x57, 0x50, 1, 0, 2, 0, 7, 0] + ([2, 0] + ([6, 0, 0, 0] + PARAMS + ([3, 0, 0, 0] + SQL + [])))))))
  {
    hide LE, PutHello, PutFeatures, PutText;
    LE4(0x34);
    FeatureBytes();
    HelloBytes();
    var hello := PutHello(Hello([1, 2, 7], [PARAMS, SQL]), []);
    Prefixed(ALICE, hello);
    Prefixed(PW, PutText(ALICE, hello));
    Prefixed(MYDB, PutText(PW, PutText(ALICE, hello)));
  }

  // ---------- typed values ----------

  lemma Horner(s: bytes)
    requires |s| == 8
    ensures FromLE(s) == s[0] as int + 256 * (s[1] as int + 256 * (s[2] as int + 256 * (s[3] as int + 256 * (s[4] as int
                         + 256 * (s[5] as int + 256 * (s[6] as int + 256 * (s[7] as int)))))))
  {
    Step(s, 0);
    Step(s, 1);
    Step(s, 2);
    Step(s, 3);
    Step(s, 4);
    Step(s, 5);
    Step(s, 6);
    Step(s, 7);
    assert s[0..] == s && s[8..] == [];
  }

  lemma Step(s: bytes, i: nat)
    requires i < |s|
    ensures FromLE(s[i..]) == s[i] as int + 256 * FromLE(s[i + 1..])
  {
    assert s[i..][1..] == s[i + 1..];
  }

  lemma EightBytes(n: nat, s: bytes)
    requires |s| == 8
    requires n == s[0] as int + 256 * (s[1] as int + 256 * (s[2] as int + 256 * (s[3] as int + 256 * (s[4] as int
                  + 256 * (s[5] as int + 256 * (s[6] as int + 256 * (s[7] as int)))))))
    ensures LE(n, 8) == s
  {
    Horner(s);
    LEOfFromLE(s);
  }

  lemma Cell(v: Value, rest: bytes)
    requires |ValueBody(v)| < 256
    ensures PutValue(v, rest) == [ValueTag(v), |ValueBody(v)|, 0, 0, 0] + ValueBody(v) + rest
  {
    hide ValueBody;
    Prefixed(ValueBody(v), rest);
    assert LE(ValueTag(v), 1) == [ValueTag(v)];
  }

  /** The cells of the native row every client must read alike, one of each type: the numbers. */
  lemma NativeNumbers(rest: bytes)
    ensures PutValue(Int(-9007199254740993), rest) ==
            [0x01, 8, 0, 0, 0] + [0xFF, 0xFF, 0xFF, 0xFF, 0xFF, 0xFF, 0xDF, 0xFF] + rest
    ensures PutValue(Float([0, 0, 0, 0, 0, 0, 0x04, 0x40]), rest) == [0x02, 8, 0, 0, 0] + [0, 0, 0, 0, 0, 0, 0x04, 0x40] + rest
    ensures PutValue(DateTime(1723650123456789), rest) ==
            [0x05, 8, 0, 0, 0] + [0x15, 0x61, 0x53, 0x91, 0xA6, 0x1F, 0x06, 0x00] + rest
  {
    hide LE, PutText, PutNumber, PutValue;
    EightBytes(Unsigned(-9007199254740993), [0xFF, 0xFF, 0xFF, 0xFF, 0xFF, 0xFF, 0xDF, 0xFF]);
    EightBytes(Unsigned(1723650123456789), [0x15, 0x61, 0x53, 0x91, 0xA6, 0x1F, 0x06, 0x00]);
    Cell(Int(-9007199254740993), rest);
    Cell(Float([0, 0, 0, 0, 0, 0, 0x04, 0x40]), rest);
    Cell(DateTime(1723650123456789), rest);
  }

  /** And the others. */
  lemma NativeOthers(id: bytes, rest: bytes)
    requires |id| == 16
    ensures PutValue(Empty, rest) == [0x00, 0, 0, 0, 0] + [] + rest
    ensures PutValue(Bool(true), rest) == [0x03, 1, 0, 0, 0] + [1] + rest
    ensures PutValue(Str([0x68, 0xC3, 0xA9, 0x6C, 0x6C, 0x6F]), rest) ==
            [0x04, 6, 0, 0, 0] + [0x68, 0xC3, 0xA9, 0x6C, 0x6C, 0x6F] + rest
    ensures PutValue(Uuid(id), rest) == [0x06, 16, 0, 0, 0] + id + rest
    ensures PutValue(Blob([0x00, 0x7F, 0x80, 0xFF]), rest) == [0x07, 4, 0, 0, 0] + [0x00, 0x7F, 0x80, 0xFF] + rest
    ensures PutValue(Json(BIG), rest) == [0x08, 9, 0, 0, 0] + BIG + rest
  {
    hide LE, PutText, PutNumber, PutValue;
    Cell(Empty, rest);
    Cell(Bool(true), rest);
    Cell(Str([0x68, 0xC3, 0xA9, 0x6C, 0x6C, 0x6F]), rest);
    Cell(Uuid(id), rest);
    Cell(Blob([0x00, 0x7F, 0x80, 0xFF]), rest);
    Cell(Json(BIG), rest);
  }

  // ---------- a document ----------

  const BIG: bytes := [3, 1, 0, 0, 0, 0, 0, 0x20, 0]

  lemma BigInt()
    ensures Pj1.Encode(Pj1.Int(9007199254740993)) == BIG
  {
    EightBytes(Unsigned(9007199254740993), [1, 0, 0, 0, 0, 0, 0x20, 0]);
  }

  lemma OneItem(item: bytes)
    requires |item| < 200
    ensures Pj1.ArrayBytes([item]) == [6, 1, 0, 0, 0, 13, 0, 0, 0, 13 + |item|, 0, 0, 0] + item
  {
    hide LE;
    LE4(1);
    LE4(13);
    LE4(13 + |item|);
    var items := [item];
    assert items[..0] == [] && items[..1] == items;
    assert Pj1.Flatten(items) == item;
    assert Pj1.Len(items, 0) == 0 && Pj1.Len(items, 1) == |item|;
    var table := Pj1.ArrayTable(items);
    assert table == [1, 13, 13 + |item|];
    assert table[1..] == [13, 13 + |item|] && table[1..][1..] == [13 + |item|] && [13 + |item|][1..] == [];
    assert Pj1.U32s([13 + |item|]) == LE(13 + |item|, 4);
    assert Pj1.U32s([13, 13 + |item|]) == LE(13, 4) + LE(13 + |item|, 4);
    assert Pj1.U32s(table) == LE(1, 4) + (LE(13, 4) + LE(13 + |item|, 4));
  }

  lemma FieldTable(key: bytes, value: bytes)
    ensures Pj1.ObjectTable([key], [value]) == [1, 17, 17 + |key|, 17 + |key| + |value|]
    ensures Pj1.Flatten([key]) == key && Pj1.Flatten([value]) == value
  {
    hide LE;
    var keys, values := [key], [value];
    assert keys[..0] == [] && keys[..1] == keys && values[..0] == [] && values[..1] == values;
    assert Pj1.Flatten(keys) == key && Pj1.Flatten(values) == value;
    assert Pj1.Len(keys, 0) == 0 && Pj1.Len(values, 0) == 0 && Pj1.Len(values, 1) == |value|;
  }

  lemma FourNumbers(a: nat, b: nat, c: nat, d: nat)
    requires a < 256 && b < 256 && c < 256 && d < 256
    ensures Pj1.U32s([a, b, c, d]) == [a, 0, 0, 0] + ([b, 0, 0, 0] + ([c, 0, 0, 0] + ([d, 0, 0, 0] + [])))
  {
    hide LE;
    LE4(a);
    LE4(b);
    LE4(c);
    LE4(d);
    assert [a, b, c, d][1..] == [b, c, d] && [b, c, d][1..] == [c, d] && [c, d][1..] == [d] && [d][1..] == [];
    assert Pj1.U32s([c, d]) == LE(c, 4) + (LE(d, 4) + []);
  }

  lemma OneField(key: bytes, value: bytes)
    requires |key| + |value| < 200
    ensures var a, b := 17 + |key|, 17 + |key| + |value|;
            Pj1.ObjectBytes([key], [value]) ==
            [7] + ([1, 0, 0, 0] + ([17, 0, 0, 0] + ([a, 0, 0, 0] + ([b, 0, 0, 0] + [])))) + (key + value)
  {
    hide LE, Pj1.U32s, Pj1.ObjectTable, Pj1.Flatten;
    FieldTable(key, value);
    FourNumbers(1, 17, 17 + |key|, 17 + |key| + |value|);
  }

  lemma OneKey(key: bytes, value: Pj1.Doc)
    requires Pj1.Representable(value) && |key| < 256
    ensures Pj1.Encode(Pj1.Obj([key], [value])) == Pj1.ObjectBytes([[|key|, 0, 0, 0] + key], [Pj1.Encode(value)])
  {
    hide LE, Pj1.ObjectBytes;
    LE4(|key|);
    assert Pj1.Texts([key]) == [Pj1.Text(key)];
    assert Pj1.Encodings([value]) == [Pj1.Encode(value)];
  }

  lemma BigList()
    ensures Pj1.Encode(Pj1.Arr([Pj1.Int(9007199254740993)])) == [6, 1, 0, 0, 0, 13, 0, 0, 0, 22, 0, 0, 0] + BIG
  {
    hide LE, Pj1.ArrayBytes;
    BigInt();
    assert Pj1.Encodings([Pj1.Int(9007199254740993)]) == [BIG];
    OneItem(BIG);
  }

  /** The document `{"a": [9007199254740993]}`, field by field. */
  lemma NestedDocument()
    ensures Pj1.Encode(Pj1.Obj([[0x61]], [Pj1.Arr([Pj1.Int(9007199254740993)])])) ==
            [0x07] + ([1, 0, 0, 0] + ([0x11, 0, 0, 0] + ([0x16, 0, 0, 0] + ([0x2C, 0, 0, 0] + []))))
            + (([1, 0, 0, 0] + [0x61]) + ([6, 1, 0, 0, 0, 13, 0, 0, 0, 22, 0, 0, 0] + BIG))
  {
    hide LE, Pj1.ObjectBytes, Pj1.Encode;
    BigList();
    OneKey([0x61], Pj1.Arr([Pj1.Int(9007199254740993)]));
    OneField([1, 0, 0, 0] + [0x61], [6, 1, 0, 0, 0, 13, 0, 0, 0, 22, 0, 0, 0] + BIG);
  }
}
