/**
 PJ1, the canonical binary JSON carried inside typed values. `Encode` is the layout the decoder's
 checks describe. At any place in a byte string there is at most one well-formed document.
 */
module Pj1 {
  import opened Bytes

  const MAX_DEPTH := 128

  /**
   A document with its node tags kept apart; texts and keys are their UTF-8 bytes, and an object's
   `keys[i]` names `values[i]`.
   */
  datatype Doc =
    | Null
    | False
    | True
    | Int(value: int)
    | Float(bits: bytes)
    | Str(text: bytes)
    | Arr(items: seq<Doc>)
    | Obj(keys: seq<bytes>, values: seq<Doc>)

  // ---------- text and numbers ----------

  predicate Continuation(b: byte) {
    0x80 <= b <= 0xBF
  }

  /** Length of the well-formed UTF-8 sequence at the front of `s`, or zero. */
  function SequenceLength(s: bytes): (n: nat)
    requires s != []
    ensures n <= 4 && n <= |s|
  {
    var b := s[0];
    if b <= 0x7F then 1
    else if 0xC2 <= b <= 0xDF && |s| >= 2 && Continuation(s[1]) then 2
    else if 0xE0 <= b <= 0xEF && |s| >= 3 && Continuation(s[1]) && Continuation(s[2]) &&
            (b == 0xE0 ==> s[1] >= 0xA0) && (b == 0xED ==> s[1] <= 0x9F) then 3
    else if 0xF0 <= b <= 0xF4 && |s| >= 4 && Continuation(s[1]) && Continuation(s[2]) && Continuation(s[3]) &&
            (b == 0xF0 ==> s[1] >= 0x90) && (b == 0xF4 ==> s[1] <= 0x8F) then 4
    else 0
  }

  predicate Utf8(s: bytes)
    decreases |s|
  {
    s == [] || (SequenceLength(s) > 0 && Utf8(s[SequenceLength(s)..]))
  }

  /** Eight bytes of an IEEE double that is neither infinite nor NaN. */
  predicate Finite(bits: bytes) {
    |bits| == 8 && !(bits[7] % 128 == 127 && bits[6] >= 240)
  }

  /** Byte strings in the order keys must have. */
  predicate Less(a: bytes, b: bytes)
    decreases |a|
  {
    b != [] && (a == [] || a[0] < b[0] || (a[0] == b[0] && Less(a[1..], b[1..])))
  }

  // ---------- the layout ----------

  function U32s(values: seq<nat>): (s: bytes)
    ensures |s| == 4 * |values|
  {
    if values == [] then [] else LE(values[0], 4) + U32s(values[1..])
  }

  function Flatten(parts: seq<bytes>): bytes {
    if parts == [] then [] else Flatten(parts[..|parts| - 1]) + parts[|parts| - 1]
  }

  /** Total length of the first `i` parts. */
  function Len(parts: seq<bytes>, i: nat): nat
    requires i <= |parts|
  {
    |Flatten(parts[..i])|
  }

  /** Where a container's first part starts, counted from its tag. */
  function ArrayHeader(n: nat): nat {
    5 + 4 * (n + 1)
  }

  function ObjectHeader(n: nat): nat {
    5 + 8 * n + 4
  }

  function ItemOffset(items: seq<bytes>, i: nat): nat
    requires i <= |items|
  {
    ArrayHeader(|items|) + Len(items, i)
  }

  function KeyOffset(keys: seq<bytes>, i: nat): nat
    requires i <= |keys|
  {
    ObjectHeader(|keys|) + Len(keys, i)
  }

  /** All values come after all keys. */
  function ValueOffset(keys: seq<bytes>, values: seq<bytes>, i: nat): nat
    requires i <= |values|
  {
    ObjectHeader(|keys|) + |Flatten(keys)| + Len(values, i)
  }

  /** Element count, then where each element starts, then where the last one ends. */
  function ArrayTable(items: seq<bytes>): seq<nat> {
    [|items|] + seq(|items| + 1, i requires 0 <= i <= |items| => ItemOffset(items, i))
  }

  /** Field count, then key and value offsets in pairs, then the end. */
  function ObjectTable(keys: seq<bytes>, values: seq<bytes>): seq<nat>
    requires |keys| == |values|
  {
    [|keys|]
    + seq(2 * |keys|, j requires 0 <= j < 2 * |keys| =>
        if j % 2 == 0 then KeyOffset(keys, j / 2) else ValueOffset(keys, values, j / 2))
    + [ValueOffset(keys, values, |values|)]
  }

  function Tagged(tag: byte, table: seq<nat>, body: bytes): (s: bytes)
    ensures |s| == 1 + 4 * |table| + |body|
  {
    [tag] + U32s(table) + body
  }

  function ArrayBytes(items: seq<bytes>): bytes {
    Tagged(6, ArrayTable(items), Flatten(items))
  }

  function ObjectBytes(keys: seq<bytes>, values: seq<bytes>): bytes
    requires |keys| == |values|
  {
    Tagged(7, ObjectTable(keys, values), Flatten(keys) + Flatten(values))
  }

  function Text(s: bytes): bytes {
    LE(|s|, 4) + s
  }

  function Encode(t: Doc): (s: bytes)
    requires Representable(t)
    decreases t
  {
    match t
    case Null => [0]
    case False => [1]
    case True => [2]
    case Int(value) => [3] + LE(Unsigned(value), 8)
    case Float(bits) => [4] + bits
    case Str(text) => [5] + Text(text)
    case Arr(items) => ArrayBytes(Encodings(items))
    case Obj(keys, values) => ObjectBytes(Texts(keys), Encodings(values))
  }

  /** Integers fit in 64 bits and every key has a value: what can be written down at all. */
  predicate Representable(t: Doc)
    decreases t
  {
    match t
    case Int(value) => I64(value)
    case Arr(items) => forall i :: 0 <= i < |items| ==> Representable(items[i])
    case Obj(keys, values) => |keys| == |values| && forall i :: 0 <= i < |values| ==> Representable(values[i])
    case _ => true
  }

  function Encodings(items: seq<Doc>): (parts: seq<bytes>)
    requires forall i :: 0 <= i < |items| ==> Representable(items[i])
    ensures |parts| == |items|
    decreases items, 0
  {
    seq(|items|, i requires 0 <= i < |items| => Encode(items[i]))
  }

  function Texts(keys: seq<bytes>): (parts: seq<bytes>)
    ensures |parts| == |keys|
  {
    seq(|keys|, i requires 0 <= i < |keys| => Text(keys[i]))
  }

  /** Keys are UTF-8 and strictly ascending. */
  predicate GoodKeys(keys: seq<bytes>) {
    && (forall i :: 0 <= i < |keys| ==> Utf8(keys[i]))
    && (forall i :: 0 < i < |keys| ==> Less(keys[i - 1], keys[i]))
  }

  /** The documents that exist on the wire, for a node at `depth`. */
  predicate WellFormed(t: Doc, depth: nat)
    decreases t
  {
    && depth <= MAX_DEPTH
    && Representable(t)
    && match t
       case Float(bits) => Finite(bits)
       case Str(text) => Utf8(text) && |text| < U32_LIMIT
       case Arr(items) =>
         && (forall i :: 0 <= i < |items| ==> WellFormed(items[i], depth + 1))
         && |Encode(t)| < U32_LIMIT
       case Obj(keys, values) =>
         && (forall i :: 0 <= i < |values| ==> WellFormed(values[i], depth + 1))
         && GoodKeys(keys)
         && |Encode(t)| < U32_LIMIT
       case _ => true
  }

  // ---------- reading the layout back ----------

  function U32At(doc: bytes, pos: nat): (n: nat)
    requires pos + 4 <= |doc|
    ensures n < U32_LIMIT
  {
    RadixValues();
    FromLE(doc[pos..pos + 4])
  }

  /** `s` occurs in `doc` at `pos`. */
  predicate Occurs(doc: bytes, pos: nat, s: bytes) {
    pos + |s| <= |doc| && doc[pos..pos + |s|] == s
  }

  lemma OccursConcat(doc: bytes, pos: nat, a: bytes, b: bytes)
    ensures Occurs(doc, pos, a + b) <==> Occurs(doc, pos, a) && Occurs(doc, pos + |a|, b)
  {
    if pos + |a| + |b| <= |doc| {
      var whole, left, right := doc[pos..pos + |a + b|], doc[pos..pos + |a|], doc[pos + |a|..pos + |a| + |b|];
      assert whole == left + right;
      if whole == a + b {
        assert left == whole[..|a|] == a;
        assert right == whole[|a|..] == b;
      }
    }
  }

  lemma U32Occurs(doc: bytes, pos: nat, n: nat)
    requires n < U32_LIMIT && pos + 4 <= |doc|
    ensures Occurs(doc, pos, LE(n, 4)) <==> U32At(doc, pos) == n
  {
    RadixValues();
    LERoundTrip(n, 4);
    LEOfFromLE(doc[pos..pos + 4]);
  }

  lemma TableAtCons(doc: bytes, pos: nat, values: seq<nat>)
    requires values != []
    ensures TableAt(doc, pos, values) <==>
            pos + 4 <= |doc| && U32At(doc, pos) == values[0] && TableAt(doc, pos + 4, values[1..])
  {
    hide U32At;
    var rest := values[1..];
    if TableAt(doc, pos, values) {
      assert U32At(doc, pos + 4 * 0) == values[0];
      forall i | 0 <= i < |rest| ensures U32At(doc, pos + 4 + 4 * i) == rest[i] {
        assert U32At(doc, pos + 4 * (i + 1)) == values[i + 1];
      }
    }
    if pos + 4 <= |doc| && U32At(doc, pos) == values[0] && TableAt(doc, pos + 4, rest) {
      forall i | 0 <= i < |values| ensures U32At(doc, pos + 4 * i) == values[i] {
        if i > 0 {
          assert U32At(doc, pos + 4 + 4 * (i - 1)) == rest[i - 1];
        }
      }
    }
  }

  lemma {:induction false} TableOccurs(doc: bytes, pos: nat, values: seq<nat>)
    requires forall i :: 0 <= i < |values| ==> values[i] < U32_LIMIT
    ensures Occurs(doc, pos, U32s(values)) <==> TableAt(doc, pos, values)
    decreases values
  {
    if values == [] {
      assert pos <= |doc| ==> doc[pos..pos] == [];
    } else {
      OccursConcat(doc, pos, LE(values[0], 4), U32s(values[1..]));
      TableOccurs(doc, pos + 4, values[1..]);
      TableAtCons(doc, pos, values);
      if pos + 4 <= |doc| {
        U32Occurs(doc, pos, values[0]);
      }
    }
  }

  lemma FlattenSnoc(parts: seq<bytes>, p: bytes)
    ensures Flatten(parts + [p]) == Flatten(parts) + p
  {
    assert (parts + [p])[..|parts|] == parts;
  }

  lemma {:induction false} FlattenSplit(parts: seq<bytes>, i: nat)
    requires i <= |parts|
    ensures Flatten(parts) == Flatten(parts[..i]) + Flatten(parts[i..])
  {
    if i == |parts| {
      assert parts[..i] == parts && parts[i..] == [];
    } else {
      var front := parts[..|parts| - 1];
      FlattenSplit(front, i);
      assert front[..i] == parts[..i];
      assert parts[i..] == front[i..] + [parts[|parts| - 1]];
      FlattenSnoc(front[i..], parts[|parts| - 1]);
    }
  }

  /** Part `i` starts where the parts before it end. */
  lemma PartOccurs(doc: bytes, pos: nat, parts: seq<bytes>, i: nat)
    requires i < |parts| && Occurs(doc, pos, Flatten(parts))
    ensures Occurs(doc, pos + Len(parts, i), parts[i])
    ensures Len(parts, i + 1) == Len(parts, i) + |parts[i]| <= |Flatten(parts)|
  {
    FlattenSplit(parts, i + 1);
    assert parts[..i + 1][..i] == parts[..i];
    OccursConcat(doc, pos, Flatten(parts[..i + 1]), Flatten(parts[i + 1..]));
    OccursConcat(doc, pos, Flatten(parts[..i]), parts[i]);
  }

  lemma LenBound(parts: seq<bytes>, i: nat)
    requires i <= |parts|
    ensures Len(parts, i) <= |Flatten(parts)|
  {
    FlattenSplit(parts, i);
  }

  predicate TableAt(doc: bytes, pos: nat, values: seq<nat>) {
    && pos + 4 * |values| <= |doc|
    && forall i :: 0 <= i < |values| ==> U32At(doc, pos + 4 * i) == values[i]
  }

  // ---------- containers in place, whatever their parts are ----------

  lemma TaggedOccurs(doc: bytes, start: nat, tag: byte, table: seq<nat>, body: bytes)
    requires forall i :: 0 <= i < |table| ==> table[i] < U32_LIMIT
    ensures Occurs(doc, start, Tagged(tag, table, body)) <==>
            && start < |doc| && doc[start] == tag
            && TableAt(doc, start + 1, table)
            && Occurs(doc, start + 1 + 4 * |table|, body)
  {
    OccursConcat(doc, start, [tag] + U32s(table), body);
    OccursConcat(doc, start, [tag], U32s(table));
    TableOccurs(doc, start + 1, table);
    if start < |doc| {
      assert doc[start..start + 1] == [doc[start]];
    }
  }

  /** Every part occurs where the lengths of the parts before it put it. */
  predicate PartsAt(doc: bytes, base: nat, parts: seq<bytes>) {
    base <= |doc| && forall i :: 0 <= i < |parts| ==> Occurs(doc, base + Len(parts, i), parts[i])
  }

  lemma LenNext(parts: seq<bytes>, i: nat)
    requires i < |parts|
    ensures Len(parts, i + 1) == Len(parts, i) + |parts[i]|
  {
    assert parts[..i + 1][..i] == parts[..i];
  }

  lemma {:induction false} PartsPrefix(doc: bytes, base: nat, parts: seq<bytes>, k: nat)
    requires PartsAt(doc, base, parts) && k <= |parts|
    ensures Occurs(doc, base, Flatten(parts[..k]))
  {
    if k > 0 {
      PartsPrefix(doc, base, parts, k - 1);
      assert parts[..k][..k - 1] == parts[..k - 1];
      OccursConcat(doc, base, Flatten(parts[..k - 1]), parts[k - 1]);
    }
  }

  lemma PartsOccur(doc: bytes, base: nat, parts: seq<bytes>)
    ensures Occurs(doc, base, Flatten(parts)) <==> PartsAt(doc, base, parts)
  {
    if Occurs(doc, base, Flatten(parts)) {
      forall i | 0 <= i < |parts| ensures Occurs(doc, base + Len(parts, i), parts[i]) {
        PartOccurs(doc, base, parts, i);
      }
    }
    if PartsAt(doc, base, parts) {
      PartsPrefix(doc, base, parts, |parts|);
      assert parts[..|parts|] == parts;
    }
  }

  predicate ArrayAt(doc: bytes, start: nat, items: seq<bytes>) {
    && start + ArrayHeader(|items|) <= |doc| && doc[start] == 6
    && U32At(doc, start + 1) == |items|
    && (forall i :: 0 <= i <= |items| ==> U32At(doc, start + 5 + 4 * i) == ItemOffset(items, i))
    && PartsAt(doc, start + ArrayHeader(|items|), items)
  }

  lemma ArrayTableAt(doc: bytes, start: nat, items: seq<bytes>)
    ensures TableAt(doc, start + 1, ArrayTable(items)) <==>
            && start + ArrayHeader(|items|) <= |doc|
            && U32At(doc, start + 1) == |items|
            && forall i :: 0 <= i <= |items| ==> U32At(doc, start + 5 + 4 * i) == ItemOffset(items, i)
  {
    hide U32At, ItemOffset;
    var table := ArrayTable(items);
    if TableAt(doc, start + 1, table) {
      assert U32At(doc, start + 1 + 4 * 0) == table[0];
      forall i | 0 <= i <= |items| ensures U32At(doc, start + 5 + 4 * i) == ItemOffset(items, i) {
        assert U32At(doc, start + 1 + 4 * (i + 1)) == table[i + 1];
      }
    }
    if start + ArrayHeader(|items|) <= |doc| && U32At(doc, start + 1) == |items| &&
       forall i :: 0 <= i <= |items| ==> U32At(doc, start + 5 + 4 * i) == ItemOffset(items, i) {
      forall j | 0 <= j < |table| ensures U32At(doc, start + 1 + 4 * j) == table[j] {
        if j > 0 {
          assert U32At(doc, start + 5 + 4 * (j - 1)) == ItemOffset(items, j - 1);
        }
      }
    }
  }

  lemma ArrayOccurs(doc: bytes, start: nat, items: seq<bytes>)
    requires |ArrayBytes(items)| < U32_LIMIT
    ensures Occurs(doc, start, ArrayBytes(items)) <==> ArrayAt(doc, start, items)
  {
    forall i | 0 <= i <= |items| ensures Len(items, i) <= |Flatten(items)| {
      LenBound(items, i);
    }
    TaggedOccurs(doc, start, 6, ArrayTable(items), Flatten(items));
    ArrayTableAt(doc, start, items);
    PartsOccur(doc, start + ArrayHeader(|items|), items);
  }

  lemma ArraySize(items: seq<bytes>)
    ensures |ArrayBytes(items)| == ItemOffset(items, |items|)
  {
    assert items[..|items|] == items;
  }

  predicate KeyTableAt(doc: bytes, start: nat, keys: seq<bytes>)
    requires start + ObjectHeader(|keys|) <= |doc|
  {
    forall i :: 0 <= i < |keys| ==> U32At(doc, start + 5 + 8 * i) == KeyOffset(keys, i)
  }

  predicate ValueTableAt(doc: bytes, start: nat, keys: seq<bytes>, values: seq<bytes>)
    requires |keys| == |values| && start + ObjectHeader(|keys|) <= |doc|
  {
    forall i :: 0 <= i < |values| ==> U32At(doc, start + 9 + 8 * i) == ValueOffset(keys, values, i)
  }

  predicate ObjectAt(doc: bytes, start: nat, keys: seq<bytes>, values: seq<bytes>)
    requires |keys| == |values|
  {
    && start + ObjectHeader(|keys|) <= |doc| && doc[start] == 7
    && U32At(doc, start + 1) == |keys|
    && KeyTableAt(doc, start, keys) && ValueTableAt(doc, start, keys, values)
    && U32At(doc, start + 5 + 8 * |keys|) == ValueOffset(keys, values, |values|)
    && PartsAt(doc, start + ObjectHeader(|keys|), keys)
    && PartsAt(doc, start + ObjectHeader(|keys|) + |Flatten(keys)|, values)
  }

  lemma ObjectTableEntries(keys: seq<bytes>, values: seq<bytes>, i: nat)
    requires i < |keys| == |values|
    ensures ObjectTable(keys, values)[1 + 2 * i] == KeyOffset(keys, i)
    ensures ObjectTable(keys, values)[2 + 2 * i] == ValueOffset(keys, values, i)
  {
    assert (2 * i) % 2 == 0 && (2 * i) / 2 == i;
    assert (2 * i + 1) % 2 == 1 && (2 * i + 1) / 2 == i;
  }

  lemma ObjectTableHolds(doc: bytes, start: nat, keys: seq<bytes>, values: seq<bytes>)
    requires |keys| == |values| && TableAt(doc, start + 1, ObjectTable(keys, values))
    ensures start + ObjectHeader(|keys|) <= |doc| && U32At(doc, start + 1) == |keys|
    ensures KeyTableAt(doc, start, keys) && ValueTableAt(doc, start, keys, values)
    ensures U32At(doc, start + 5 + 8 * |keys|) == ValueOffset(keys, values, |values|)
  {
    var table := ObjectTable(keys, values);
    assert U32At(doc, start + 1 + 4 * 0) == table[0];
    assert U32At(doc, start + 1 + 4 * (1 + 2 * |keys|)) == table[1 + 2 * |keys|];
    forall i | 0 <= i < |keys|
      ensures U32At(doc, start + 5 + 8 * i) == KeyOffset(keys, i)
      ensures U32At(doc, start + 9 + 8 * i) == ValueOffset(keys, values, i)
    {
      ObjectTableEntries(keys, values, i);
      assert U32At(doc, start + 1 + 4 * (1 + 2 * i)) == table[1 + 2 * i];
      assert U32At(doc, start + 1 + 4 * (2 + 2 * i)) == table[2 + 2 * i];
    }
  }

  lemma ObjectTableBack(doc: bytes, start: nat, keys: seq<bytes>, values: seq<bytes>, j: nat)
    requires |keys| == |values| && start + ObjectHeader(|keys|) <= |doc| && U32At(doc, start + 1) == |keys|
    requires KeyTableAt(doc, start, keys) && ValueTableAt(doc, start, keys, values)
    requires U32At(doc, start + 5 + 8 * |keys|) == ValueOffset(keys, values, |values|)
    requires j < 2 * |keys| + 2
    ensures U32At(doc, start + 1 + 4 * j) == ObjectTable(keys, values)[j]
  {
    hide U32At, KeyOffset, ValueOffset;
    var table := ObjectTable(keys, values);
    if j == 0 {
      assert table[j] == |keys|;
    } else if j == 1 + 2 * |keys| {
      assert table[j] == ValueOffset(keys, values, |values|);
    } else {
      var i: nat := (j - 1) / 2;
      ObjectTableEntries(keys, values, i);
      assert U32At(doc, start + 5 + 8 * i) == KeyOffset(keys, i);
      assert U32At(doc, start + 9 + 8 * i) == ValueOffset(keys, values, i);
      if j == 1 + 2 * i {
        assert start + 1 + 4 * j == start + 5 + 8 * i;
      } else {
        assert j == 2 + 2 * i;
        assert start + 1 + 4 * j == start + 9 + 8 * i;
      }
    }
  }

  lemma ObjectSize(keys: seq<bytes>, values: seq<bytes>)
    requires |keys| == |values|
    ensures |ObjectBytes(keys, values)| == ValueOffset(keys, values, |values|)
    ensures ValueOffset(keys, values, 0) == ObjectHeader(|keys|) + |Flatten(keys)|
  {
    assert values[..|values|] == values && values[..0] == [];
  }

  lemma ObjectTableBound(keys: seq<bytes>, values: seq<bytes>, j: nat)
    requires |keys| == |values| && |ObjectBytes(keys, values)| < U32_LIMIT && j < 2 * |keys| + 2
    ensures ObjectTable(keys, values)[j] < U32_LIMIT
  {
    ObjectSize(keys, values);
    if 0 < j < 2 * |keys| + 1 {
      var i := (j - 1) / 2;
      ObjectTableEntries(keys, values, i);
      LenBound(keys, i);
      LenBound(values, i);
      assert j == 1 + 2 * i || j == 2 + 2 * i;
    }
  }

  lemma ObjectTableAt(doc: bytes, start: nat, keys: seq<bytes>, values: seq<bytes>)
    requires |keys| == |values|
    ensures TableAt(doc, start + 1, ObjectTable(keys, values)) <==>
            && start + ObjectHeader(|keys|) <= |doc| && U32At(doc, start + 1) == |keys|
            && KeyTableAt(doc, start, keys) && ValueTableAt(doc, start, keys, values)
            && U32At(doc, start + 5 + 8 * |keys|) == ValueOffset(keys, values, |values|)
  {
    var table := ObjectTable(keys, values);
    if TableAt(doc, start + 1, table) {
      ObjectTableHolds(doc, start, keys, values);
    }
    if start + ObjectHeader(|keys|) <= |doc| && U32At(doc, start + 1) == |keys| &&
       KeyTableAt(doc, start, keys) && ValueTableAt(doc, start, keys, values) &&
       U32At(doc, start + 5 + 8 * |keys|) == ValueOffset(keys, values, |values|) {
      forall j | 0 <= j < |table| ensures U32At(doc, start + 1 + 4 * j) == table[j] {
        ObjectTableBack(doc, start, keys, values, j);
      }
    }
  }

  lemma TwoPartsOccur(doc: bytes, base: nat, keys: seq<bytes>, values: seq<bytes>)
    ensures Occurs(doc, base, Flatten(keys) + Flatten(values)) <==>
            PartsAt(doc, base, keys) && PartsAt(doc, base + |Flatten(keys)|, values)
  {
    hide Occurs, PartsAt, Flatten;
    OccursConcat(doc, base, Flatten(keys), Flatten(values));
    PartsOccur(doc, base, keys);
    PartsOccur(doc, base + |Flatten(keys)|, values);
  }

  lemma ObjectOccurs(doc: bytes, start: nat, keys: seq<bytes>, values: seq<bytes>)
    requires |keys| == |values| && |ObjectBytes(keys, values)| < U32_LIMIT
    ensures Occurs(doc, start, ObjectBytes(keys, values)) <==> ObjectAt(doc, start, keys, values)
  {
    hide Occurs, PartsAt, Flatten, TableAt, KeyTableAt, ValueTableAt, U32At, ValueOffset;
    var table := ObjectTable(keys, values);
    forall j | 0 <= j < |table| ensures table[j] < U32_LIMIT {
      ObjectTableBound(keys, values, j);
    }
    TaggedOccurs(doc, start, 7, table, Flatten(keys) + Flatten(values));
    ObjectTableAt(doc, start, keys, values);
    TwoPartsOccur(doc, start + ObjectHeader(|keys|), keys, values);
  }

  // ---------- documents in place ----------

  /** A well-formed document `t` is encoded in `doc` at `start`. */
  predicate IsAt(doc: bytes, start: nat, depth: nat, t: Doc) {
    WellFormed(t, depth) && Occurs(doc, start, Encode(t))
  }

  predicate AllWellFormed(items: seq<Doc>, depth: nat) {
    forall i :: 0 <= i < |items| ==> WellFormed(items[i], depth)
  }

  predicate ArrayNode(doc: bytes, start: nat, depth: nat, items: seq<Doc>) {
    depth <= MAX_DEPTH && AllWellFormed(items, depth + 1) && ArrayAt(doc, start, Encodings(items))
  }

  predicate ObjectNode(doc: bytes, start: nat, depth: nat, keys: seq<bytes>, values: seq<Doc>) {
    && depth <= MAX_DEPTH && |keys| == |values| && AllWellFormed(values, depth + 1) && GoodKeys(keys)
    && ObjectAt(doc, start, Texts(keys), Encodings(values))
  }

  lemma ArrayIsAt(doc: bytes, start: nat, depth: nat, items: seq<Doc>)
    ensures IsAt(doc, start, depth, Arr(items)) <==> ArrayNode(doc, start, depth, items)
  {
    hide Occurs, Flatten, U32s, PartsAt;
    if AllWellFormed(items, depth + 1) {
      assert Representable(Arr(items));
      var parts := Encodings(items);
      assert Encode(Arr(items)) == ArrayBytes(parts);
      ArraySize(parts);
      if ArrayAt(doc, start, parts) {
        assert U32At(doc, start + 5 + 4 * |parts|) == ItemOffset(parts, |parts|);
      }
      if |ArrayBytes(parts)| < U32_LIMIT {
        ArrayOccurs(doc, start, parts);
      }
    }
  }

  lemma ObjectIsAt(doc: bytes, start: nat, depth: nat, keys: seq<bytes>, values: seq<Doc>)
    ensures IsAt(doc, start, depth, Obj(keys, values)) <==> ObjectNode(doc, start, depth, keys, values)
  {
    hide Occurs, Flatten, U32s, PartsAt, ObjectTable, KeyTableAt, ValueTableAt;
    if AllWellFormed(values, depth + 1) && |keys| == |values| {
      assert Representable(Obj(keys, values));
      var texts, parts := Texts(keys), Encodings(values);
      assert Encode(Obj(keys, values)) == ObjectBytes(texts, parts);
      ObjectSize(texts, parts);
      if |ObjectBytes(texts, parts)| < U32_LIMIT {
        ObjectOccurs(doc, start, texts, parts);
      }
    }
  }

  predicate TextAt(doc: bytes, pos: nat, text: bytes) {
    Utf8(text) && |text| < U32_LIMIT && Occurs(doc, pos, Text(text))
  }

  lemma TextLayout(doc: bytes, pos: nat, text: bytes)
    requires |text| < U32_LIMIT
    ensures Occurs(doc, pos, Text(text)) <==>
            pos + 4 <= |doc| && U32At(doc, pos) == |text| && Occurs(doc, pos + 4, text)
  {
    OccursConcat(doc, pos, LE(|text|, 4), text);
    if pos + 4 <= |doc| {
      U32Occurs(doc, pos, |text|);
    }
  }

  lemma UniqueText(doc: bytes, pos: nat, a: bytes, b: bytes)
    requires TextAt(doc, pos, a) && TextAt(doc, pos, b)
    ensures a == b
  {
    TextLayout(doc, pos, a);
    TextLayout(doc, pos, b);
  }

  function Tag(t: Doc): byte {
    match t
    case Null => 0
    case False => 1
    case True => 2
    case Int(_) => 3
    case Float(_) => 4
    case Str(_) => 5
    case Arr(_) => 6
    case Obj(_, _) => 7
  }

  lemma TagAt(doc: bytes, start: nat, depth: nat, t: Doc)
    requires IsAt(doc, start, depth, t)
    ensures depth <= MAX_DEPTH && start < |doc| && doc[start] == Tag(t)
  {
    assert Encode(t)[0] == Tag(t);
    assert doc[start..start + |Encode(t)|][0] == doc[start];
  }

  predicate Leaf(t: Doc) {
    !t.Arr? && !t.Obj?
  }

  /** What follows a leaf's tag. */
  function Body(t: Doc): bytes
    requires Leaf(t) && Representable(t)
  {
    match t
    case Int(value) => LE(Unsigned(value), 8)
    case Float(bits) => bits
    case Str(text) => Text(text)
    case _ => []
  }

  lemma LeafAt(doc: bytes, start: nat, depth: nat, t: Doc)
    requires Leaf(t) && WellFormed(t, depth)
    ensures Encode(t) == [Tag(t)] + Body(t)
    ensures IsAt(doc, start, depth, t) <==> start < |doc| && doc[start] == Tag(t) && Occurs(doc, start + 1, Body(t))
  {
    OccursConcat(doc, start, [Tag(t)], Body(t));
    if start < |doc| {
      assert doc[start..start + 1] == [doc[start]];
    }
  }

  lemma UniqueLeaf(doc: bytes, start: nat, depth: nat, a: Doc, b: Doc)
    requires IsAt(doc, start, depth, a) && IsAt(doc, start, depth, b) && Leaf(a) && Tag(a) == Tag(b)
    ensures a == b
  {
    hide LE, Utf8, Unsigned, Encode;
    LeafAt(doc, start, depth, a);
    LeafAt(doc, start, depth, b);
    match a {
      case Int(value) =>
        RadixValues();
        LEInjective(Unsigned(value), Unsigned(b.value), 8);
      case Str(text) =>
        UniqueText(doc, start + 1, text, b.text);
      case _ =>
    }
  }

  // ---------- at most one document in any place ----------

  /** What an array's table says about item `i`. */
  lemma ItemAt(doc: bytes, start: nat, depth: nat, items: seq<Doc>, i: nat)
    requires ArrayNode(doc, start, depth, items) && i < |items|
    ensures start + ArrayHeader(|items|) <= |doc|
    ensures U32At(doc, start + 5 + 4 * i) == ItemOffset(Encodings(items), i)
    ensures U32At(doc, start + 5 + 4 * (i + 1)) == ItemOffset(Encodings(items), i) + |Encode(items[i])|
    ensures IsAt(doc, start + ItemOffset(Encodings(items), i), depth + 1, items[i])
  {
    hide Occurs, Flatten, U32At, Encode;
    var parts := Encodings(items);
    assert U32At(doc, start + 5 + 4 * i) == ItemOffset(parts, i);
    assert U32At(doc, start + 5 + 4 * (i + 1)) == ItemOffset(parts, i + 1);
    LenNext(parts, i);
    assert parts[i] == Encode(items[i]);
    assert Occurs(doc, start + ArrayHeader(|items|) + Len(parts, i), parts[i]);
  }

  lemma KeyAt(doc: bytes, start: nat, depth: nat, keys: seq<bytes>, values: seq<Doc>, i: nat)
    requires ObjectNode(doc, start, depth, keys, values) && i < |keys|
    ensures start + ObjectHeader(|keys|) <= |doc|
    ensures U32At(doc, start + 5 + 8 * i) == KeyOffset(Texts(keys), i)
    ensures TextAt(doc, start + KeyOffset(Texts(keys), i), keys[i])
  {
    hide Occurs, Flatten, Encode, ValueTableAt, Utf8;
    var texts := Texts(keys);
    assert U32At(doc, start + 5 + 8 * i) == KeyOffset(texts, i);
    assert texts[i] == Text(keys[i]);
    assert Occurs(doc, start + ObjectHeader(|keys|) + Len(texts, i), texts[i]);
    LenNext(texts, i);
    LenBound(texts, i + 1);
  }

  lemma ValueAt(doc: bytes, start: nat, depth: nat, keys: seq<bytes>, values: seq<Doc>, i: nat)
    requires ObjectNode(doc, start, depth, keys, values) && i < |keys|
    ensures start + ObjectHeader(|keys|) <= |doc|
    ensures U32At(doc, start + 9 + 8 * i) == ValueOffset(Texts(keys), Encodings(values), i)
    ensures IsAt(doc, start + ValueOffset(Texts(keys), Encodings(values), i), depth + 1, values[i])
  {
    hide Occurs, Flatten, U32At, Encode, KeyTableAt;
    var texts, parts := Texts(keys), Encodings(values);
    assert U32At(doc, start + 9 + 8 * i) == ValueOffset(texts, parts, i);
    assert parts[i] == Encode(values[i]);
    assert Occurs(doc, start + ObjectHeader(|keys|) + |Flatten(texts)| + Len(parts, i), parts[i]);
  }

  /** No two documents can be read from the same place. */
  lemma {:induction false} UniqueAt(doc: bytes, start: nat, depth: nat, a: Doc, b: Doc)
    requires IsAt(doc, start, depth, a) && IsAt(doc, start, depth, b)
    ensures a == b
    decreases a, 1
  {
    hide IsAt, ArrayNode, ObjectNode;
    TagAt(doc, start, depth, a);
    TagAt(doc, start, depth, b);
    match a {
      case Arr(items) =>
        ArrayIsAt(doc, start, depth, items);
        ArrayIsAt(doc, start, depth, b.items);
        UniqueItems(doc, start, depth, items, b.items);
      case Obj(keys, values) =>
        ObjectIsAt(doc, start, depth, keys, values);
        ObjectIsAt(doc, start, depth, b.keys, b.values);
        UniqueKeys(doc, start, depth, keys, values, b.keys, b.values);
        UniqueValues(doc, start, depth, keys, values, b.values);
      case _ =>
        UniqueLeaf(doc, start, depth, a, b);
    }
  }

  lemma {:induction false} UniqueItems(doc: bytes, start: nat, depth: nat, a: seq<Doc>, b: seq<Doc>)
    requires ArrayNode(doc, start, depth, a) && ArrayNode(doc, start, depth, b)
    ensures a == b
    decreases a, 0
  {
    hide Occurs, Encode, U32At, ItemOffset, IsAt, PartsAt;
    forall i | 0 <= i < |a| ensures a[i] == b[i] {
      ItemAt(doc, start, depth, a, i);
      ItemAt(doc, start, depth, b, i);
      UniqueAt(doc, start + ItemOffset(Encodings(a), i), depth + 1, a[i], b[i]);
    }
  }

  lemma UniqueKeys(doc: bytes, start: nat, depth: nat, a: seq<bytes>, av: seq<Doc>, b: seq<bytes>, bv: seq<Doc>)
    requires ObjectNode(doc, start, depth, a, av) && ObjectNode(doc, start, depth, b, bv)
    ensures a == b
  {
    hide Encode, U32At, KeyOffset, ValueOffset, TextAt, PartsAt, KeyTableAt, ValueTableAt;
    forall i | 0 <= i < |a| ensures a[i] == b[i] {
      KeyAt(doc, start, depth, a, av, i);
      KeyAt(doc, start, depth, b, bv, i);
      UniqueText(doc, start + KeyOffset(Texts(a), i), a[i], b[i]);
    }
  }

  lemma {:induction false} UniqueValues(doc: bytes, start: nat, depth: nat, keys: seq<bytes>, a: seq<Doc>, b: seq<Doc>)
    requires ObjectNode(doc, start, depth, keys, a) && ObjectNode(doc, start, depth, keys, b)
    ensures a == b
    decreases a, 0
  {
    hide Encode, U32At, KeyOffset, ValueOffset, IsAt, PartsAt, KeyTableAt, ValueTableAt;
    forall i | 0 <= i < |a| ensures a[i] == b[i] {
      ValueAt(doc, start, depth, keys, a, i);
      ValueAt(doc, start, depth, keys, b, i);
      UniqueAt(doc, start + ValueOffset(Texts(keys), Encodings(a), i), depth + 1, a[i], b[i]);
    }
  }

  /** Two documents never share an encoding. */
  lemma EncodeInjective(a: Doc, b: Doc)
    requires WellFormed(a, 0) && WellFormed(b, 0) && Encode(a) == Encode(b)
    ensures a == b
  {
    var doc := Encode(a);
    assert doc[0..|doc|] == doc;
    UniqueAt(doc, 0, 0, a, b);
  }
}
