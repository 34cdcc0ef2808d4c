/**
 The PJ1 decoder. It accepts a byte string if and only if that is the encoding of a well-formed
 document, so every document has exactly one accepted form.
 */
module Pj1Decoder {
  import opened Bytes
  import opened Wrappers
  import opened Pj1

  /** The items read so far sit where the table says, in an array of `count`. */
  predicate ItemsRead(doc: bytes, start: nat, count: nat, parts: seq<bytes>) {
    && |parts| <= count && start + ArrayHeader(count) <= |doc|
    && (forall i :: 0 <= i < |parts| ==> U32At(doc, start + 5 + 4 * i) == ArrayHeader(count) + Len(parts, i))
    && PartsAt(doc, start + ArrayHeader(count), parts)
  }

  lemma LenSnoc(parts: seq<bytes>, p: bytes, i: nat)
    requires i <= |parts|
    ensures Len(parts + [p], i) == Len(parts, i)
    ensures i == |parts| ==> Len(parts, i) == |Flatten(parts)|
  {
    hide Flatten;
    assert (parts + [p])[..i] == parts[..i];
    assert i == |parts| ==> parts[..i] == parts;
  }

  lemma PartsAtNext(doc: bytes, base: nat, parts: seq<bytes>, p: bytes)
    requires PartsAt(doc, base, parts) && Occurs(doc, base + |Flatten(parts)|, p)
    ensures PartsAt(doc, base, parts + [p])
  {
    hide Occurs, Flatten, Len;
    forall i | 0 <= i < |parts + [p]| ensures Occurs(doc, base + Len(parts + [p], i), (parts + [p])[i]) {
      LenSnoc(parts, p, i);
      assert i < |parts| ==> Occurs(doc, base + Len(parts, i), parts[i]);
    }
  }

  lemma ItemsReadNext(doc: bytes, start: nat, count: nat, parts: seq<bytes>, p: bytes)
    requires ItemsRead(doc, start, count, parts) && |parts| < count
    requires U32At(doc, start + 5 + 4 * |parts|) == ArrayHeader(count) + |Flatten(parts)|
    requires Occurs(doc, start + ArrayHeader(count) + |Flatten(parts)|, p)
    ensures ItemsRead(doc, start, count, parts + [p])
    ensures Flatten(parts + [p]) == Flatten(parts) + p
  {
    hide Occurs, PartsAt, U32At, Flatten, Len;
    PartsAtNext(doc, start + ArrayHeader(count), parts, p);
    FlattenSnoc(parts, p);
    forall i | 0 <= i <= |parts| ensures U32At(doc, start + 5 + 4 * i) == ArrayHeader(count) + Len(parts + [p], i) {
      LenSnoc(parts, p, i);
    }
  }

  lemma ItemsReadAll(doc: bytes, start: nat, parts: seq<bytes>)
    requires ItemsRead(doc, start, |parts|, parts) && doc[start] == 6 && U32At(doc, start + 1) == |parts|
    requires U32At(doc, start + 5 + 4 * |parts|) == ArrayHeader(|parts|) + |Flatten(parts)|
    ensures ArrayAt(doc, start, parts) && ItemOffset(parts, |parts|) == ArrayHeader(|parts|) + |Flatten(parts)|
  {
    hide PartsAt, U32At;
    assert parts[..|parts|] == parts;
  }

  lemma EncodingsNext(values: seq<Doc>, v: Doc)
    requires (forall i :: 0 <= i < |values| ==> Representable(values[i])) && Representable(v)
    ensures forall i :: 0 <= i < |values + [v]| ==> Representable((values + [v])[i])
    ensures Encodings(values + [v]) == Encodings(values) + [Encode(v)]
  {
    hide Encode, Representable;
  }

  /** Every array that could be here starts with `values`. */
  ghost predicate OnlyItems(doc: bytes, start: nat, depth: nat, count: nat, values: seq<Doc>) {
    forall items :: ArrayNode(doc, start, depth, items) ==> |items| == count && values <= items
  }

  /** In an array that starts with `values`, what must come next. */
  lemma NextItem(doc: bytes, start: nat, depth: nat, values: seq<Doc>, items: seq<Doc>)
    requires ArrayNode(doc, start, depth, items) && values < items && AllWellFormed(values, depth + 1)
    ensures start + ArrayHeader(|items|) <= |doc|
    ensures var at := ArrayHeader(|items|) + |Flatten(Encodings(values))|;
            && U32At(doc, start + 5 + 4 * |values|) == at
            && U32At(doc, start + 5 + 4 * (|values| + 1)) == at + |Encode(items[|values|])|
            && IsAt(doc, start + at, depth + 1, items[|values|])
  {
    hide IsAt, Encode, Flatten, U32At, ArrayAt;
    ItemAt(doc, start, depth, items, |values|);
    assert Encodings(items)[..|values|] == Encodings(values);
  }

  /** What the decoder promises: the one document that is there and where it ends, or that there is none. */
  ghost predicate Decoded(doc: bytes, start: nat, depth: nat, r: Option<(Doc, nat)>) {
    match r
    case Some((t, end)) => IsAt(doc, start, depth, t) && end == start + |Encode(t)|
    case None => forall t :: !IsAt(doc, start, depth, t)
  }

  /** Each of the array loop's refusals is right: no array is there. */
  lemma ItemRefuted(doc: bytes, start: nat, depth: nat, count: nat, values: seq<Doc>, r: Option<(Doc, nat)>)
    requires OnlyItems(doc, start, depth, count, values) && |values| < count
    requires AllWellFormed(values, depth + 1) && start + ArrayHeader(count) <= |doc|
    requires var at := ArrayHeader(count) + |Flatten(Encodings(values))|;
             var offset, next := U32At(doc, start + 5 + 4 * |values|), U32At(doc, start + 5 + 4 * (|values| + 1));
             || offset != at || next < offset
             || (Decoded(doc, start + at, depth + 1, r) && (r.None? || r.value.1 != start + next))
    ensures forall items :: !ArrayNode(doc, start, depth, items)
  {
    hide IsAt, Encode, Flatten, U32At, ArrayNode;
    var at := ArrayHeader(count) + |Flatten(Encodings(values))|;
    forall items ensures !ArrayNode(doc, start, depth, items) {
      if ArrayNode(doc, start, depth, items) {
        NextItem(doc, start, depth, values, items);
        if Decoded(doc, start + at, depth + 1, r) && r.Some? {
          UniqueAt(doc, start + at, depth + 1, r.value.0, items[|values|]);
        }
      }
    }
  }

  lemma OnlyItemsNext(doc: bytes, start: nat, depth: nat, count: nat, values: seq<Doc>, v: Doc)
    requires OnlyItems(doc, start, depth, count, values) && |values| < count
    requires AllWellFormed(values, depth + 1)
    requires IsAt(doc, start + ArrayHeader(count) + |Flatten(Encodings(values))|, depth + 1, v)
    ensures OnlyItems(doc, start, depth, count, values + [v])
  {
    hide IsAt, Encode, Flatten, U32At, ArrayNode, ArrayHeader;
    forall items | ArrayNode(doc, start, depth, items) ensures |items| == count && values + [v] <= items {
      NextItem(doc, start, depth, values, items);
      UniqueAt(doc, start + ArrayHeader(count) + |Flatten(Encodings(values))|, depth + 1, v, items[|values|]);
    }
  }

  /** A 32-bit read that fails when it would run past the end. */
  function ReadU32(doc: bytes, pos: nat): (r: Option<nat>)
    ensures r.Some? <==> pos + 4 <= |doc|
    ensures r.Some? ==> r.value == U32At(doc, pos)
  {
    if pos + 4 <= |doc| then Some(U32At(doc, pos)) else None
  }

  ghost predicate TextDecoded(doc: bytes, pos: nat, r: Option<bytes>) {
    match r
    case Some(text) => TextAt(doc, pos, text)
    case None => forall text :: !TextAt(doc, pos, text)
  }

  method DecodeText(doc: bytes, pos: nat) returns (r: Option<bytes>)
    ensures TextDecoded(doc, pos, r)
  {
    var len := ReadU32(doc, pos);
    if len.None? || pos + 4 + len.value > |doc| {
      forall s | TextAt(doc, pos, s) ensures false {
        TextLayout(doc, pos, s);
      }
      return None;
    }
    var text := doc[pos + 4..pos + 4 + len.value];
    TextLayout(doc, pos, text);
    if !Utf8(text) {
      forall s | TextAt(doc, pos, s) ensures s == text {
        TextLayout(doc, pos, s);
      }
      return None;
    }
    return Some(text);
  }

  /** The array loop: every item of the one array that can be here and where it ends, or that there is none. */
  method ReadItems(doc: bytes, start: nat, depth: nat, count: nat) returns (r: Option<seq<Doc>>, expected: nat)
    requires depth <= MAX_DEPTH && start + ArrayHeader(count) <= |doc| && OnlyItems(doc, start, depth, count, [])
    ensures r.None? ==> forall items :: !ArrayNode(doc, start, depth, items)
    ensures r.Some? ==> |r.value| == count && AllWellFormed(r.value, depth + 1)
    ensures r.Some? ==> ItemsRead(doc, start, count, Encodings(r.value)) && OnlyItems(doc, start, depth, count, r.value)
    ensures r.Some? ==> expected == ArrayHeader(count) + |Flatten(Encodings(r.value))|
    decreases MAX_DEPTH + 1 - depth, 0
  {
    hide U32At, Flatten, ArrayNode, OnlyItems, Encode, Occurs, ItemsRead;
    var index, values := 0, [];
    expected := ArrayHeader(count);
    NoItemsRead(doc, start, count);
    while index < count
      invariant index == |values| <= count && AllWellFormed(values, depth + 1)
      invariant expected == ArrayHeader(count) + |Flatten(Encodings(values))|
      invariant ItemsRead(doc, start, count, Encodings(values))
      invariant OnlyItems(doc, start, depth, count, values)
    {
      var offset := U32At(doc, start + 5 + 4 * index);
      var next := U32At(doc, start + 5 + 4 * (index + 1));
      if offset != expected || next < offset {
        ItemRefuted(doc, start, depth, count, values, None);
        return None, expected;
      }
      var node := DecodeNode(doc, start + offset, depth + 1);
      if node.None? || node.value.1 != start + next {
        ItemRefuted(doc, start, depth, count, values, node);
        return None, expected;
      }
      var value := node.value.0;
      ItemsReadNext(doc, start, count, Encodings(values), Encode(value));
      EncodingsNext(values, value);
      OnlyItemsNext(doc, start, depth, count, values, value);
      values, expected, index := values + [value], next, index + 1;
    }
    r := Some(values);
  }

  lemma NoItemsRead(doc: bytes, start: nat, count: nat)
    requires start + ArrayHeader(count) <= |doc|
    ensures ItemsRead(doc, start, count, Encodings([])) && Flatten(Encodings([])) == []
  {
    assert Encodings([]) == [];
  }

  lemma OnlyArrays(doc: bytes, start: nat, depth: nat)
    requires start < |doc| && doc[start] == 6
    ensures forall t :: IsAt(doc, start, depth, t) <==> t.Arr? && ArrayNode(doc, start, depth, t.items)
  {
    forall t ensures IsAt(doc, start, depth, t) <==> t.Arr? && ArrayNode(doc, start, depth, t.items) {
      if IsAt(doc, start, depth, t) {
        TagAt(doc, start, depth, t);
      }
      if t.Arr? {
        ArrayIsAt(doc, start, depth, t.items);
      }
    }
  }

  lemma ArrayHeaderRead(doc: bytes, start: nat, depth: nat, items: seq<Doc>)
    requires ArrayNode(doc, start, depth, items)
    ensures start + 5 <= start + ArrayHeader(|items|) <= |doc| && U32At(doc, start + 1) == |items|
    ensures U32At(doc, start + 5 + 4 * |items|) == ArrayHeader(|items|) + |Flatten(Encodings(items))|
  {
    hide U32At, Flatten, Encode, PartsAt;
    var parts := Encodings(items);
    assert parts[..|parts|] == parts;
    assert U32At(doc, start + 5 + 4 * |parts|) == ItemOffset(parts, |parts|);
  }

  /** The end entry of the table completes an array. */
  lemma ArrayComplete(doc: bytes, start: nat, depth: nat, values: seq<Doc>)
    requires depth <= MAX_DEPTH && AllWellFormed(values, depth + 1) && start < |doc|
    requires ItemsRead(doc, start, |values|, Encodings(values)) && doc[start] == 6 && U32At(doc, start + 1) == |values|
    requires U32At(doc, start + 5 + 4 * |values|) == ArrayHeader(|values|) + |Flatten(Encodings(values))|
    ensures IsAt(doc, start, depth, Arr(values))
    ensures |Encode(Arr(values))| == ArrayHeader(|values|) + |Flatten(Encodings(values))|
    ensures start + |Encode(Arr(values))| <= |doc|
  {
    hide U32At, Flatten, PartsAt, ItemsRead, ArrayAt;
    ItemsReadAll(doc, start, Encodings(values));
    ArraySize(Encodings(values));
    ArrayIsAt(doc, start, depth, values);
  }

  lemma ArrayEndRefuted(doc: bytes, start: nat, depth: nat, values: seq<Doc>)
    requires AllWellFormed(values, depth + 1) && OnlyItems(doc, start, depth, |values|, values)
    requires start + ArrayHeader(|values|) <= |doc|
    requires U32At(doc, start + 5 + 4 * |values|) != ArrayHeader(|values|) + |Flatten(Encodings(values))|
    ensures forall items :: !ArrayNode(doc, start, depth, items)
  {
    hide U32At, Flatten, Encode, ArrayNode;
    forall items ensures !ArrayNode(doc, start, depth, items) {
      if ArrayNode(doc, start, depth, items) {
        assert items == values;
        ArrayHeaderRead(doc, start, depth, items);
      }
    }
  }

  lemma ArrayHeaders(doc: bytes, start: nat, depth: nat)
    ensures forall items :: ArrayNode(doc, start, depth, items) ==>
              start + 5 <= start + ArrayHeader(|items|) <= |doc| && U32At(doc, start + 1) == |items|
  {
    hide U32At, ArrayNode;
    forall items | ArrayNode(doc, start, depth, items)
      ensures start + 5 <= start + ArrayHeader(|items|) <= |doc| && U32At(doc, start + 1) == |items|
    {
      ArrayHeaderRead(doc, start, depth, items);
    }
  }

  method DecodeArray(doc: bytes, start: nat, depth: nat) returns (r: Option<(Doc, nat)>)
    requires depth <= MAX_DEPTH && start < |doc| && doc[start] == 6
    ensures Decoded(doc, start, depth, r)
    decreases MAX_DEPTH + 1 - depth, 1
  {
    hide U32At, Flatten, Encode, Occurs, PartsAt, ItemsRead, ArrayNode, IsAt;
    OnlyArrays(doc, start, depth);
    ArrayHeaders(doc, start, depth);
    var count := ReadU32(doc, start + 1);
    if count.None? || start + ArrayHeader(count.value) > |doc| {
      return None;
    }
    var values, expected := ReadItems(doc, start, depth, count.value);
    if values.None? {
      return None;
    }
    var total := U32At(doc, start + 5 + 4 * count.value);
    if total != expected {
      ArrayEndRefuted(doc, start, depth, values.value);
      return None;
    }
    ArrayComplete(doc, start, depth, values.value);
    if start + total > |doc| {
      return None;
    }
    return Some((Arr(values.value), start + total));
  }

  /** The keys read so far sit where the table says, in an object of `count`. */
  predicate KeysRead(doc: bytes, start: nat, count: nat, texts: seq<bytes>) {
    && |texts| <= count && start + ObjectHeader(count) <= |doc|
    && (forall i :: 0 <= i < |texts| ==> U32At(doc, start + 5 + 8 * i) == ObjectHeader(count) + Len(texts, i))
    && PartsAt(doc, start + ObjectHeader(count), texts)
  }

  /** The values read so far follow the keys, at `base` from the tag. */
  predicate ValuesRead(doc: bytes, start: nat, count: nat, base: nat, parts: seq<bytes>) {
    && |parts| <= count && start + ObjectHeader(count) <= |doc|
    && (forall i :: 0 <= i < |parts| ==> U32At(doc, start + 9 + 8 * i) == base + Len(parts, i))
    && PartsAt(doc, start + base, parts)
  }

  lemma KeysReadNext(doc: bytes, start: nat, count: nat, texts: seq<bytes>, p: bytes)
    requires KeysRead(doc, start, count, texts) && |texts| < count
    requires U32At(doc, start + 5 + 8 * |texts|) == ObjectHeader(count) + |Flatten(texts)|
    requires Occurs(doc, start + ObjectHeader(count) + |Flatten(texts)|, p)
    ensures KeysRead(doc, start, count, texts + [p])
    ensures Flatten(texts + [p]) == Flatten(texts) + p
  {
    hide Occurs, PartsAt, U32At, Flatten, Len;
    PartsAtNext(doc, start + ObjectHeader(count), texts, p);
    FlattenSnoc(texts, p);
    forall i | 0 <= i <= |texts| ensures U32At(doc, start + 5 + 8 * i) == ObjectHeader(count) + Len(texts + [p], i) {
      LenSnoc(texts, p, i);
    }
  }

  lemma ValuesReadNext(doc: bytes, start: nat, count: nat, base: nat, parts: seq<bytes>, p: bytes)
    requires ValuesRead(doc, start, count, base, parts) && |parts| < count
    requires U32At(doc, start + 9 + 8 * |parts|) == base + |Flatten(parts)|
    requires Occurs(doc, start + base + |Flatten(parts)|, p)
    ensures ValuesRead(doc, start, count, base, parts + [p])
    ensures Flatten(parts + [p]) == Flatten(parts) + p
  {
    hide Occurs, PartsAt, U32At, Flatten, Len;
    PartsAtNext(doc, start + base, parts, p);
    FlattenSnoc(parts, p);
    forall i | 0 <= i <= |parts| ensures U32At(doc, start + 9 + 8 * i) == base + Len(parts + [p], i) {
      LenSnoc(parts, p, i);
    }
  }

  lemma TextsNext(keys: seq<bytes>, key: bytes)
    ensures Texts(keys + [key]) == Texts(keys) + [Text(key)]
  {
  }

  /** Every object that could be here starts with `keys`. */
  ghost predicate OnlyKeys(doc: bytes, start: nat, depth: nat, count: nat, keys: seq<bytes>) {
    forall ks, vs :: ObjectNode(doc, start, depth, ks, vs) ==> |ks| == count && keys <= ks
  }

  /** Every object that could be here has these keys, and its values start with `values`. */
  ghost predicate OnlyValues(doc: bytes, start: nat, depth: nat, keys: seq<bytes>, values: seq<Doc>) {
    forall ks, vs :: ObjectNode(doc, start, depth, ks, vs) ==> ks == keys && values <= vs
  }

  ghost predicate NoObject(doc: bytes, start: nat, depth: nat) {
    forall ks, vs :: !ObjectNode(doc, start, depth, ks, vs)
  }

  lemma NextKey(doc: bytes, start: nat, depth: nat, keys: seq<bytes>, ks: seq<bytes>, vs: seq<Doc>)
    requires ObjectNode(doc, start, depth, ks, vs) && keys < ks
    ensures start + ObjectHeader(|ks|) <= |doc|
    ensures var at := ObjectHeader(|ks|) + |Flatten(Texts(keys))|;
            U32At(doc, start + 5 + 8 * |keys|) == at && TextAt(doc, start + at, ks[|keys|])
    ensures keys != [] ==> Less(keys[|keys| - 1], ks[|keys|])
  {
    hide TextAt, Flatten, U32At, ObjectAt, Utf8, Less;
    KeyAt(doc, start, depth, ks, vs, |keys|);
    assert Texts(ks)[..|keys|] == Texts(keys);
    assert keys != [] ==> Less(ks[|keys| - 1], ks[|keys|]);
  }

  lemma NextValue(doc: bytes, start: nat, depth: nat, keys: seq<bytes>, values: seq<Doc>, vs: seq<Doc>)
    requires ObjectNode(doc, start, depth, keys, vs) && values < vs && AllWellFormed(values, depth + 1)
    ensures start + ObjectHeader(|keys|) <= |doc|
    ensures var at := ObjectHeader(|keys|) + |Flatten(Texts(keys))| + |Flatten(Encodings(values))|;
            U32At(doc, start + 9 + 8 * |values|) == at && IsAt(doc, start + at, depth + 1, vs[|values|])
  {
    hide IsAt, Encode, Flatten, U32At, ObjectAt;
    ValueAt(doc, start, depth, keys, vs, |values|);
    assert Encodings(vs)[..|values|] == Encodings(values);
  }

  /** Each of the key loop's refusals is right: no object is there. */
  lemma KeyRefuted(doc: bytes, start: nat, depth: nat, count: nat, keys: seq<bytes>, r: Option<bytes>)
    requires OnlyKeys(doc, start, depth, count, keys) && |keys| < count && start + ObjectHeader(count) <= |doc|
    requires var at := ObjectHeader(count) + |Flatten(Texts(keys))|;
             || U32At(doc, start + 5 + 8 * |keys|) != at
             || (TextDecoded(doc, start + at, r) && (r.None? || (keys != [] && !Less(keys[|keys| - 1], r.value))))
    ensures NoObject(doc, start, depth)
  {
    hide TextAt, Flatten, U32At, ObjectNode, Less;
    var at := ObjectHeader(count) + |Flatten(Texts(keys))|;
    forall ks, vs ensures !ObjectNode(doc, start, depth, ks, vs) {
      if ObjectNode(doc, start, depth, ks, vs) {
        NextKey(doc, start, depth, keys, ks, vs);
        if r.Some? && TextAt(doc, start + at, r.value) {
          UniqueText(doc, start + at, r.value, ks[|keys|]);
        }
      }
    }
  }

  lemma OnlyKeysNext(doc: bytes, start: nat, depth: nat, count: nat, keys: seq<bytes>, key: bytes)
    requires OnlyKeys(doc, start, depth, count, keys) && |keys| < count
    requires TextAt(doc, start + ObjectHeader(count) + |Flatten(Texts(keys))|, key)
    ensures OnlyKeys(doc, start, depth, count, keys + [key])
  {
    hide TextAt, Flatten, U32At, ObjectNode, Less;
    forall ks, vs | ObjectNode(doc, start, depth, ks, vs) ensures |ks| == count && keys + [key] <= ks {
      NextKey(doc, start, depth, keys, ks, vs);
      UniqueText(doc, start + ObjectHeader(count) + |Flatten(Texts(keys))|, key, ks[|keys|]);
    }
  }

  /** Each of the value loop's refusals is right: no object is there. */
  lemma ValueRefuted(doc: bytes, start: nat, depth: nat, keys: seq<bytes>, values: seq<Doc>, r: Option<(Doc, nat)>)
    requires OnlyValues(doc, start, depth, keys, values) && |values| < |keys|
    requires AllWellFormed(values, depth + 1) && start + ObjectHeader(|keys|) <= |doc|
    requires var at := ObjectHeader(|keys|) + |Flatten(Texts(keys))| + |Flatten(Encodings(values))|;
             || U32At(doc, start + 9 + 8 * |values|) != at
             || (r.None? && Decoded(doc, start + at, depth + 1, r))
    ensures NoObject(doc, start, depth)
  {
    hide IsAt, Encode, Flatten, U32At, ObjectNode;
    forall ks, vs ensures !ObjectNode(doc, start, depth, ks, vs) {
      if ObjectNode(doc, start, depth, ks, vs) {
        ObjectArity(doc, start, depth, ks, vs);
        NextValue(doc, start, depth, keys, values, vs);
      }
    }
  }

  lemma OnlyValuesNext(doc: bytes, start: nat, depth: nat, keys: seq<bytes>, values: seq<Doc>, v: Doc)
    requires OnlyValues(doc, start, depth, keys, values) && |values| < |keys| && AllWellFormed(values, depth + 1)
    requires IsAt(doc, start + ObjectHeader(|keys|) + |Flatten(Texts(keys))| + |Flatten(Encodings(values))|, depth + 1, v)
    ensures OnlyValues(doc, start, depth, keys, values + [v])
  {
    hide IsAt, Encode, Flatten, U32At, ObjectNode;
    var at := ObjectHeader(|keys|) + |Flatten(Texts(keys))| + |Flatten(Encodings(values))|;
    forall ks, vs | ObjectNode(doc, start, depth, ks, vs) ensures ks == keys && values + [v] <= vs {
      ObjectArity(doc, start, depth, ks, vs);
      NextValue(doc, start, depth, keys, values, vs);
      UniqueAt(doc, start + at, depth + 1, v, vs[|values|]);
    }
  }

  lemma ObjectArity(doc: bytes, start: nat, depth: nat, keys: seq<bytes>, values: seq<Doc>)
    requires ObjectNode(doc, start, depth, keys, values)
    ensures |keys| == |values|
  {
  }

  /** The key loop: the keys of the one object that can be here, or that there is none. */
  method ReadKeys(doc: bytes, start: nat, depth: nat, count: nat) returns (r: Option<seq<bytes>>, expected: nat)
    requires start + ObjectHeader(count) <= |doc| && OnlyKeys(doc, start, depth, count, [])
    ensures r.None? ==> NoObject(doc, start, depth)
    ensures r.Some? ==> |r.value| == count && GoodKeys(r.value)
    ensures r.Some? ==> KeysRead(doc, start, count, Texts(r.value)) && OnlyKeys(doc, start, depth, count, r.value)
    ensures r.Some? ==> expected == ObjectHeader(count) + |Flatten(Texts(r.value))|
  {
    hide U32At, Flatten, ObjectNode, OnlyKeys, NoObject, Occurs, KeysRead, Utf8, Less;
    var index, keys := 0, [];
    expected := ObjectHeader(count);
    NoFieldsRead(doc, start, count);
    while index < count
      invariant index == |keys| <= count && GoodKeys(keys)
      invariant expected == ObjectHeader(count) + |Flatten(Texts(keys))|
      invariant KeysRead(doc, start, count, Texts(keys))
      invariant OnlyKeys(doc, start, depth, count, keys)
    {
      var keyOffset := U32At(doc, start + 5 + 8 * index);
      if keyOffset != expected {
        KeyRefuted(doc, start, depth, count, keys, None);
        return None, expected;
      }
      var text := DecodeText(doc, start + keyOffset);
      if text.None? || (keys != [] && !Less(keys[index - 1], text.value)) {
        KeyRefuted(doc, start, depth, count, keys, text);
        return None, expected;
      }
      var key := text.value;
      KeysReadNext(doc, start, count, Texts(keys), Text(key));
      TextsNext(keys, key);
      OnlyKeysNext(doc, start, depth, count, keys, key);
      keys, expected, index := keys + [key], keyOffset + 4 + |key|, index + 1;
    }
    r := Some(keys);
  }

  lemma NoFieldsRead(doc: bytes, start: nat, count: nat)
    requires start + ObjectHeader(count) <= |doc|
    ensures KeysRead(doc, start, count, Texts([])) && Flatten(Texts([])) == []
  {
    assert Texts([]) == [];
  }

  /** The value loop: the values of the one object that can be here, or that there is none. */
  method ReadValues(doc: bytes, start: nat, depth: nat, keys: seq<bytes>, base: nat)
    returns (r: Option<seq<Doc>>, expected: nat)
    requires depth <= MAX_DEPTH && start + ObjectHeader(|keys|) <= |doc| && start + base <= |doc|
    requires base == ObjectHeader(|keys|) + |Flatten(Texts(keys))| && OnlyValues(doc, start, depth, keys, [])
    ensures r.None? ==> NoObject(doc, start, depth)
    ensures r.Some? ==> |r.value| == |keys| && AllWellFormed(r.value, depth + 1)
    ensures r.Some? ==> ValuesRead(doc, start, |keys|, base, Encodings(r.value))
    ensures r.Some? ==> OnlyValues(doc, start, depth, keys, r.value)
    ensures r.Some? ==> expected == base + |Flatten(Encodings(r.value))|
    decreases MAX_DEPTH + 1 - depth, 0
  {
    hide U32At, Flatten, ObjectNode, OnlyValues, NoObject, Encode, Occurs, ValuesRead;
    var index, values := 0, [];
    expected := base;
    NoValuesRead(doc, start, |keys|, base);
    while index < |keys|
      invariant index == |values| <= |keys| && AllWellFormed(values, depth + 1)
      invariant expected == base + |Flatten(Encodings(values))|
      invariant ValuesRead(doc, start, |keys|, base, Encodings(values))
      invariant OnlyValues(doc, start, depth, keys, values)
    {
      var valueOffset := U32At(doc, start + 9 + 8 * index);
      if valueOffset != expected {
        ValueRefuted(doc, start, depth, keys, values, None);
        return None, expected;
      }
      var node := DecodeNode(doc, start + valueOffset, depth + 1);
      if node.None? {
        ValueRefuted(doc, start, depth, keys, values, node);
        return None, expected;
      }
      var value := node.value.0;
      ValuesReadNext(doc, start, |keys|, base, Encodings(values), Encode(value));
      EncodingsNext(values, value);
      OnlyValuesNext(doc, start, depth, keys, values, value);
      values, expected, index := values + [value], node.value.1 - start, index + 1;
    }
    r := Some(values);
  }

  lemma NoValuesRead(doc: bytes, start: nat, count: nat, base: nat)
    requires start + ObjectHeader(count) <= |doc| && start + base <= |doc|
    ensures ValuesRead(doc, start, count, base, Encodings([])) && Flatten(Encodings([])) == []
  {
    assert Encodings([]) == [];
  }

  lemma OnlyObjects(doc: bytes, start: nat, depth: nat)
    requires start < |doc| && doc[start] == 7
    ensures forall t :: IsAt(doc, start, depth, t) <==> t.Obj? && ObjectNode(doc, start, depth, t.keys, t.values)
  {
    forall t ensures IsAt(doc, start, depth, t) <==> t.Obj? && ObjectNode(doc, start, depth, t.keys, t.values) {
      if IsAt(doc, start, depth, t) {
        TagAt(doc, start, depth, t);
      }
      if t.Obj? {
        ObjectIsAt(doc, start, depth, t.keys, t.values);
      }
    }
  }

  lemma ObjectHeaderRead(doc: bytes, start: nat, depth: nat, keys: seq<bytes>, values: seq<Doc>)
    requires ObjectNode(doc, start, depth, keys, values)
    ensures start + 5 <= start + ObjectHeader(|keys|) <= |doc| && U32At(doc, start + 1) == |keys|
    ensures U32At(doc, start + 5 + 8 * |keys|) ==
            ObjectHeader(|keys|) + |Flatten(Texts(keys))| + |Flatten(Encodings(values))|
  {
    hide U32At, Flatten, Encode, PartsAt, KeyTableAt, ValueTableAt;
    var parts := Encodings(values);
    assert parts[..|parts|] == parts;
  }

  lemma ObjectHeaders(doc: bytes, start: nat, depth: nat)
    ensures forall ks, vs :: ObjectNode(doc, start, depth, ks, vs) ==>
              start + 5 <= start + ObjectHeader(|ks|) <= |doc| && U32At(doc, start + 1) == |ks|
  {
    hide U32At, ObjectNode;
    forall ks, vs | ObjectNode(doc, start, depth, ks, vs)
      ensures start + 5 <= start + ObjectHeader(|ks|) <= |doc| && U32At(doc, start + 1) == |ks|
    {
      ObjectHeaderRead(doc, start, depth, ks, vs);
    }
  }

  lemma ObjectEndRefuted(doc: bytes, start: nat, depth: nat, keys: seq<bytes>, values: seq<Doc>)
    requires AllWellFormed(values, depth + 1) && OnlyValues(doc, start, depth, keys, values) && |keys| == |values|
    requires start + ObjectHeader(|keys|) <= |doc|
    requires U32At(doc, start + 5 + 8 * |keys|) !=
             ObjectHeader(|keys|) + |Flatten(Texts(keys))| + |Flatten(Encodings(values))|
    ensures NoObject(doc, start, depth)
  {
    hide U32At, Flatten, Encode, ObjectNode;
    forall ks, vs ensures !ObjectNode(doc, start, depth, ks, vs) {
      if ObjectNode(doc, start, depth, ks, vs) {
        ObjectArity(doc, start, depth, ks, vs);
        assert ks == keys && vs == values;
        ObjectHeaderRead(doc, start, depth, ks, vs);
      }
    }
  }

  lemma FieldsReadAll(doc: bytes, start: nat, texts: seq<bytes>, parts: seq<bytes>)
    requires |texts| == |parts| && start < |doc| && doc[start] == 7
    requires KeysRead(doc, start, |texts|, texts) && U32At(doc, start + 1) == |texts|
    requires ValuesRead(doc, start, |texts|, ObjectHeader(|texts|) + |Flatten(texts)|, parts)
    requires U32At(doc, start + 5 + 8 * |texts|) == ObjectHeader(|texts|) + |Flatten(texts)| + |Flatten(parts)|
    ensures ObjectAt(doc, start, texts, parts)
    ensures |ObjectBytes(texts, parts)| == ObjectHeader(|texts|) + |Flatten(texts)| + |Flatten(parts)|
  {
    hide U32At, PartsAt, Flatten;
    assert parts[..|parts|] == parts;
    ObjectSize(texts, parts);
  }

  lemma ObjectComplete(doc: bytes, start: nat, depth: nat, keys: seq<bytes>, values: seq<Doc>)
    requires depth <= MAX_DEPTH && |keys| == |values| && AllWellFormed(values, depth + 1) && GoodKeys(keys)
    requires start < |doc| && doc[start] == 7
    requires KeysRead(doc, start, |keys|, Texts(keys)) && U32At(doc, start + 1) == |keys|
    requires ValuesRead(doc, start, |keys|, ObjectHeader(|keys|) + |Flatten(Texts(keys))|, Encodings(values))
    requires U32At(doc, start + 5 + 8 * |keys|) ==
             ObjectHeader(|keys|) + |Flatten(Texts(keys))| + |Flatten(Encodings(values))|
    ensures IsAt(doc, start, depth, Obj(keys, values))
    ensures |Encode(Obj(keys, values))| == U32At(doc, start + 5 + 8 * |keys|)
    ensures start + |Encode(Obj(keys, values))| <= |doc|
  {
    hide U32At, Flatten, KeysRead, ValuesRead, ObjectAt, ObjectBytes;
    FieldsReadAll(doc, start, Texts(keys), Encodings(values));
    ObjectIsAt(doc, start, depth, keys, values);
  }

  lemma KeysEnd(doc: bytes, start: nat, texts: seq<bytes>)
    requires KeysRead(doc, start, |texts|, texts)
    ensures start + ObjectHeader(|texts|) + |Flatten(texts)| <= |doc|
  {
    hide U32At;
    PartsOccur(doc, start + ObjectHeader(|texts|), texts);
  }

  method DecodeObject(doc: bytes, start: nat, depth: nat) returns (r: Option<(Doc, nat)>)
    requires depth <= MAX_DEPTH && start < |doc| && doc[start] == 7
    ensures Decoded(doc, start, depth, r)
    decreases MAX_DEPTH + 1 - depth, 1
  {
    hide U32At, Flatten, Encode, Occurs, PartsAt, KeysRead, ValuesRead, ObjectNode, IsAt;
    OnlyObjects(doc, start, depth);
    ObjectHeaders(doc, start, depth);
    var count := ReadU32(doc, start + 1);
    if count.None? || start + ObjectHeader(count.value) > |doc| {
      return None;
    }
    var keys, base := ReadKeys(doc, start, depth, count.value);
    if keys.None? {
      return None;
    }
    KeysEnd(doc, start, Texts(keys.value));
    var values, expected := ReadValues(doc, start, depth, keys.value, base);
    if values.None? {
      return None;
    }
    var total := U32At(doc, start + 5 + 8 * count.value);
    if total != expected {
      ObjectEndRefuted(doc, start, depth, keys.value, values.value);
      return None;
    }
    ObjectComplete(doc, start, depth, keys.value, values.value);
    if start + total > |doc| {
      return None;
    }
    return Some((Obj(keys.value, values.value), start + total));
  }

  function U64At(doc: bytes, pos: nat): (n: nat)
    requires pos + 8 <= |doc|
    ensures n < U64_LIMIT
  {
    RadixValues();
    FromLE(doc[pos..pos + 8])
  }

  lemma NoLeaf(doc: bytes, start: nat, depth: nat)
    requires start < |doc|
    requires || (3 <= doc[start] <= 4 && start + 9 > |doc|)
             || (doc[start] == 4 && start + 9 <= |doc| && !Finite(doc[start + 1..start + 9]))
             || (doc[start] == 5 && TextDecoded(doc, start + 1, None))
    ensures forall t :: !IsAt(doc, start, depth, t)
  {
    hide Utf8, U32At;
    forall t ensures !IsAt(doc, start, depth, t) {
      assert doc[start] == 5 && t.Str? ==> !TextAt(doc, start + 1, t.text);
      if IsAt(doc, start, depth, t) {
        TagAt(doc, start, depth, t);
        LeafAt(doc, start, depth, t);
      }
    }
  }

  lemma IntHere(doc: bytes, start: nat, depth: nat)
    requires depth <= MAX_DEPTH && start + 9 <= |doc| && doc[start] == 3
    ensures var t := Int(Signed(U64At(doc, start + 1))); IsAt(doc, start, depth, t) && |Encode(t)| == 9
  {
    LEOfFromLE(doc[start + 1..start + 9]);
    LeafAt(doc, start, depth, Int(Signed(U64At(doc, start + 1))));
  }

  /** Reads a leaf: the tags below 6. */
  method DecodeLeaf(doc: bytes, start: nat, depth: nat) returns (r: Option<(Doc, nat)>)
    requires depth <= MAX_DEPTH && start < |doc| && doc[start] < 6
    ensures Decoded(doc, start, depth, r)
  {
    match doc[start] {
      case 0 =>
        r := Some((Null, start + 1));
        LeafAt(doc, start, depth, Null);
      case 1 =>
        r := Some((False, start + 1));
        LeafAt(doc, start, depth, False);
      case 2 =>
        r := Some((True, start + 1));
        LeafAt(doc, start, depth, True);
      case 3 =>
        r := DecodeInt(doc, start, depth);
      case 4 =>
        r := DecodeFloat(doc, start, depth);
      case _ =>
        r := DecodeStr(doc, start, depth);
    }
  }

  method DecodeInt(doc: bytes, start: nat, depth: nat) returns (r: Option<(Doc, nat)>)
    requires depth <= MAX_DEPTH && start < |doc| && doc[start] == 3
    ensures Decoded(doc, start, depth, r)
  {
    hide IsAt, Encode;
    if start + 9 > |doc| {
      NoLeaf(doc, start, depth);
      return None;
    }
    IntHere(doc, start, depth);
    return Some((Int(Signed(U64At(doc, start + 1))), start + 9));
  }

  method DecodeFloat(doc: bytes, start: nat, depth: nat) returns (r: Option<(Doc, nat)>)
    requires depth <= MAX_DEPTH && start < |doc| && doc[start] == 4
    ensures Decoded(doc, start, depth, r)
  {
    hide IsAt;
    if start + 9 > |doc| || !Finite(doc[start + 1..start + 9]) {
      NoLeaf(doc, start, depth);
      return None;
    }
    var bits := doc[start + 1..start + 9];
    LeafAt(doc, start, depth, Float(bits));
    return Some((Float(bits), start + 9));
  }

  method DecodeStr(doc: bytes, start: nat, depth: nat) returns (r: Option<(Doc, nat)>)
    requires depth <= MAX_DEPTH && start < |doc| && doc[start] == 5
    ensures Decoded(doc, start, depth, r)
  {
    hide IsAt, Utf8, Occurs;
    var text := DecodeText(doc, start + 1);
    if text.None? {
      NoLeaf(doc, start, depth);
      return None;
    }
    LeafAt(doc, start, depth, Str(text.value));
    return Some((Str(text.value), start + 5 + |text.value|));
  }

  method DecodeNode(doc: bytes, start: nat, depth: nat) returns (r: Option<(Doc, nat)>)
    requires depth <= MAX_DEPTH + 1
    ensures Decoded(doc, start, depth, r)
    decreases MAX_DEPTH + 1 - depth, 2
  {
    hide IsAt, Encode;
    if depth > MAX_DEPTH || start >= |doc| {
      NoSuchTag(doc, start, depth);
      return None;
    }
    match doc[start] {
      case 6 => r := DecodeArray(doc, start, depth);
      case 7 => r := DecodeObject(doc, start, depth);
      case tag =>
        if tag < 6 {
          r := DecodeLeaf(doc, start, depth);
        } else {
          NoSuchTag(doc, start, depth);
          r := None;
        }
    }
  }

  lemma NoSuchTag(doc: bytes, start: nat, depth: nat)
    requires depth > MAX_DEPTH || start >= |doc| || doc[start] > 7
    ensures forall t :: !IsAt(doc, start, depth, t)
  {
    forall t ensures !IsAt(doc, start, depth, t) {
      if IsAt(doc, start, depth, t) {
        TagAt(doc, start, depth, t);
      }
    }
  }

  /**
   Decodes a whole document. It accepts exactly the encodings of well-formed documents, and returns
   the document that was encoded: no other byte string is a second form of it.
   */
  method Decode(doc: bytes) returns (r: Option<Doc>)
    ensures forall t :: r == Some(t) <==> WellFormed(t, 0) && doc == Encode(t)
  {
    hide Encode, Representable;
    var node := DecodeNode(doc, 0, 0);
    WholeDocument(doc, node);
    if node.None? || node.value.1 != |doc| {
      return None;
    }
    return Some(node.value.0);
  }

  lemma WholeDocument(doc: bytes, r: Option<(Doc, nat)>)
    requires Decoded(doc, 0, 0, r)
    ensures forall t :: WellFormed(t, 0) && doc == Encode(t) <==> r == Some((t, |doc|))
  {
    hide Encode, Representable;
    assert doc[0..|doc|] == doc;
    forall t ensures WellFormed(t, 0) && doc == Encode(t) <==> r == Some((t, |doc|)) {
      if WellFormed(t, 0) && doc == Encode(t) {
        assert IsAt(doc, 0, 0, t);
        UniqueAt(doc, 0, 0, t, r.value.0);
      }
    }
  }
}
