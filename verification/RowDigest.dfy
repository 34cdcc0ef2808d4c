/**
 Comparing two tables by sorted row digests. The bytes hashed for a row determine the row, so with a
 collision-free hash equal digests mean equal multisets of rows.
 */
module RowDigest {
  import opened Bytes
  import opened Sorting
  import opened Values

  /** The values the engine can hold: 64-bit numbers, 16-byte uuids, lengths that fit in 64 bits. */
  predicate Storable(v: Value) {
    match v
    case Int(n) => I64(n)
    case DateTime(n) => I64(n)
    case Float(bits) => bits < U64_LIMIT
    case Str(s) => |s| < U64_LIMIT
    case Blob(s) => |s| < U64_LIMIT
    case Json(s) => |s| < U64_LIMIT
    case Uuid(id) => |id| == 16
    case _ => true
  }

  predicate StorableRow(row: Row) {
    |row| < U64_LIMIT && forall i :: 0 <= i < |row| ==> Storable(row[i])
  }

  function TypeId(v: Value): byte {
    match v
    case Empty => 0
    case Int(_) => 1
    case Float(_) => 2
    case Bool(_) => 3
    case Str(_) => 4
    case DateTime(_) => 5
    case Uuid(_) => 6
    case Blob(_) => 7
    case Json(_) => 8
  }

  function Counted(s: bytes): bytes {
    LE(|s|, 8) + s
  }

  function Body(v: Value): bytes
    requires Storable(v)
  {
    match v
    case Int(n) => LE(Unsigned(n), 8)
    case DateTime(n) => LE(Unsigned(n), 8)
    case Float(bits) => LE(bits, 8)
    case Bool(b) => [if b then 1 else 0]
    case Str(s) => Counted(s)
    case Uuid(id) => id
    case Blob(s) => Counted(s)
    case Json(s) => Counted(s)
    case Empty => []
  }

  /** What one value feeds to the hasher. */
  function ValueBytes(v: Value): bytes
    requires Storable(v)
  {
    [TypeId(v)] + Body(v)
  }

  function ValuesBytes(vs: seq<Value>): bytes
    requires forall i :: 0 <= i < |vs| ==> Storable(vs[i])
  {
    if vs == [] then [] else ValueBytes(vs[0]) + ValuesBytes(vs[1..])
  }

  function RowBytes(row: Row): bytes
    requires StorableRow(row)
  {
    LE(|row|, 8) + ValuesBytes(row)
  }

  // ---------- the bytes determine the row ----------

  lemma SplitEqual(a: bytes, x: bytes, b: bytes, y: bytes)
    requires a + x == b + y && |a| == |b|
    ensures a == b && x == y
  {
    assert (a + x)[..|a|] == a && (b + y)[..|b|] == b;
    assert (a + x)[|a|..] == x && (b + y)[|b|..] == y;
  }

  lemma NumberFirst(m: nat, x: bytes, n: nat, y: bytes)
    requires m < U64_LIMIT && n < U64_LIMIT && LE(m, 8) + x == LE(n, 8) + y
    ensures m == n && x == y
  {
    hide LE;
    SplitEqual(LE(m, 8), x, LE(n, 8), y);
    RadixValues();
    LEInjective(m, n, 8);
  }

  lemma CountedFirst(s: bytes, x: bytes, t: bytes, y: bytes)
    requires |s| < U64_LIMIT && |t| < U64_LIMIT && Counted(s) + x == Counted(t) + y
    ensures s == t && x == y
  {
    hide LE;
    assert Counted(s) + x == LE(|s|, 8) + (s + x);
    assert Counted(t) + y == LE(|t|, 8) + (t + y);
    NumberFirst(|s|, s + x, |t|, t + y);
    SplitEqual(s, x, t, y);
  }

  lemma ValueFirst(v: Value, x: bytes, w: Value, y: bytes)
    requires Storable(v) && Storable(w) && ValueBytes(v) + x == ValueBytes(w) + y
    ensures v == w && x == y
  {
    hide LE;
    assert ValueBytes(v) + x == [TypeId(v)] + (Body(v) + x);
    assert ValueBytes(w) + y == [TypeId(w)] + (Body(w) + y);
    SplitEqual([TypeId(v)], Body(v) + x, [TypeId(w)], Body(w) + y);
    assert [TypeId(v)][0] == [TypeId(w)][0];
    match v {
      case Int(n) => NumberFirst(Unsigned(n), x, Unsigned(w.v), y);
      case DateTime(n) => NumberFirst(Unsigned(n), x, Unsigned(w.micros), y);
      case Float(bits) => NumberFirst(bits, x, w.bits, y);
      case Bool(b) =>
        SplitEqual(Body(v), x, Body(w), y);
        assert Body(v)[0] == Body(w)[0];
      case Str(s) => CountedFirst(s, x, w.text, y);
      case Uuid(id) => SplitEqual(id, x, w.id, y);
      case Blob(s) => CountedFirst(s, x, w.data, y);
      case Json(s) => CountedFirst(s, x, w.doc, y);
      case Empty =>
        assert Body(v) + x == x && Body(w) + y == y;
    }
  }

  lemma {:induction false} ValuesInjective(a: seq<Value>, b: seq<Value>)
    requires |a| == |b|
    requires (forall i :: 0 <= i < |a| ==> Storable(a[i])) && (forall i :: 0 <= i < |b| ==> Storable(b[i]))
    requires ValuesBytes(a) == ValuesBytes(b)
    ensures a == b
  {
    hide ValueBytes;
    if a != [] {
      ValueFirst(a[0], ValuesBytes(a[1..]), b[0], ValuesBytes(b[1..]));
      ValuesInjective(a[1..], b[1..]);
      assert a == [a[0]] + a[1..] && b == [b[0]] + b[1..];
    }
  }

  /** Different rows feed different bytes to the hasher. */
  lemma RowBytesInjective(a: Row, b: Row)
    requires StorableRow(a) && StorableRow(b) && RowBytes(a) == RowBytes(b)
    ensures a == b
  {
    NumberFirst(|a|, ValuesBytes(a), |b|, ValuesBytes(b));
    ValuesInjective(a, b);
  }

  // ---------- digests of whole tables ----------

  predicate StorableTable(rows: seq<Row>) {
    forall i :: 0 <= i < |rows| ==> StorableRow(rows[i])
  }

  function Digests(hash: bytes -> string, rows: seq<Row>): (ds: seq<string>)
    requires StorableTable(rows)
    ensures |ds| == |rows|
  {
    seq(|rows|, i requires 0 <= i < |rows| => hash(RowBytes(rows[i])))
  }

  lemma {:induction false} DigestCount(hash: bytes -> string, rows: seq<Row>, d: string, row: Row)
    requires StorableTable(rows) && CollisionFree(hash) && StorableRow(row) && d == hash(RowBytes(row))
    ensures multiset(Digests(hash, rows))[d] == multiset(rows)[row]
  {
    hide RowBytes;
    if rows != [] {
      var n := |rows| - 1;
      DigestCount(hash, rows[..n], d, row);
      assert rows == rows[..n] + [rows[n]];
      assert Digests(hash, rows) == Digests(hash, rows[..n]) + [hash(RowBytes(rows[n]))];
      if hash(RowBytes(rows[n])) == d {
        RowBytesInjective(rows[n], row);
      }
    }
  }

  /** Equal digests, counted with multiplicity, mean equal rows counted with multiplicity. */
  lemma DigestsCompareRows(hash: bytes -> string, a: seq<Row>, b: seq<Row>)
    requires StorableTable(a) && StorableTable(b) && CollisionFree(hash)
    ensures multiset(Digests(hash, a)) == multiset(Digests(hash, b)) <==> multiset(a) == multiset(b)
  {
    var da, db := Digests(hash, a), Digests(hash, b);
    if multiset(da) == multiset(db) {
      forall row ensures multiset(a)[row] == multiset(b)[row] {
        if row in a || row in b {
          assert StorableRow(row);
          DigestCount(hash, a, hash(RowBytes(row)), row);
          DigestCount(hash, b, hash(RowBytes(row)), row);
        }
      }
    }
    if multiset(a) == multiset(b) {
      forall d ensures multiset(da)[d] == multiset(db)[d] {
        if i :| 0 <= i < |a| && da[i] == d {
          DigestCount(hash, a, d, a[i]);
          DigestCount(hash, b, d, a[i]);
        } else if i :| 0 <= i < |b| && db[i] == d {
          DigestCount(hash, a, d, b[i]);
          DigestCount(hash, b, d, b[i]);
        }
      }
    }
  }

  /** Digests of every row, sorted. */
  method TableDigest(hash: bytes -> string, le: (string, string) -> bool, rows: seq<Row>) returns (digest: seq<string>)
    requires StorableTable(rows) && TotalOrder(le)
    ensures Sorted(le, digest) && multiset(digest) == multiset(Digests(hash, rows))
  {
    var ds := [];
    for i := 0 to |rows|
      invariant ds == Digests(hash, rows[..i])
    {
      ds := ds + [hash(RowBytes(rows[i]))];
    }
    assert rows[..|rows|] == rows;
    SortSorts(le, ds);
    digest := Sort(le, ds);
  }

  /** Two tables compare equal if and only if they hold the same rows, each as often. */
  method SameTables(hash: bytes -> string, le: (string, string) -> bool, a: seq<Row>, b: seq<Row>) returns (same: bool)
    requires StorableTable(a) && StorableTable(b) && TotalOrder(le) && CollisionFree(hash)
    ensures same <==> multiset(a) == multiset(b)
  {
    var da := TableDigest(hash, le, a);
    var db := TableDigest(hash, le, b);
    DigestsCompareRows(hash, a, b);
    if multiset(da) == multiset(db) {
      SortedUnique(le, da, db);
    }
    same := da == db;
  }
}
