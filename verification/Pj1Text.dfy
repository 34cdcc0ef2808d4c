/**
 What the basic predicates of PJ1 mean: well-formed UTF-8 is the encoding of some code points, keys are
 ordered as byte strings are compared, and a finite double is one whose exponent is not all ones.
 */
module Pj1Text {
  import opened Bytes
  import opened Pj1

  // ---------- UTF-8 ----------

  /** Code points that are not surrogates. */
  predicate Scalar(n: nat) {
    n < 0xD800 || 0xE000 <= n < 0x11_0000
  }

  function EncodeScalar(n: nat): (s: bytes)
    requires Scalar(n)
    ensures 1 <= |s| <= 4
  {
    if n < 0x80 then [n]
    else if n < 0x800 then [0xC0 + n / 64, 0x80 + n % 64]
    else if n < 0x1_0000 then [0xE0 + n / 64 / 64, 0x80 + n / 64 % 64, 0x80 + n % 64]
    else [0xF0 + n / 64 / 64 / 64, 0x80 + n / 64 / 64 % 64, 0x80 + n / 64 % 64, 0x80 + n % 64]
  }

  predicate Scalars(ns: seq<nat>) {
    forall i :: 0 <= i < |ns| ==> Scalar(ns[i])
  }

  function EncodeScalars(ns: seq<nat>): bytes
    requires Scalars(ns)
  {
    if ns == [] then [] else EncodeScalar(ns[0]) + EncodeScalars(ns[1..])
  }

  lemma ScalarIsSequence(n: nat, rest: bytes)
    requires Scalar(n)
    ensures SequenceLength(EncodeScalar(n) + rest) == |EncodeScalar(n)|
  {
    var s := EncodeScalar(n) + rest;
    if n >= 0x1_0000 {
      assert s[0] == 0xF0 + n / 64 / 64 / 64 && s[1] == 0x80 + n / 64 / 64 % 64;
    } else if n >= 0x800 {
      assert s[0] == 0xE0 + n / 64 / 64 && s[1] == 0x80 + n / 64 % 64;
    }
  }

  /** The six bits a continuation byte carries, put after `n`. */
  function Shifted(n: int, b: byte): int {
    64 * n + (b as int - 0x80)
  }

  lemma Unshifted(n: int, b: byte)
    requires Continuation(b)
    ensures Shifted(n, b) / 64 == n && 0x80 + Shifted(n, b) % 64 == b
  {
  }

  /** The code point of the sequence at the front. */
  function ScalarAt(s: bytes): int
    requires s != [] && SequenceLength(s) > 0
  {
    match SequenceLength(s)
    case 1 => s[0]
    case 2 => Shifted(s[0] as int - 0xC0, s[1])
    case 3 => Shifted(Shifted(s[0] as int - 0xE0, s[1]), s[2])
    case _ => Shifted(Shifted(Shifted(s[0] as int - 0xF0, s[1]), s[2]), s[3])
  }

  lemma ScalarRange(s: bytes)
    requires s != [] && SequenceLength(s) > 0
    ensures ScalarAt(s) >= 0 && Scalar(ScalarAt(s))
    ensures var n := ScalarAt(s);
            match SequenceLength(s)
            case 1 => n < 0x80
            case 2 => 0x80 <= n < 0x800
            case 3 => 0x800 <= n < 0x1_0000
            case _ => 0x1_0000 <= n
  {
  }

  lemma SequenceIsScalar(s: bytes)
    requires s != [] && SequenceLength(s) > 0
    ensures ScalarAt(s) >= 0 && Scalar(ScalarAt(s)) && EncodeScalar(ScalarAt(s)) == s[..SequenceLength(s)]
  {
    ScalarRange(s);
    hide Shifted;
    match SequenceLength(s) {
      case 1 =>
      case 2 => Unshifted(s[0] as int - 0xC0, s[1]);
      case 3 =>
        var n := Shifted(s[0] as int - 0xE0, s[1]);
        Unshifted(s[0] as int - 0xE0, s[1]);
        Unshifted(n, s[2]);
      case _ =>
        var n := Shifted(s[0] as int - 0xF0, s[1]);
        Unshifted(s[0] as int - 0xF0, s[1]);
        Unshifted(n, s[2]);
        Unshifted(Shifted(n, s[2]), s[3]);
    }
  }

  lemma {:induction false} EncodedIsUtf8(ns: seq<nat>)
    requires Scalars(ns)
    ensures Utf8(EncodeScalars(ns))
  {
    if ns != [] {
      EncodedIsUtf8(ns[1..]);
      var head, rest := EncodeScalar(ns[0]), EncodeScalars(ns[1..]);
      ScalarIsSequence(ns[0], rest);
      assert (head + rest)[|head|..] == rest;
    }
  }

  lemma {:induction false} Utf8IsEncoded(s: bytes) returns (ns: seq<nat>)
    requires Utf8(s)
    ensures Scalars(ns) && EncodeScalars(ns) == s
    decreases |s|
  {
    hide SequenceLength, EncodeScalar, ScalarAt, Scalar;
    ns := [];
    if s != [] {
      var n := SequenceLength(s);
      var more := Utf8IsEncoded(s[n..]);
      SequenceIsScalar(s);
      ns := [ScalarAt(s)] + more;
      assert ns[1..] == more;
      assert s == s[..n] + s[n..];
    }
  }

  /** Well-formed UTF-8 is exactly what code points encode to. */
  lemma Utf8Means(s: bytes)
    ensures Utf8(s) <==> exists ns :: Scalars(ns) && EncodeScalars(ns) == s
  {
    if Utf8(s) {
      var ns := Utf8IsEncoded(s);
    }
    forall ns | Scalars(ns) && EncodeScalars(ns) == s ensures Utf8(s) {
      EncodedIsUtf8(ns);
    }
  }

  // ---------- the order of keys ----------

  /** `a` and `b` agree up to `k`, and there `a` has the smaller byte. */
  predicate SmallerAt(a: bytes, b: bytes, k: nat) {
    k < |a| && k < |b| && a[..k] == b[..k] && a[k] < b[k]
  }

  /** Byte strings are compared byte by byte, and a proper prefix comes first. */
  lemma {:induction false} LessMeans(a: bytes, b: bytes)
    ensures Less(a, b) <==> a < b || exists k: nat :: SmallerAt(a, b, k)
    decreases |a|
  {
    if a != [] && b != [] {
      if a[0] != b[0] {
        assert a[0] < b[0] ==> SmallerAt(a, b, 0);
        forall k: nat | SmallerAt(a, b, k) ensures k == 0 {
        }
      } else {
        LessMeans(a[1..], b[1..]);
        LessTails(a, b);
      }
    }
  }

  lemma LessTails(a: bytes, b: bytes)
    requires a != [] && b != [] && a[0] == b[0]
    ensures a < b <==> a[1..] < b[1..]
    ensures (exists k: nat :: SmallerAt(a, b, k)) <==> exists k: nat :: SmallerAt(a[1..], b[1..], k)
  {
    assert a == [a[0]] + a[1..] && b == [b[0]] + b[1..];
    forall k: nat | SmallerAt(a, b, k) ensures k > 0 && SmallerAt(a[1..], b[1..], k - 1) {
      assert k > 0 ==> a[1..][..k - 1] == a[..k][1..] && b[1..][..k - 1] == b[..k][1..];
    }
    forall k: nat | SmallerAt(a[1..], b[1..], k) ensures SmallerAt(a, b, k + 1) {
      assert a[..k + 1] == [a[0]] + a[1..][..k] && b[..k + 1] == [b[0]] + b[1..][..k];
    }
  }

  // ---------- doubles ----------

  /** The eleven exponent bits of a double. */
  function Exponent(bits: bytes): nat
    requires |bits| == 8
  {
    FromLE(bits) / 0x10_0000_0000_0000 % 0x800
  }

  /** Infinities and NaNs are the doubles with all exponent bits set. */
  lemma FiniteMeans(bits: bytes)
    ensures Finite(bits) <==> |bits| == 8 && Exponent(bits) != 0x7FF
  {
    if |bits| == 8 {
      var m := bits[6] as int + 256 * bits[7] as int;
      TopBytes(bits);
      TopBits(FromLE(bits[..6]), m);
      assert m / 16 == bits[6] as int / 16 + 16 * bits[7] as int;
    }
  }

  lemma TopBytes(s: bytes)
    requires |s| == 8
    ensures FromLE(s[..6]) < 0x1_0000_0000_0000
    ensures FromLE(s) == FromLE(s[..6]) + 0x1_0000_0000_0000 * (s[6] as int + 256 * s[7] as int)
  {
    hide LE;
    var top := [s[6], s[7]];
    assert s == s[..6] + top;
    FromLEConcat(s[..6], top);
    assert Radix(6) == 0x1_0000_0000_0000 by {
      RadixValues();
      assert Radix(5) == 256 * Radix(4) && Radix(6) == 256 * Radix(5);
    }
    assert top[1..] == [s[7]] && [s[7]][1..] == [];
    assert FromLE([s[7]]) == s[7] && FromLE(top) == s[6] as int + 256 * s[7] as int;
  }

  lemma TopBits(low: nat, m: nat)
    requires low < 0x1_0000_0000_0000
    ensures (low + 0x1_0000_0000_0000 * m) / 0x10_0000_0000_0000 == m / 16
  {
    var q, r := m / 16, m % 16;
    assert low + 0x1_0000_0000_0000 * m == 0x10_0000_0000_0000 * q + (low + 0x1_0000_0000_0000 * r);
  }

  lemma Distribute(x: nat, r: nat, y: nat)
    ensures 256 * (x + r * y) == 256 * x + (256 * r) * y
  {
  }

  lemma {:induction false} FromLEConcat(a: bytes, b: bytes)
    ensures FromLE(a + b) == FromLE(a) + Radix(|a|) * FromLE(b)
  {
    if a == [] {
      assert a + b == b;
    } else {
      FromLEConcat(a[1..], b);
      assert (a + b)[1..] == a[1..] + b && (a + b)[0] == a[0];
      var x, y, r := FromLE(a[1..]), FromLE(b), Radix(|a| - 1);
      assert FromLE(a + b) == a[0] + 256 * (x + r * y);
      Distribute(x, r, y);
    }
  }
}
