/**
 Bytes and little-endian integers, as every PowDB file and wire format writes them.
 */
module Bytes {

  type byte = x: int | 0 <= x < 256

  type bytes = seq<byte>

  const U16_LIMIT := 0x1_0000
  const U32_LIMIT := 0x1_0000_0000
  const U64_LIMIT := 0x1_0000_0000_0000_0000
  const I64_LIMIT := 0x8000_0000_0000_0000

  predicate I64(i: int) {
    -I64_LIMIT <= i < I64_LIMIT
  }

  /** The two's complement of `i` in 64 bits. */
  function Unsigned(i: int): (raw: nat)
    ensures raw < U64_LIMIT
    ensures I64(i) ==> raw == if i < 0 then i + U64_LIMIT else i
  {
    i % U64_LIMIT
  }

  /** The number whose two's complement in 64 bits is `raw`. */
  function Signed(raw: nat): (i: int)
    ensures raw < U64_LIMIT ==> I64(i) && Unsigned(i) == raw
  {
    if raw >= I64_LIMIT then raw - U64_LIMIT else raw
  }

  /** A content digest that tells every two byte strings apart. */
  ghost predicate CollisionFree(hash: bytes -> string) {
    forall a, b :: hash(a) == hash(b) ==> a == b
  }

  /** 256 to the power `k`: the number of values `k` bytes can hold. */
  function Radix(k: nat): (r: nat)
    ensures r >= 1
  {
    if k == 0 then 1 else 256 * Radix(k - 1)
  }

  /** The `k` low bytes of `n`, least significant first. */
  function LE(n: nat, k: nat): (s: bytes)
    ensures |s| == k
  {
    if k == 0 then [] else [n % 256] + LE(n / 256, k - 1)
  }

  /** The number whose little-endian bytes are `s`. */
  function FromLE(s: bytes): (n: nat)
    ensures n < Radix(|s|)
  {
    if s == [] then 0 else s[0] + 256 * FromLE(s[1..])
  }

  /** Reading back what was written gives the number, whenever the field can hold it. */
  lemma {:induction false} LERoundTrip(n: nat, k: nat)
    requires n < Radix(k)
    ensures FromLE(LE(n, k)) == n
  {
    if k > 0 {
      LERoundTrip(n / 256, k - 1);
      assert LE(n, k)[1..] == LE(n / 256, k - 1);
    }
  }

  /** Every byte string is the encoding of the number it decodes to. */
  lemma {:induction false} LEOfFromLE(s: bytes)
    ensures LE(FromLE(s), |s|) == s
  {
    if s == [] {
    } else {
      LEOfFromLE(s[1..]);
      assert FromLE(s) % 256 == s[0];
      assert FromLE(s) / 256 == FromLE(s[1..]);
    }
  }

  lemma LEInjective(a: nat, b: nat, k: nat)
    requires a < Radix(k) && b < Radix(k)
    requires LE(a, k) == LE(b, k)
    ensures a == b
  {
    LERoundTrip(a, k);
    LERoundTrip(b, k);
  }

  lemma RadixValues()
    ensures Radix(1) == 0x100
    ensures Radix(2) == 0x1_0000
    ensures Radix(4) == 0x1_0000_0000
    ensures Radix(8) == 0x1_0000_0000_0000_0000
  {
    assert Radix(1) == 256;
    assert Radix(2) == 256 * Radix(1);
    assert Radix(3) == 256 * Radix(2);
    assert Radix(4) == 256 * Radix(3);
    assert Radix(5) == 256 * Radix(4);
    assert Radix(6) == 256 * Radix(5);
    assert Radix(7) == 256 * Radix(6);
    assert Radix(8) == 256 * Radix(7);
  }
}
