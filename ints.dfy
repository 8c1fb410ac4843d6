/** Fixed-width machine integers, little-endian byte decoding and two's-complement views. */
module Ints {

  const TWO_8: int := 0x100
  const TWO_16: int := 0x1_0000
  const TWO_32: int := 0x1_0000_0000
  const TWO_63: int := 0x8000_0000_0000_0000
  const TWO_64: int := 0x1_0000_0000_0000_0000

  type byte = x: int | 0 <= x < TWO_8
  type u16 = x: int | 0 <= x < TWO_16
  type u32 = x: int | 0 <= x < TWO_32
  type u64 = x: int | 0 <= x < TWO_64
  type i64 = x: int | -TWO_63 <= x < TWO_63

  const MAX_U32: u32 := TWO_32 - 1
  const MAX_U64: u64 := TWO_64 - 1

  /** 256^n */
  function Pow256(n: nat): (p: nat)
    ensures p >= 1
  {
    if n == 0 then 1 else 256 * Pow256(n - 1)
  }

  /** The little-endian value of a byte string (Go's `binary.LittleEndian`). */
  function LE(bs: seq<byte>): (v: nat)
    ensures v < Pow256(|bs|)
  {
    if bs == [] then 0 else bs[0] + 256 * LE(bs[1..])
  }

  /** The n-byte little-endian encoding of v. */
  function ToLE(v: nat, n: nat): (bs: seq<byte>)
    requires v < Pow256(n)
    ensures |bs| == n
  {
    if n == 0 then [] else [v % 256] + ToLE(v / 256, n - 1)
  }

  lemma {:induction false} LEOfToLE(v: nat, n: nat)
    requires v < Pow256(n)
    ensures LE(ToLE(v, n)) == v
  {
    if n > 0 {
      LEOfToLE(v / 256, n - 1);
      assert ToLE(v, n)[1..] == ToLE(v / 256, n - 1);
    }
  }

  lemma {:induction false} ToLEOfLE(bs: seq<byte>)
    ensures ToLE(LE(bs), |bs|) == bs
  {
    if bs != [] {
      ToLEOfLE(bs[1..]);
      assert LE(bs) % 256 == bs[0];
      assert LE(bs) / 256 == LE(bs[1..]);
    }
  }

  lemma Pow256Values()
    ensures Pow256(1) == TWO_8 && Pow256(2) == TWO_16 && Pow256(4) == TWO_32 && Pow256(8) == TWO_64
  {
  }

  /** Little-endian decoders with the result typed at their width. */
  function LE16(bs: seq<byte>): (v: u16)
    requires |bs| == 2
  {
    Pow256Values();
    LE(bs)
  }

  function LE32(bs: seq<byte>): (v: u32)
    requires |bs| == 4
  {
    Pow256Values();
    LE(bs)
  }

  function LE64(bs: seq<byte>): (v: u64)
    requires |bs| == 8
  {
    Pow256Values();
    LE(bs)
  }

  /** 2^k */
  function Pow2(k: nat): (p: nat)
    ensures p >= 1
  {
    if k == 0 then 1 else 2 * Pow2(k - 1)
  }

  /** Bit k of x is set (`x & (1 << k) != 0`). */
  predicate Bit(x: nat, k: nat) {
    (x / Pow2(k)) % 2 == 1
  }

  /** Go's `int64(x)` for a `uint64` x: the same 64 bits read as two's complement. */
  function AsI64(x: u64): (r: i64)
    ensures (r >= 0) == (x < TWO_63)
    ensures (r - x) % TWO_64 == 0
  {
    if x < TWO_63 then x else x - TWO_64
  }

  /** Reduction of an integer into the int64 range, as Go's int64 arithmetic wraps around. */
  function WrapI64(x: int): (r: i64)
    ensures (r - x) % TWO_64 == 0
    ensures -TWO_63 <= x < TWO_63 ==> r == x
  {
    var m := (x + TWO_63) % TWO_64;
    m - TWO_63
  }

  /** Go's `a - b` on int64 operands. */
  function SubI64(a: i64, b: i64): (r: i64)
    ensures -TWO_63 <= a - b < TWO_63 ==> r == a - b
  {
    WrapI64(a - b)
  }
}
