/** Machine integers of the converter and their little-endian encodings.
    Bit operations of the source are written as arithmetic on these ranges. */
module Bytes {

  type byte = x: int | 0 <= x < 0x100
  type u16 = x: int | 0 <= x < 0x1_0000
  type u32 = x: int | 0 <= x < 0x1_0000_0000

  const U32_MODULUS: int := 0x1_0000_0000

  datatype Option<T> = None | Some(value: T)

  /** The ways the converter aborts: an index or slice past the end of a
      buffer, a data block of a type other than 0x66, an integer overflow or
      underflow (which panics in a debug build). */
  datatype Panic = OutOfBounds | IllegalDataBlock | Overflow

  /** A computation that either completes or panics. */
  datatype Result<T> = Ok(value: T) | Err(panic: Panic)

  /** Truncating cast to u32 (`as u32` in the source). */
  function AsU32(x: int): (r: u32)
    ensures 0 <= x < U32_MODULUS ==> r == x
  {
    x % 0x1_0000_0000
  }

  /** The u32 whose little-endian bytes are `b`: `b0 | b1 << 8 | b2 << 16 | b3 << 24`.
      The four terms occupy disjoint bits, so the ors are additions. */
  function LeU32(b: seq<byte>): u32
    requires |b| == 4
  {
    b[0] as int + b[1] as int * 0x100 + b[2] as int * 0x1_0000 + b[3] as int * 0x100_0000
  }

  /** The little-endian bytes of `v`: `v & 0xFF`, `(v >> 8) as u8`, `(v >> 16) as u8`, `(v >> 24) as u8`. */
  function U32Le(v: u32): (b: seq<byte>)
    ensures |b| == 4
  {
    [v % 0x100, v / 0x100 % 0x100, v / 0x1_0000 % 0x100, v / 0x100_0000]
  }

  lemma LeU32OfU32Le(v: u32)
    ensures LeU32(U32Le(v)) == v
  {
    var r0 := v / 0x100;
    var r1 := r0 / 0x100;
    assert v == r0 * 0x100 + v % 0x100;
    assert r0 == r1 * 0x100 + r0 % 0x100;
    assert r1 == r1 / 0x100 * 0x100 + r1 % 0x100;
    assert v / 0x1_0000 == r1;
    assert v / 0x100_0000 == r1 / 0x100;
  }

  /** Quotient and remainder by 0x100 are determined by any decomposition. */
  lemma DivMod256(v: int, q: int, r: int)
    requires 0 <= r < 0x100 && v == q * 0x100 + r
    ensures v / 0x100 == q && v % 0x100 == r
  {
  }

  lemma U32LeOfLeU32(b: seq<byte>)
    requires |b| == 4
    ensures U32Le(LeU32(b)) == b
  {
    var v := LeU32(b);
    var r0 := b[1] as int + b[2] as int * 0x100 + b[3] as int * 0x1_0000;
    var r1 := b[2] as int + b[3] as int * 0x100;
    DivMod256(v, r0, b[0]);
    DivMod256(r0, r1, b[1]);
    DivMod256(r1, b[3], b[2]);
    assert v / 0x1_0000 == r1;
    assert v / 0x100_0000 == b[3];
  }

  /** `b` with the four bytes at `at` replaced by the little-endian `v`. */
  function PatchU32(b: seq<byte>, at: nat, v: u32): (r: seq<byte>)
    requires at + 4 <= |b|
    ensures |r| == |b| && r[at..at + 4] == U32Le(v)
    ensures forall i :: 0 <= i < |b| && !(at <= i < at + 4) ==> r[i] == b[i]
  {
    b[..at] + U32Le(v) + b[at + 4..]
  }

  /** The patched field reads back as `v`. */
  lemma PatchU32ReadsBack(b: seq<byte>, at: nat, v: u32)
    requires at + 4 <= |b|
    ensures LeU32(PatchU32(b, at, v)[at..at + 4]) == v
  {
    LeU32OfU32Le(v);
  }

  /** Low and high byte of a u16: `(d & 0xFF) as u8` and `(d >> 8) as u8`. */
  function Lo(d: u16): byte { d % 0x100 }

  function Hi(d: u16): byte { d / 0x100 }

  /** Combining a low and high byte into a u16, the inverse of Lo and Hi. */
  function LeU16(lo: byte, hi: byte): u16 { lo as int + hi as int * 0x100 }

  lemma LeU16OfLoHi(d: u16)
    ensures LeU16(Lo(d), Hi(d)) == d
  {
  }

  lemma LoHiOfLeU16(lo: byte, hi: byte)
    ensures Lo(LeU16(lo, hi)) == lo && Hi(LeU16(lo, hi)) == hi
  {
    DivMod256(LeU16(lo, hi), hi, lo);
  }

  function Pow2(n: nat): (r: nat)
    ensures r >= 1
  {
    if n == 0 then 1 else 2 * Pow2(n - 1)
  }

  /** Bit `i` of `x`. */
  predicate Bit(x: nat, i: nat)
  {
    x / Pow2(i) % 2 == 1
  }

  function Zeros(n: nat): (z: seq<byte>)
    ensures |z| == n && forall i :: 0 <= i < n ==> z[i] == 0
  {
    seq(n, _ => 0)
  }
}
