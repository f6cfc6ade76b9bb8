/**
  Fixed-width machine integers and the little-endian field codec used to read
  the packed on-disk structures. Integers in Dafny are unbounded, so every
  width and every reinterpreting cast of the source is written out here.
*/
module Bytes {

  type byte = x: int | 0 <= x < 0x100
  type u16 = x: int | 0 <= x < 0x1_0000
  type u32 = x: int | 0 <= x < 0x1_0000_0000
  type i32 = x: int | -0x8000_0000 <= x < 0x8000_0000

  /** `n` zero bytes: the content of a freshly allocated `vec![0; n]`. */
  function Zeros(n: nat): (z: seq<byte>)
    ensures |z| == n
    ensures forall k :: 0 <= k < n ==> z[k] == 0
  {
    seq(n, _ => 0)
  }

  /** The unsigned 32-bit value stored little-endian in four bytes. */
  function U32LE(b: seq<byte>): u32
    requires |b| == 4
  {
    b[0] as int + 0x100 * (b[1] as int + 0x100 * (b[2] as int + 0x100 * b[3] as int))
  }

  /** The four little-endian bytes of a 32-bit value. */
  function EncodeU32LE(v: u32): (b: seq<byte>)
    ensures |b| == 4
  {
    var q1 := v / 0x100;
    var q2 := q1 / 0x100;
    [v % 0x100, q1 % 0x100, q2 % 0x100, q2 / 0x100]
  }

  /** Division by 256 undoes `lo + 256 * hi` when `lo` is a byte. */
  lemma DivMod256(lo: int, hi: int)
    requires 0 <= lo < 0x100
    ensures (lo + 0x100 * hi) / 0x100 == hi
    ensures (lo + 0x100 * hi) % 0x100 == lo
  {
  }

  /** Decoding the encoding gives the value back. */
  lemma {:induction false} U32RoundTrip(v: u32)
    ensures U32LE(EncodeU32LE(v)) == v
  {
    var q1 := v / 0x100;
    var q2 := q1 / 0x100;
    assert v == v % 0x100 + 0x100 * q1;
    assert q1 == q1 % 0x100 + 0x100 * q2;
    assert q2 == q2 % 0x100 + 0x100 * (q2 / 0x100);
  }

  /** Encoding the decoded value gives the four bytes back, so the codec is a bijection. */
  lemma {:induction false} U32Canonical(b: seq<byte>)
    requires |b| == 4
    ensures EncodeU32LE(U32LE(b)) == b
  {
    var w2: int := b[2] as int + 0x100 * b[3] as int;
    var w1: int := b[1] as int + 0x100 * w2;
    DivMod256(b[0], w1);
    DivMod256(b[1], w2);
    DivMod256(b[2], b[3]);
    assert U32LE(b) == b[0] as int + 0x100 * w1;
  }

  /** Reinterprets the bits of a `u32` as a two's-complement `i32` (a packed `i32` field). */
  function ToI32(v: u32): (x: i32)
    ensures x >= 0 <==> v < 0x8000_0000
    ensures x % 0x1_0000_0000 == v
  {
    if v < 0x8000_0000 then v else v - 0x1_0000_0000
  }

  /** Rust's `x as u32` on an `i32`: the same bits read as unsigned. */
  function AsU32(x: i32): (v: u32)
    ensures ToI32(v) == x
    ensures v == 0 <==> x == 0
  {
    if x < 0 then x + 0x1_0000_0000 else x
  }
}
