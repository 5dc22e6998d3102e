/**
 * Bytes and the little-endian fixed-width integers numpy's `tobytes()`
 * produces on the x86 hosts the scripts ran on. `np.uint32(n)` and
 * `.astype(np.uint16)` / `.astype(np.int16)` keep the low bits of an
 * out-of-range integer; the encoders below do the same explicitly.
 */
module Bytes {

  newtype byte = x: int | 0 <= x < 256

  const SPACE: byte := 32
  const TWO16: int := 0x1_0000
  const TWO32: int := 0x1_0000_0000

  /** `n` ASCII spaces, the padding the tile writers emit. */
  function Spaces(n: nat): (r: seq<byte>)
    ensures |r| == n
    ensures forall i :: 0 <= i < n ==> r[i] == SPACE
  {
    seq(n, _ => SPACE)
  }

  /** Value of two little-endian bytes. */
  function LeU16(b0: byte, b1: byte): nat {
    b0 as int + 256 * b1 as int
  }

  /** Value of four little-endian bytes. */
  function LeU32(b0: byte, b1: byte, b2: byte, b3: byte): nat {
    b0 as int + 256 * (b1 as int + 256 * (b2 as int + 256 * b3 as int))
  }

  /** The 2 bytes of `x` as a wrapped uint16 (`astype(np.uint16).tobytes()`). */
  function U16Le(x: int): (r: seq<byte>)
    ensures |r| == 2
    ensures LeU16(r[0], r[1]) == x % TWO16
  {
    var y := x % TWO16;
    [(y % 256) as byte, (y / 256) as byte]
  }

  /** The 4 bytes of `x` as a wrapped uint32 (`np.uint32(x).tobytes()`). */
  function U32Le(x: int): (r: seq<byte>)
    ensures |r| == 4
    ensures LeU32(r[0], r[1], r[2], r[3]) == x % TWO32
  {
    var y := x % TWO32;
    var q1 := y / 256;
    var q2 := q1 / 256;
    [(y % 256) as byte, (q1 % 256) as byte, (q2 % 256) as byte, (q2 / 256) as byte]
  }

  /** Reads a little-endian uint32 at byte offset `at`. */
  function ReadU32(b: seq<byte>, at: nat): (v: nat)
    requires at + 4 <= |b|
    ensures v < TWO32
  {
    LeU32(b[at], b[at + 1], b[at + 2], b[at + 3])
  }

  /** Reads a little-endian uint16 at byte offset `at`. */
  function ReadU16(b: seq<byte>, at: nat): (v: nat)
    requires at + 2 <= |b|
    ensures v < TWO16
  {
    LeU16(b[at], b[at + 1])
  }

  /** Reads a little-endian two's-complement int16 at byte offset `at`. */
  function ReadI16(b: seq<byte>, at: nat): (v: int)
    requires at + 2 <= |b|
    ensures -0x8000 <= v < 0x8000
    ensures v % TWO16 == ReadU16(b, at)
  {
    var u := ReadU16(b, at);
    if u < 0x8000 then u else u - TWO16
  }

  /** An int16 written with `U16Le` reads back unchanged. */
  lemma I16RoundTrip(x: int)
    requires -0x8000 <= x < 0x8000
    ensures ReadI16(U16Le(x), 0) == x
  {
  }

  /** A uint32 written with `U32Le` reads back unchanged. */
  lemma U32RoundTrip(x: int)
    requires 0 <= x < TWO32
    ensures ReadU32(U32Le(x), 0) == x
  {
  }

  /** ASCII text as bytes (the scripts only write ASCII). */
  function Ascii(s: string): (r: seq<byte>)
    requires forall i :: 0 <= i < |s| ==> s[i] as int < 128
    ensures |r| == |s|
    ensures forall i :: 0 <= i < |s| ==> r[i] as int == s[i] as int
  {
    seq(|s|, i requires 0 <= i < |s| => s[i] as int as byte)
  }

  /** The 4-byte magic "pnts". */
  const MAGIC: seq<byte> := [0x70, 0x6E, 0x74, 0x73]
}
