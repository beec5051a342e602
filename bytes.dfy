/**
 * Bytes and the fixed-width integers of the C and JavaScript sources:
 * little-endian encoding, two's-complement reinterpretation, and the
 * wrap-around of C's unsigned arithmetic and narrowing casts.
 */
module Bytes {

  type byte = b: int | 0 <= b < 256

  const TWO_16: nat := 0x1_0000
  const TWO_32: nat := 0x1_0000_0000
  const TWO_64: nat := 0x1_0000_0000_0000_0000

  type int16 = x: int | -0x8000 <= x < 0x8000
  type int32 = x: int | -0x8000_0000 <= x < 0x8000_0000
  type uint32 = x: int | 0 <= x < 0x1_0000_0000
  type uint64 = x: int | 0 <= x < 0x1_0000_0000_0000_0000

  function Pow256(n: nat): (r: nat)
    ensures r >= 1
  {
    if n == 0 then 1 else 256 * Pow256(n - 1)
  }

  lemma Pow256Values()
    ensures Pow256(2) == TWO_16 && Pow256(4) == TWO_32 && Pow256(8) == TWO_64
  {
  }

  /** The n-byte little-endian image of v, least significant byte first. */
  function EncodeLE(v: nat, n: nat): (r: seq<byte>)
    requires v < Pow256(n)
    ensures |r| == n
  {
    if n == 0 then [] else [v % 256] + EncodeLE(v / 256, n - 1)
  }

  /** The unsigned value of a little-endian byte string. */
  function DecodeLE(s: seq<byte>): (v: nat)
    ensures v < Pow256(|s|)
  {
    if s == [] then 0 else s[0] + 256 * DecodeLE(s[1..])
  }

  lemma {:induction false} DecodeEncodeLE(v: nat, n: nat)
    requires v < Pow256(n)
    ensures DecodeLE(EncodeLE(v, n)) == v
  {
    if n > 0 {
      DecodeEncodeLE(v / 256, n - 1);
      assert EncodeLE(v, n)[1..] == EncodeLE(v / 256, n - 1);
    }
  }

  lemma {:induction false} EncodeDecodeLE(s: seq<byte>)
    ensures EncodeLE(DecodeLE(s), |s|) == s
  {
    if s != [] {
      EncodeDecodeLE(s[1..]);
      assert DecodeLE(s) % 256 == s[0];
      assert DecodeLE(s) / 256 == DecodeLE(s[1..]);
    }
  }

  /** Two's complement bits of a signed value of `bits` width, as an unsigned value. */
  function ToUnsigned16(x: int16): (u: nat)
    ensures u < TWO_16
  {
    if x < 0 then x + TWO_16 else x
  }

  function ToUnsigned32(x: int32): (u: nat)
    ensures u < TWO_32
  {
    if x < 0 then x + TWO_32 else x
  }

  /** Two's-complement reading of 16 unsigned bits. */
  function ToSigned16(u: nat): (x: int16)
    requires u < TWO_16
    ensures ToUnsigned16(x) == u
  {
    if u >= 0x8000 then u - TWO_16 else u
  }

  function ToSigned32(u: nat): (x: int32)
    requires u < TWO_32
    ensures ToUnsigned32(x) == u
  {
    if u >= 0x8000_0000 then u - TWO_32 else u
  }

  /** Node's `writeInt16LE`, and the layout of a C `int16_t` on a little-endian machine. */
  function Int16LE(x: int16): (r: seq<byte>)
    ensures |r| == 2
  {
    Pow256Values();
    EncodeLE(ToUnsigned16(x), 2)
  }

  /** Node's `readInt16LE`. */
  function ReadInt16LE(s: seq<byte>): int16
    requires |s| == 2
  {
    Pow256Values();
    ToSigned16(DecodeLE(s))
  }

  /** Node's `writeInt32LE`, and a C `int32_t` in memory on a little-endian machine. */
  function Int32LE(x: int32): (r: seq<byte>)
    ensures |r| == 4
  {
    Pow256Values();
    EncodeLE(ToUnsigned32(x), 4)
  }

  /** Node's `readInt32LE`, and a C `int32_t` read back from memory. */
  function ReadInt32LE(s: seq<byte>): int32
    requires |s| == 4
  {
    Pow256Values();
    ToSigned32(DecodeLE(s))
  }

  /** A C `uint32_t` in memory on a little-endian machine. */
  function UInt32LE(x: uint32): (r: seq<byte>)
    ensures |r| == 4
  {
    Pow256Values();
    EncodeLE(x, 4)
  }

  lemma Int16RoundTrip(x: int16)
    ensures ReadInt16LE(Int16LE(x)) == x
  {
    Pow256Values();
    DecodeEncodeLE(ToUnsigned16(x), 2);
  }

  lemma Int32RoundTrip(x: int32)
    ensures ReadInt32LE(Int32LE(x)) == x
  {
    Pow256Values();
    DecodeEncodeLE(ToUnsigned32(x), 4);
  }

  lemma UInt32ReadSigned(x: uint32)
    ensures ReadInt32LE(UInt32LE(x)) == if x < 0x8000_0000 then x else x - TWO_32
  {
    Pow256Values();
    DecodeEncodeLE(x, 4);
  }

  /** C's conversion of an `int` to `int16_t`: the value modulo 2^16, read as two's complement. */
  function TruncInt16(x: int): (r: int16)
    ensures (x - r) % TWO_16 == 0
    ensures -0x8000 <= x < 0x8000 ==> r == x
  {
    ToSigned16(x % TWO_16)
  }

  /** C's conversion of a value to `uint32_t`. */
  function WrapU32(x: int): (r: uint32)
    ensures (x - r) % TWO_32 == 0
    ensures 0 <= x < TWO_32 ==> r == x
  {
    x % TWO_32
  }

  /** C's conversion of a value to `uint64_t` or `size_t` (an LP64 machine). */
  function WrapU64(x: int): (r: uint64)
    ensures (x - r) % TWO_64 == 0
    ensures 0 <= x < TWO_64 ==> r == x
  {
    x % TWO_64
  }

  /** `a - b` on `uint64_t`: unsigned subtraction, which wraps when b > a. */
  function SubU64(a: uint64, b: uint64): (r: uint64)
    ensures b <= a ==> r == a - b
    ensures b > a ==> r == a - b + TWO_64
  {
    WrapU64(a - b)
  }

  /** A `char` value of the source (signed on the target) as the byte it occupies in memory. */
  function CharByte(c: int): (b: byte)
    requires -128 <= c < 128
    ensures (c - b) % 256 == 0
    ensures c >= 0 ==> b == c
  {
    c % 256
  }

  function Zeros(n: nat): (r: seq<byte>)
    ensures |r| == n && forall i :: 0 <= i < n ==> r[i] == 0
  {
    seq(n, _ => 0)
  }

  /** Adjacent slices join. */
  lemma SliceJoin<T>(s: seq<T>, a: nat, b: nat, c: nat)
    requires a <= b <= c <= |s|
    ensures s[a..b] + s[b..c] == s[a..c]
  {
  }

  /** A prefix of a suffix is a slice. */
  lemma SliceOfSuffix<T>(s: seq<T>, a: nat, n: nat)
    requires a + n <= |s|
    ensures s[a..][..n] == s[a..a + n]
  {
  }

  lemma ConcatAssoc<T>(a: seq<T>, b: seq<T>, c: seq<T>)
    ensures a + b + c == a + (b + c)
  {
  }

  lemma ConsConcat<T>(a: seq<T>, b: seq<T>)
    requires a != []
    ensures (a + b)[0] == a[0] && (a + b)[1..] == a[1..] + b
  {
  }

  lemma TakeDrop<T>(s: seq<T>, k: nat)
    requires k <= |s|
    ensures s[..k] + s[k..] == s
  {
  }

  lemma DropTwo<T>(x: T, y: T, t: seq<T>)
    ensures ([x, y] + t)[0] == x && ([x, y] + t)[1..] == [y] + t
    ensures ([y] + t)[0] == y && ([y] + t)[1..] == t
  {
  }

  /** A prefix of a concatenation reaching into its second part. */
  lemma PrefixConcat<T>(a: seq<T>, b: seq<T>, j: nat)
    requires j <= |b|
    ensures (a + b)[..|a| + j] == a + b[..j]
  {
  }

  /** A prefix of a concatenation inside its first part. */
  lemma PrefixInFirst<T>(a: seq<T>, b: seq<T>, k: nat)
    requires k <= |a|
    ensures (a + b)[..k] == a[..k]
  {
  }
}
