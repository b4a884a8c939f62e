/** Bytes, byte sequences, and the .NET integer conversions the codecs rely on. */
module Bytes {
  import opened Wrappers

  type byte = x: int | 0 <= x < 0x100
  type bytes = seq<byte>
  type uint16 = x: int | 0 <= x < 0x1_0000
  type uint32 = x: int | 0 <= x < 0x1_0000_0000
  type uint64 = x: int | 0 <= x < 0x1_0000_0000_0000_0000

  /** The largest .NET `int`, and so a bound on the length of every .NET array. */
  const INT_MAX := 0x7fff_ffff

  /** A byte sequence that a .NET array can hold. */
  type blob = s: bytes | |s| <= INT_MAX

  /** The unchecked conversion to a 32-bit signed integer. */
  function Int32(x: int): (r: int)
    ensures -0x8000_0000 <= r <= INT_MAX
    ensures -0x8000_0000 <= x <= INT_MAX ==> r == x
  {
    (x + 0x8000_0000) % 0x1_0000_0000 - 0x8000_0000
  }

  function Zeros(n: nat): (z: bytes)
    ensures |z| == n
    ensures forall i :: 0 <= i < n ==> z[i] == 0
  {
    seq(n, _ => 0)
  }

  /** The slice `s[start..end]`, which throws when the bounds are not in order. */
  function Slice(s: bytes, start: int, end: int): (r: Result<bytes>)
    ensures r.Ok? ==> |r.value| == end - start
  {
    if 0 <= start <= end <= |s| then Ok(s[start..end]) else Err(OutOfRange)
  }

  /** `src.CopyTo(dst, at)`, for a source that fits. */
  function Overwrite(dst: bytes, at: nat, src: bytes): (r: bytes)
    requires at + |src| <= |dst|
    ensures |r| == |dst|
    ensures forall i :: 0 <= i < |dst| ==> r[i] == if at <= i < at + |src| then src[i - at] else dst[i]
  {
    dst[..at] + src + dst[at + |src|..]
  }

  function Pow2(k: nat): (p: nat)
    ensures p > 0
  {
    if k == 0 then 1 else 2 * Pow2(k - 1)
  }

  lemma SmallPowers()
    ensures Pow2(0) == 1 && Pow2(1) == 2 && Pow2(2) == 4 && Pow2(3) == 8 && Pow2(4) == 16
    ensures Pow2(5) == 32 && Pow2(6) == 64 && Pow2(7) == 128 && Pow2(8) == 256
    ensures forall w :: 0 <= w <= 8 ==> Pow2(w) <= 256
  {
    assert Pow2(2) == 4 && Pow2(4) == 16 && Pow2(6) == 64;
  }

  lemma {:induction false} Pow2Sum(a: nat, b: nat)
    ensures Pow2(a + b) == Pow2(a) * Pow2(b)
  {
    if a > 0 {
      Pow2Sum(a - 1, b);
    }
  }

  /** The exclusive or of the low `width` bits, from the lowest bit up. */
  function XorBits(a: nat, b: nat, width: nat): (r: nat)
    ensures r < Pow2(width)
  {
    if width == 0 then 0
    else 2 * XorBits(a / 2, b / 2, width - 1) + if a % 2 == b % 2 then 0 else 1
  }

  function Xor(a: byte, b: byte): byte {
    SmallPowers();
    XorBits(a, b, 8)
  }

  lemma {:induction false} XorBitsTwice(a: nat, k: nat, width: nat)
    requires a < Pow2(width)
    ensures XorBits(XorBits(a, k, width), k, width) == a
  {
    if width > 0 {
      XorBitsTwice(a / 2, k / 2, width - 1);
    }
  }

  /** Applying the same byte twice takes it off again. */
  lemma XorTwice(a: byte, k: byte)
    ensures Xor(Xor(a, k), k) == a
  {
    SmallPowers();
    XorBitsTwice(a, k, 8);
  }

  /** The pointwise exclusive or of two sequences, as long as the first. */
  function XorSeq(a: bytes, k: bytes): (r: bytes)
    requires |a| <= |k|
    ensures |r| == |a|
    ensures forall i :: 0 <= i < |a| ==> r[i] == Xor(a[i], k[i])
  {
    seq(|a|, i requires 0 <= i < |a| => Xor(a[i], k[i]))
  }
}
