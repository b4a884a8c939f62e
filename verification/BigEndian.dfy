/** LNBolt/BigEndinessExtentions.cs: fixed and trimmed big-endian integers, and the in-place shift. */
module BigEndian {
  import opened Wrappers
  import opened Bytes
  import BitStrings

  /** The number of byte sequences of length `k`. */
  function Pow256(k: nat): (p: nat)
    ensures p > 0
  {
    BitStrings.Size(k, 8)
  }

  lemma Pow256Step(k: nat)
    ensures Pow256(0) == 1
    ensures k > 0 ==> Pow256(k) == 256 * Pow256(k - 1)
  {
    SmallPowers();
  }

  lemma Pow256Widths()
    ensures Pow256(2) == 0x1_0000
    ensures Pow256(4) == 0x1_0000_0000
    ensures Pow256(8) == 0x1_0000_0000_0000_0000
  {
    hide Pow256;
    Pow256Step(1);
    Pow256Step(2);
    Pow256Step(3);
    Pow256Step(4);
    Pow256Step(5);
    Pow256Step(6);
    Pow256Step(7);
    Pow256Step(8);
  }

  /** The number that a byte sequence denotes, most significant byte first. */
  function Value(s: bytes): nat {
    BitStrings.Value(s, 8)
  }

  /** The low `k` bytes of `n`, most significant byte first. */
  function ToBE(n: nat, k: nat): (s: bytes)
    ensures |s| == k
  {
    BitStrings.Symbols(n, k, 8)
  }

  lemma ValueStep(s: bytes)
    ensures Value([]) == 0
    ensures s != [] ==> Value(s) == Value(s[..|s| - 1]) * 256 + s[|s| - 1]
  {
    SmallPowers();
  }

  lemma BytesAreWithin(s: bytes)
    ensures BitStrings.Within(s, 8)
  {
    SmallPowers();
  }

  lemma ValueBound(s: bytes)
    ensures Value(s) < Pow256(|s|)
  {
    BytesAreWithin(s);
    BitStrings.ValueBound(s, 8);
  }

  lemma ValueToBE(n: nat, k: nat)
    requires n < Pow256(k)
    ensures Value(ToBE(n, k)) == n
  {
    BitStrings.ValueOfSymbols(n, k, 8);
  }

  lemma ToBEValue(s: bytes)
    ensures ToBE(Value(s), |s|) == s
  {
    BytesAreWithin(s);
    BitStrings.SymbolsOfValue(s, 8);
  }

  lemma {:induction false} ValueLeadingZeros(k: nat, s: bytes)
    ensures Value(Zeros(k) + s) == Value(s)
    decreases |s|, k
  {
    hide Value;
    ValueStep(s);
    ValueStep(Zeros(k) + s);
    if s != [] {
      var front := s[..|s| - 1];
      assert (Zeros(k) + s)[..k + |s| - 1] == Zeros(k) + front;
      ValueLeadingZeros(k, front);
    } else if k > 0 {
      assert Zeros(k) + [] == Zeros(k) && Zeros(k)[..k - 1] == Zeros(k - 1) + [];
      ValueLeadingZeros(k - 1, []);
    }
  }

  lemma ValueOfZeros(s: bytes)
    requires forall i :: 0 <= i < |s| ==> s[i] == 0
    ensures Value(s) == 0
  {
    assert s == Zeros(|s|) + [];
    ValueLeadingZeros(|s|, []);
  }

  function TrimZeros(data: bytes): (r: bytes)
    ensures |r| <= |data|
    ensures data == Zeros(|data| - |r|) + r
    ensures r != [] ==> r[0] != 0
  {
    if data != [] && data[0] == 0 then TrimZeros(data[1..]) else data
  }

  function Untrim(buffer: bytes, fullByteCount: nat): Result<bytes> {
    if |buffer| > fullByteCount then Err(ArgumentTooLong) else Ok(Zeros(fullByteCount - |buffer|) + buffer)
  }

  /** `UInt64ToTrimmedBE64Bytes` (k = 8), `UInt32ToTrimmedBE32Bytes` (4), `UInt16ToTrimmedBE16` (2). */
  function ToTrimmed(n: nat, k: nat): bytes {
    TrimZeros(ToBE(n, k))
  }

  /** `TrimmedBE64ToUInt64` (k = 8), `TrimmedBE32ToUInt32` (4), `TrimmedBE16ToUInt16` (2). */
  function FromTrimmed(data: bytes, k: nat): Result<nat> {
    var untrimmed :- Untrim(data, k);
    Ok(Value(untrimmed))
  }

  /** Untrimming never changes the number, whatever shorter buffer it is given. */
  lemma FromTrimmedValue(data: bytes, k: nat)
    ensures |data| <= k ==> FromTrimmed(data, k) == Ok(Value(data)) && Value(data) < Pow256(k)
    ensures |data| > k ==> FromTrimmed(data, k) == Err(ArgumentTooLong)
  {
    if |data| <= k {
      ValueLeadingZeros(k - |data|, data);
      ValueBound(Zeros(k - |data|) + data);
    }
  }

  /** Trimming an integer that fits in `k` bytes and reading it back gives the integer. */
  lemma TrimmedRoundTrip(n: nat, k: nat)
    requires n < Pow256(k)
    ensures |ToTrimmed(n, k)| <= k
    ensures FromTrimmed(ToTrimmed(n, k), k) == Ok(n)
  {
    var full, r := ToBE(n, k), ToTrimmed(n, k);
    ValueToBE(n, k);
    ValueLeadingZeros(k - |r|, r);
  }

  /** The trimmed form is the one big-endian form of `n` without a leading zero, so the shortest of all. */
  lemma TrimmedIsUnique(n: nat, k: nat, s: bytes)
    requires n < Pow256(k)
    requires Value(s) == n
    ensures |ToTrimmed(n, k)| <= |s|
    ensures (s != [] ==> s[0] != 0) <==> s == ToTrimmed(n, k)
  {
    var r := ToTrimmed(n, k);
    TrimmedRoundTrip(n, k);
    FromTrimmedValue(r, k);
    var t := TrimZeros(s);
    ValueLeadingZeros(|s| - |t|, t);
    SameValue(r, t);
    if s != [] && s[0] == 0 {
      assert s != t;
    }
  }

  lemma SameValue(a: bytes, b: bytes)
    requires Value(a) == Value(b)
    requires a != [] ==> a[0] != 0
    requires b != [] ==> b[0] != 0
    ensures a == b
  {
    if |a| == |b| {
      ToBEValue(a);
      ToBEValue(b);
    } else if |a| < |b| {
      Smaller(a, b);
    } else {
      Smaller(b, a);
    }
  }

  /** A form with more bytes and no leading zero denotes a larger number. */
  lemma {:induction false} Smaller(a: bytes, b: bytes)
    requires |a| < |b| && b[0] != 0
    ensures Value(a) < Value(b)
  {
    var k := |b| - |a|;
    var padded := Zeros(k) + a;
    ValueLeadingZeros(k, a);
    FirstByteDecides(padded, b);
  }

  lemma {:induction false} FirstByteDecides(a: bytes, b: bytes)
    requires |a| == |b| > 0 && a[0] < b[0]
    ensures Value(a) < Value(b)
  {
    hide Value;
    ValueStep(a);
    ValueStep(b);
    if |a| > 1 {
      FirstByteDecides(a[..|a| - 1], b[..|b| - 1]);
    } else {
      assert a[..0] == [] && b[..0] == [];
      assert Value(a) == a[0] && Value(b) == b[0];
    }
  }

  /** Byte `i` once what is at `start` and behind it is moved to `target`, as far as both lie inside the array. */
  function MovedByte(a: bytes, target: int, start: int, i: nat): byte
    requires i < |a|
  {
    if 0 <= target <= i && 0 <= start && i - target + start < |a| then a[i - target + start] else a[i]
  }

  function Moved(a: bytes, target: int, start: int): (r: bytes)
    ensures |r| == |a|
    ensures forall i :: 0 <= i < |a| ==> r[i] == MovedByte(a, target, start, i)
  {
    seq<byte>(|a|, i requires 0 <= i < |a| => MovedByte(a, target, start, i))
  }

  /** From the start of the array it is the right shift of the onion packet, and never throws. */
  lemma MovedIsShifted(a: bytes, target: nat)
    ensures Moved(a, target, 0) == Shifted(a, target)
  {
  }

  /** The contents of an array shifted right by `shift`; the first `shift` bytes stay as they were. */
  function Shifted(a: bytes, shift: nat): (r: bytes)
    ensures |r| == |a|
    ensures forall i :: 0 <= i < |a| ==> r[i] == if i < shift then a[i] else a[i - shift]
  {
    if shift >= |a| then a else a[..shift] + a[..|a| - shift]
  }

  // ---------- the loops and in-place updates of the original

  method TrimZerosLoop(data: bytes) returns (r: bytes)
    ensures r == TrimZeros(data)
  {
    var trimOffset := 0;
    for i := 0 to |data|
      invariant trimOffset == i
      invariant TrimZeros(data) == TrimZeros(data[i..])
    {
      if data[i] == 0 {
        trimOffset := trimOffset + 1;
        assert data[i..][1..] == data[i + 1..];
      } else {
        break;
      }
    }
    r := data[trimOffset..];
  }

  method UntrimBuffer(buffer: bytes, fullByteCount: nat) returns (r: Result<bytes>)
    ensures r == Untrim(buffer, fullByteCount)
  {
    if |buffer| > fullByteCount {
      return Err(ArgumentTooLong);
    }
    var untrimmedBuffer := new byte[fullByteCount](_ => 0);
    CopyTo(buffer, untrimmedBuffer, untrimmedBuffer.Length - |buffer|);
    r := Ok(untrimmedBuffer[..]);
    assert untrimmedBuffer[..] == Zeros(fullByteCount - |buffer|) + buffer;
  }

  /** `Array.CopyTo`. */
  method CopyTo(src: bytes, dst: array<byte>, at: nat)
    requires at + |src| <= dst.Length
    modifies dst
    ensures dst[..] == Overwrite(old(dst[..]), at, src)
  {
    for i := 0 to |src|
      invariant forall k :: 0 <= k < dst.Length ==>
        dst[k] == if at <= k < at + i then src[k - at] else old(dst[..])[k]
    {
      dst[at + i] := src[i];
    }
  }

  /**
   * `CopyWithin`. It throws exactly when there is something to move, and the target or the start lies before the
   * array or the start behind the target; what was moved up to there stays moved.
   */
  method CopyWithin(a: array<byte>, target: int, start: int) returns (ok: bool)
    modifies a
    ensures ok <==> target >= a.Length || 0 <= start <= target
    ensures a[..] == Moved(old(a[..]), target, start)
  {
    var copyArray := a[..];
    var y := 0;
    var i := target;
    while i < a.Length
      invariant 0 <= y && i == target + y
      invariant target < a.Length ==> i <= a.Length
      invariant y > 0 ==> 0 <= target && 0 <= start && start + y <= a.Length
      invariant forall k :: 0 <= k < a.Length ==>
        a[k] == if k < i then MovedByte(copyArray, target, start, k) else copyArray[k]
    {
      if start + y < 0 || start + y >= |copyArray| || i < 0 {
        return false;
      }
      a[i] := copyArray[start + y];
      y := y + 1;
      i := i + 1;
    }
    return true;
  }
}
