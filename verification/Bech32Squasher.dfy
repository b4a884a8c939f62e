/** LNBolt/BOLT11/Bech32.cs: regrouping of bits between 8-bit and 5-bit symbols. */
module Bech32Squasher {
  import opened Wrappers
  import opened Bytes
  import opened BitStrings

  lemma {:induction false} SizeOfBytes(n: nat)
    ensures Size(n, 8) == Pow2(8 * n)
  {
    if n > 0 {
      SizeOfBytes(n - 1);
      Pow2Sum(8 * (n - 1), 8);
    }
  }

  lemma {:induction false} SizeOfFives(m: nat)
    ensures Size(m, 5) == Pow2(5 * m)
  {
    if m > 0 {
      SizeOfFives(m - 1);
      Pow2Sum(5 * (m - 1), 5);
    }
  }

  /** Two bit strings of the same length, counted in symbols of either width. */
  lemma SameSize(n: nat, m: nat, padding: nat)
    requires 5 * m == 8 * n + padding
    ensures Size(m, 5) == Size(n, 8) * Pow2(padding)
  {
    hide Pow2, Size;
    SizeOfBytes(n);
    SizeOfFives(m);
    Pow2Sum(8 * n, padding);
  }

  // ---------- the two regroupings

  /** Bits missing to a whole number of 5-bit symbols. */
  function Pad(n: nat): (p: nat)
    ensures p < 5
  {
    (5 - 8 * n % 5) % 5
  }

  function Bytes8to5(data: bytes): bytes {
    var pad := Pad(|data|);
    Symbols(Append(Value(data, 8), pad, 0), (8 * |data| + pad) / 5, 5)
  }

  /** Bits left over beyond a whole number of bytes. */
  function Rest(n: nat): nat {
    5 * n % 8
  }

  /** Accepts only symbols of five bits, with fewer than five bits left over, all of them zero. */
  function Bytes5to8(squashed: bytes): Option<bytes> {
    var rest := Rest(|squashed|);
    if Within(squashed, 5) && rest < 5 && Last(Value(squashed, 5), rest) == 0
    then Some(Symbols(Front(Value(squashed, 5), rest), 5 * |squashed| / 8, 8))
    else None
  }

  lemma PadDivides(n: nat)
    ensures 8 * n + Pad(n) == 5 * ((8 * n + Pad(n)) / 5)
  {
    RoundUp(8 * n);
  }

  lemma RoundUp(x: nat)
    ensures (x + (5 - x % 5) % 5) % 5 == 0
  {
  }

  /** Symbol counts on both sides of a regrouping, and the bits that pad one and are left over on the other. */
  lemma CountsMatch(n: nat, m: nat, p: nat)
    requires 5 * m == 8 * n + p && p < 5
    ensures Rest(m) == p && 5 * m / 8 == n && Pad(n) == p && (8 * n + p) / 5 == m
  {
    assert 8 * n == 5 * (m - 1) + (5 - p);
  }

  lemma RestFacts(m: nat)
    ensures 5 * m == 8 * (5 * m / 8) + Rest(m)
  {
  }

  /** The bit string of the result is the bit string of the input followed by zero bits. */
  lemma Bytes8to5Value(data: bytes)
    ensures Within(Bytes8to5(data), 5)
    ensures Value(Bytes8to5(data), 5) == Append(Value(data, 8), Pad(|data|), 0)
    ensures 5 * |Bytes8to5(data)| == 8 * |data| + Pad(|data|)
  {
    hide Pow2, Pad, Append;
    var pad := Pad(|data|);
    var m := (8 * |data| + pad) / 5;
    PadDivides(|data|);
    assert Within(data, 8) by {
      SmallPowers();
    }
    ValueBound(data, 8);
    SameSize(|data|, m, pad);
    AppendBound(Value(data, 8), pad, 0, Size(|data|, 8));
    ValueOfSymbols(Append(Value(data, 8), pad, 0), m, 5);
  }

  /** Regrouping to five bits and back is the identity on all byte sequences. */
  lemma SquashRoundTrip(data: bytes)
    ensures Bytes5to8(Bytes8to5(data)) == Some(data)
  {
    hide Pow2, Pad, Rest, Append, Front, Last, Bytes8to5;
    var pad := Pad(|data|);
    Bytes8to5Value(data);
    CountsMatch(|data|, |Bytes8to5(data)|, pad);
    AppendSplits(Value(data, 8), pad, 0);
    assert Within(data, 8) by {
      SmallPowers();
    }
    SymbolsOfValue(data, 8);
  }

  /** Regrouping to bytes and back is the identity on what is accepted. */
  lemma UnsquashRoundTrip(squashed: bytes)
    requires Bytes5to8(squashed).Some?
    ensures Bytes8to5(Bytes5to8(squashed).value) == squashed
  {
    hide Pow2, Pad, Rest, Append, Front, Last;
    var m, rest, total := |squashed|, Rest(|squashed|), Value(squashed, 5);
    var n := 5 * m / 8;
    RestFacts(m);
    CountsMatch(n, m, rest);
    ValueBound(squashed, 5);
    SameSize(n, m, rest);
    FrontBound(total, rest, Size(n, 8));
    FrontLast(total, rest);
    ValueOfSymbols(Front(total, rest), n, 8);
    SymbolsOfValue(squashed, 5);
  }

  /** The accepted five-bit sequences are exactly the regrouped byte sequences. */
  lemma AcceptedAreSquashed(squashed: bytes)
    ensures Bytes5to8(squashed).Some? <==> exists data :: Bytes8to5(data) == squashed
  {
    hide Bytes8to5, Bytes5to8;
    if Bytes5to8(squashed).Some? {
      UnsquashRoundTrip(squashed);
    }
    forall data | Bytes8to5(data) == squashed
      ensures Bytes5to8(squashed).Some?
    {
      SquashRoundTrip(data);
    }
  }

  // ---------- the loop, on a 32-bit accumulator that is never masked

  /** `x << k` on a 32-bit signed integer. */
  function ShiftLeft(x: int, k: nat): int {
    Int32(x * Pow2(k))
  }

  /** `(x >> k) & (2^w - 1)`: the shift is arithmetic, so it rounds down. */
  function Field(x: int, k: nat, w: nat): nat {
    (x / Pow2(k)) % Pow2(w)
  }

  /** The accumulator that has taken in one more symbol; its low bits are zero after the shift, so `|` adds. */
  function Accumulate(accumulator: int, w: nat, c: byte): int {
    ShiftLeft(accumulator, w) + c
  }

  lemma Int32Periodic(x: int, k: int)
    ensures Int32(x + 0x1_0000_0000 * k) == Int32(x)
  {
  }

  /** How far the accumulator is from the unbounded bit string. */
  lemma Int32Multiple(n: int) returns (k: int)
    ensures n == Int32(n) + 0x1_0000_0000 * k
  {
    k := (n + 0x8000_0000) / 0x1_0000_0000;
  }

  /** The accumulator stays the bit string modulo 2^32. */
  lemma AccumulateWraps(n: nat, w: nat, c: byte)
    requires (w == 5 || w == 8) && c < Pow2(w)
    ensures Accumulate(Int32(n), w, c) == Int32(Append(n, w, c))
  {
    SmallPowers();
    hide Pow2, Int32;
    if w == 5 {
      ShiftWraps(n, 32);
      AddLow(n * 32, 32, c);
    } else {
      ShiftWraps(n, 256);
      AddLow(n * 256, 256, c);
    }
  }

  lemma ShiftWraps(n: nat, d: nat)
    requires d == 32 || d == 256
    ensures Int32(Int32(n) * d) == Int32(n * d)
  {
    var k := Int32Multiple(n);
    Int32Periodic(Int32(n) * d, d * k);
  }

  lemma AddLow(x: int, d: nat, c: nat)
    requires (d == 32 || d == 256) && x % d == 0 && c < d
    ensures Int32(x) + c == Int32(x + c)
  {
    hide Int32;
    var k := Int32Multiple(x);
    var y, r := x / d, Int32(x);
    if d == 32 {
      assert x == 32 * y && r == 32 * (y - 0x800_0000 * k);
    } else {
      assert x == 256 * y && r == 256 * (y - 0x100_0000 * k);
    }
    Int32Periodic(r + c, k);
  }

  /** Bits of the accumulator that lie below bit 15 are bits of the bit string. */
  lemma FieldWraps(n: nat, k: nat, w: nat)
    requires k <= 7 && (w == 5 || w == 8)
    ensures Field(Int32(n), k, w) == Last(Front(n, k), w)
  {
    SmallPowers();
    var q := Int32Multiple(n);
    FieldPeriodic(Int32(n), q, Pow2(k), Pow2(w));
  }

  lemma FieldPeriodic(x: int, q: int, d: nat, m: nat)
    requires d == 1 || d == 2 || d == 4 || d == 8 || d == 16 || d == 32 || d == 64 || d == 128
    requires m == 32 || m == 256
    ensures (x + 0x1_0000_0000 * q) / d % m == x / d % m
  {
    var c := 0x1_0000_0000 / d;
    assert (x + 0x1_0000_0000 * q) / d == x / d + c * q by {
      ShiftOut(x, q, d);
    }
    ModPeriodic(x / d, q, c, m);
  }

  lemma ShiftOut(x: int, q: int, d: nat)
    requires d == 1 || d == 2 || d == 4 || d == 8 || d == 16 || d == 32 || d == 64 || d == 128
    ensures (x + 0x1_0000_0000 * q) / d == x / d + (0x1_0000_0000 / d) * q
  {
    if d == 1 {
    } else if d == 2 {
    } else if d == 4 {
    } else if d == 8 {
    } else if d == 16 {
    } else if d == 32 {
    } else if d == 64 {
    } else {
      assert d == 128;
    }
  }

  lemma ModPeriodic(y: int, q: int, c: int, m: nat)
    requires (m == 32 || m == 256) && c % 256 == 0
    ensures (y + c * q) % m == y % m
  {
    var e := c / m;
    assert c == m * e;
    assert c * q == m * (e * q);
    ModMultiple(y, e * q, m);
  }

  lemma ModMultiple(y: int, t: int, m: nat)
    requires m == 32 || m == 256
    ensures (y + m * t) % m == y % m
  {
  }

  /** Taking off `b` bits and then `w` more is taking off `b + w`. */
  lemma FrontFront(n: nat, b: nat, w: nat)
    ensures Front(Front(n, b), w) == Front(n, b + w)
  {
    hide Pow2;
    var f1, l1 := Front(n, b), Last(n, b);
    var f2, l2 := Front(f1, w), Last(f1, w);
    FrontLast(n, b);
    FrontLast(f1, w);
    Pow2Sum(w, b);
    AppendBound(l2, b, l1, Pow2(w));
    assert n == f2 * Pow2(w + b) + Append(l2, b, l1) by {
      Distribute(f2, Pow2(w), l2, Pow2(b), l1);
    }
    AppendSplits(f2, w + b, Append(l2, b, l1));
  }

  lemma Distribute(f: nat, p: nat, l: nat, q: nat, m: nat)
    ensures (f * p + l) * q + m == f * (p * q) + (l * q + m)
  {
  }

  /** The state of the loop: the output is the bit string `n` without its last `stash` bits. */
  ghost predicate Regrouped(n: nat, stash: nat, output: bytes, ow: nat) {
    Within(output, ow) && Value(output, ow) == Front(n, stash)
  }

  lemma TakeIn(n: nat, stash: nat, output: bytes, ow: nat, iw: nat, c: nat)
    requires Regrouped(n, stash, output, ow) && c < Pow2(iw)
    ensures Regrouped(Append(n, iw, c), stash + iw, output, ow)
  {
    hide Pow2, Front, Append;
    AppendSplits(n, iw, c);
    FrontFront(Append(n, iw, c), iw, stash);
  }

  lemma Emit(n: nat, stash: nat, output: bytes, ow: nat)
    requires ow == 5 || ow == 8
    requires ow <= stash <= ow + 7 && Regrouped(n, stash, output, ow)
    ensures Field(Int32(n), stash - ow, ow) < 0x100
    ensures Regrouped(n, stash - ow, output + [Field(Int32(n), stash - ow, ow)], ow)
  {
    var e := Field(Int32(n), stash - ow, ow);
    SmallPowers();
    hide Pow2, Front, Last, Append, Int32, Field;
    FieldWraps(n, stash - ow, ow);
    FrontFront(n, stash - ow, ow);
    FrontLast(Front(n, stash - ow), ow);
    ValueAppend(output, e, ow);
  }

  /** The bits left over, moved to the high end of one more symbol. */
  lemma PadField(n: nat, stash: nat, ow: nat)
    requires (ow == 5 || ow == 8) && stash < ow
    ensures ShiftLeft(Int32(n), ow - stash) % Pow2(ow) == Last(n, stash) * Pow2(ow - stash) < Pow2(ow)
    ensures Append(Front(n, stash), ow, Last(n, stash) * Pow2(ow - stash)) == Append(n, ow - stash, 0)
  {
    var k := ow - stash;
    var f, l := Front(n, stash), Last(n, stash);
    SmallPowers();
    hide Pow2, Front, Last, Int32;
    FrontLast(n, stash);
    Pow2Sum(stash, k);
    Distribute(f, Pow2(stash), l, Pow2(k), 0);
    AppendBound(l, k, 0, Pow2(stash));
    DivMod(f, l * Pow2(k), Pow2(ow));
    ShiftModulo(n, Pow2(k), Pow2(ow));
  }

  lemma ShiftModulo(n: nat, d: nat, m: nat)
    requires m == 32 || m == 256
    ensures Int32(Int32(n) * d) % m == n * d % m
  {
    hide Int32;
    var x := Int32(n);
    var k := Int32Multiple(n);
    var y := Int32(x * d);
    var j := Int32Multiple(x * d);
    assert n * d == y + 0x1_0000_0000 * (j + k * d) by {
      MulMultiple(x, k, d);
    }
    ModPeriodic(y, j + k * d, 0x1_0000_0000, m);
  }

  lemma MulMultiple(x: int, k: int, d: nat)
    ensures (x + 0x1_0000_0000 * k) * d == x * d + 0x1_0000_0000 * (k * d)
  {
  }

  /** The number of bits in a sequence of `w`-bit symbols. */
  function Bits(count: nat, w: nat): nat {
    if w == 5 then 5 * count else 8 * count
  }

  /** The inner loop: emits symbols while the stash holds a whole one. */
  method EmitWhole(accumulator: int, ghost n: nat, stash: nat, emitted: bytes, ow: nat)
    returns (bitstash: nat, output: bytes)
    requires (ow == 5 || ow == 8) && stash < ow + 8
    requires accumulator == Int32(n) && Regrouped(n, stash, emitted, ow)
    ensures bitstash < ow && Bits(|output|, ow) + bitstash == Bits(|emitted|, ow) + stash
    ensures Regrouped(n, bitstash, output, ow)
  {
    hide Int32, Field, Regrouped;
    bitstash, output := stash, emitted;
    while bitstash >= ow
      invariant bitstash < ow + 8
      invariant Bits(|output|, ow) + bitstash == Bits(|emitted|, ow) + stash
      invariant Regrouped(n, bitstash, output, ow)
    {
      Emit(n, bitstash, output, ow);
      bitstash := bitstash - ow;
      output := output + [Field(accumulator, bitstash, ow)];
    }
  }

  /** `ByteSquasher`, which is called with the widths 8 and 5, and 5 and 8. */
  method ByteSquasher(input: bytes, inputWidth: nat, outputWidth: nat) returns (r: Option<bytes>)
    requires (inputWidth == 8 && outputWidth == 5) || (inputWidth == 5 && outputWidth == 8)
    ensures r == if inputWidth == 8 then Some(Bytes8to5(input)) else Bytes5to8(input)
  {
    SmallPowers();
    hide Pow2, Append, Front, Int32, Accumulate, Field, ShiftLeft, Regrouped, Value;
    var bitstash: nat := 0;
    var accumulator: int := 0;
    var output: bytes := [];
    var maxOutputValue := Pow2(outputWidth) - 1;
    EmptyState(inputWidth, outputWidth);
    assert input[..0] == [];
    for i := 0 to |input|
      invariant Within(input[..i], inputWidth)
      invariant accumulator == Int32(Value(input[..i], inputWidth))
      invariant bitstash < outputWidth
      invariant Bits(|output|, outputWidth) + bitstash == Bits(i, inputWidth)
      invariant Regrouped(Value(input[..i], inputWidth), bitstash, output, outputWidth)
    {
      var c := input[i];
      if c >= Pow2(inputWidth) {
        assert !Within(input, inputWidth);
        return None;
      }
      ghost var n := Value(input[..i], inputWidth);
      assert input[..i + 1] == input[..i] + [c];
      ValueAppend(input[..i], c, inputWidth);
      AccumulateWraps(n, inputWidth, c);
      TakeIn(n, bitstash, output, outputWidth, inputWidth, c);
      accumulator := Accumulate(accumulator, inputWidth, c);
      bitstash, output := EmitWhole(accumulator, Append(n, inputWidth, c), bitstash + inputWidth, output, outputWidth);
    }
    assert input[..|input|] == input;
    ghost var n := Value(input, inputWidth);
    PadField(n, bitstash, outputWidth);
    var padding := ShiftLeft(accumulator, outputWidth - bitstash) % (maxOutputValue + 1);
    if inputWidth == 8 {
      Finish8to5(input, output, bitstash, padding);
      if bitstash != 0 {
        output := output + [padding];
      }
    } else {
      Finish5to8(input, output, bitstash);
      if bitstash >= inputWidth || padding != 0 {
        return None;
      }
    }
    return Some(output);
  }

  lemma NothingLeft(n: nat)
    ensures Front(n, 0) == n == Append(n, 0, 0)
  {
  }

  lemma EmptyState(iw: nat, ow: nat)
    ensures Int32(Value([], iw)) == 0
    ensures Regrouped(Value([], iw), 0, [], ow)
  {
  }

  lemma Finish8to5(input: bytes, output: bytes, stash: nat, last: byte)
    requires stash < 5 && Regrouped(Value(input, 8), stash, output, 5)
    requires 5 * |output| + stash == 8 * |input|
    requires last < Pow2(5) && Append(Front(Value(input, 8), stash), 5, last) == Append(Value(input, 8), 5 - stash, 0)
    ensures Bytes8to5(input) == if stash == 0 then output else output + [last]
  {
    hide Pow2, Append, Front, Pad, Value;
    var all, padding := if stash == 0 then output else output + [last], if stash == 0 then 0 else 5 - stash;
    NothingLeft(Value(input, 8));
    ValueAppend(output, last, 5);
    CountsMatch(|input|, |all|, padding);
    SymbolsOfValue(all, 5);
  }

  lemma Finish5to8(input: bytes, output: bytes, stash: nat)
    requires stash < 8 && Regrouped(Value(input, 5), stash, output, 8) && Within(input, 5)
    requires 8 * |output| + stash == 5 * |input|
    ensures Bytes5to8(input) ==
      if stash < 5 && Last(Value(input, 5), stash) * Pow2(8 - stash) == 0 then Some(output) else None
  {
    hide Pow2, Front, Last, Value;
    assert Rest(|input|) == stash && 5 * |input| / 8 == |output|;
    SymbolsOfValue(output, 8);
    ProductZero(Last(Value(input, 5), stash), Pow2(8 - stash));
  }

  lemma ProductZero(a: nat, b: nat)
    requires b > 0
    ensures a * b == 0 <==> a == 0
  {
  }
}
