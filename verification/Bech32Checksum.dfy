/** LNBolt/BOLT11/Bech32.cs: the BCH checksum of BIP 173. */
module Bech32Checksum {
  import opened Bytes

  const GENERATOR: seq<bv32> := [0x3b6a57b2, 0x26508e6d, 0x1ea119fa, 0x3d4233dd, 0x2a1462b3]

  /** The generators selected by the five bits that a step shifts out. */
  function Feedback(top: bv32): bv32 {
    (if (top >> 0) & 1 == 1 then 0x3b6a57b2 else 0) ^
    (if (top >> 1) & 1 == 1 then 0x26508e6d else 0) ^
    (if (top >> 2) & 1 == 1 then 0x1ea119fa else 0) ^
    (if (top >> 3) & 1 == 1 then 0x3d4233dd else 0) ^
    (if (top >> 4) & 1 == 1 then 0x2a1462b3 else 0)
  }

  function Mix(chk: bv32, value: bv32, feedback: bv32): bv32 {
    ((chk & 0x1ffffff) << 5) ^ value ^ feedback
  }

  /** The body of `PolyMod`'s loop, for one symbol. */
  function Step(chk: bv32, value: bv32): bv32 {
    Mix(chk, value, Feedback(chk >> 25))
  }

  function Fold(chk: bv32, symbols: seq<bv32>): bv32
    decreases |symbols|
  {
    if symbols == [] then chk else Fold(Step(chk, symbols[0]), symbols[1..])
  }

  function Word(value: byte): bv32 {
    (value as bv8) as bv32
  }

  function Symbols(values: bytes): (s: seq<bv32>)
    ensures |s| == |values|
    ensures forall i :: 0 <= i < |values| ==> s[i] == Word(values[i])
  {
    seq(|values|, i requires 0 <= i < |values| => Word(values[i]))
  }

  function PolyMod(values: bytes): bv32 {
    Fold(1, Symbols(values))
  }

  /** Five-bit symbols, as bytes and as words. */
  predicate Squashed(values: bytes) {
    forall i :: 0 <= i < |values| ==> values[i] < 32
  }

  predicate Small(symbols: seq<bv32>) {
    forall i :: 0 <= i < |symbols| ==> symbols[i] < 32
  }

  // ---------- one step, as a map on bits

  lemma TopSame(chk: bv32, d: bv32)
    requires d < 0x200_0000
    ensures Plus(chk, d) >> 25 == chk >> 25
  {
  }

  lemma MixLow(chk: bv32, d: bv32, value: bv32, feedback: bv32)
    requires d < 0x200_0000
    ensures Mix(Plus(chk, d), value, feedback) == Plus(Mix(chk, 0, feedback), Push(d, value))
  {
  }

  lemma StepIs(chk: bv32, value: bv32, feedback: bv32)
    requires feedback == Feedback(chk >> 25)
    ensures Step(chk, value) == Mix(chk, value, feedback)
  {
  }

  /** Addition of words over GF(2). */
  function Plus(a: bv32, b: bv32): bv32 {
    a ^ b
  }

  /** A symbol shifted into a word, without feedback. */
  function Push(d: bv32, value: bv32): bv32 {
    (d << 5) ^ value
  }

  /** A difference in the low 25 bits only moves up; the feedback does not see it. */
  lemma StepLow(chk: bv32, d: bv32, value: bv32)
    requires d < 0x200_0000
    ensures Step(Plus(chk, d), value) == Plus(Step(chk, 0), Push(d, value))
  {
    hide *;
    var feedback := Feedback(chk >> 25);
    assert Step(Plus(chk, d), value) == Mix(Plus(chk, d), value, feedback) by {
      TopSame(chk, d);
      StepIs(Plus(chk, d), value, feedback);
    }
    MixLow(chk, d, value, feedback);
    StepIs(chk, 0, feedback);
  }

  /** A step keeps the state within 30 bits. */
  lemma StepBound(chk: bv32, value: bv32)
    requires value < 32
    ensures Step(chk, value) < 0x4000_0000
  {
  }

  /** The five bits shifted out can be read off the low bits of the feedback. */
  lemma FeedbackInjective(s: bv32, t: bv32)
    requires s < 32 && t < 32 && Feedback(s) & 0x1f == Feedback(t) & 0x1f
    ensures s == t
  {
  }

  lemma StepInjective(a: bv32, b: bv32, value: bv32)
    requires a < 0x4000_0000 && b < 0x4000_0000
    requires Step(a, value) == Step(b, value)
    ensures a == b
  {
    FeedbackInjective(a >> 25, b >> 25);
  }

  // ---------- up to six symbols

  /** How many low bits of the state may differ before `n` more symbols without reaching the feedback. */
  function Room(n: nat): bv32 {
    if n == 0 then 0x4000_0000 else if n == 1 then 0x200_0000 else if n == 2 then 0x10_0000
    else if n == 3 then 0x8000 else if n == 4 then 0x400 else if n == 5 then 0x20 else 1
  }

  predicate Below(d: bv32, n: nat) {
    d < Room(n)
  }

  lemma RoomStep(d: bv32, value: bv32, n: nat)
    requires 0 < n <= 6 && Below(d, n) && value < 32
    ensures d < 0x200_0000
    ensures Below(Push(d, value), n - 1)
  {
  }

  /** Symbols shifted into a word without feedback. */
  function Pack(d: bv32, symbols: seq<bv32>): bv32
    decreases |symbols|
  {
    if symbols == [] then d else Pack(Push(d, symbols[0]), symbols[1..])
  }

  function ZeroSymbols(n: nat): (z: seq<bv32>)
    ensures |z| == n
    ensures n > 0 ==> z[0] == 0 && z[1..] == ZeroSymbols(n - 1)
    ensures forall i :: 0 <= i < n ==> z[i] == 0
  {
    if n == 0 then [] else [0] + ZeroSymbols(n - 1)
  }

  /** Up to six symbols act on a state like zeros, and their packed bits are added. */
  lemma {:induction false} FoldLow(chk: bv32, d: bv32, symbols: seq<bv32>)
    requires |symbols| <= 6 && Small(symbols) && Below(d, |symbols|)
    ensures Fold(Plus(chk, d), symbols) == Plus(Fold(chk, ZeroSymbols(|symbols|)), Pack(d, symbols))
    decreases |symbols|
  {
    hide Step, Below, Plus, Push;
    if symbols != [] {
      RoomStep(d, symbols[0], |symbols|);
      StepLow(chk, d, symbols[0]);
      FoldLow(Step(chk, 0), Push(d, symbols[0]), symbols[1..]);
    }
  }

  /** Two words with room for their next symbols: packing a symbol loses nothing. */
  lemma PackStep(d: bv32, e: bv32, v: bv32, w: bv32, n: nat)
    requires 0 < n <= 6 && v < 32 && w < 32 && Below(d, n) && Below(e, n)
    ensures Below(Push(d, v), n - 1) && Below(Push(e, w), n - 1)
    ensures Push(d, v) == Push(e, w) ==> d == e && v == w
  {
    RoomStep(d, v, n);
    RoomStep(e, w, n);
  }

  lemma {:induction false} PackInjective(d: bv32, e: bv32, a: seq<bv32>, b: seq<bv32>)
    requires |a| == |b| <= 6 && Small(a) && Small(b) && Below(d, |a|) && Below(e, |a|)
    requires Pack(d, a) == Pack(e, b)
    ensures d == e && a == b
    decreases |a|
  {
    hide Below, Push, Small;
    if a != [] {
      SmallTail(a);
      SmallTail(b);
      PackStep(d, e, a[0], b[0], |a|);
      PackInjective(Push(d, a[0]), Push(e, b[0]), a[1..], b[1..]);
      SameSequence(a, b);
    }
  }

  lemma SmallTail(a: seq<bv32>)
    requires a != [] && Small(a)
    ensures a[0] < 32 && Small(a[1..])
  {
  }

  lemma SameSequence(a: seq<bv32>, b: seq<bv32>)
    requires a != [] && b != [] && a[0] == b[0] && a[1..] == b[1..]
    ensures a == b
  {
    assert a == [a[0]] + a[1..] && b == [b[0]] + b[1..];
  }

  // ---------- any number of symbols

  lemma {:induction false} FoldConcat(chk: bv32, a: seq<bv32>, b: seq<bv32>)
    ensures Fold(chk, a + b) == Fold(Fold(chk, a), b)
    decreases |a|
  {
    hide Step;
    if a == [] {
      assert a + b == b;
    } else {
      FoldConcat(Step(chk, a[0]), a[1..], b);
      assert (a + b)[1..] == a[1..] + b;
    }
  }

  lemma {:induction false} FoldBound(chk: bv32, symbols: seq<bv32>)
    requires chk < 0x4000_0000 && Small(symbols)
    ensures Fold(chk, symbols) < 0x4000_0000
    decreases |symbols|
  {
    hide Step;
    if symbols != [] {
      StepBound(chk, symbols[0]);
      FoldBound(Step(chk, symbols[0]), symbols[1..]);
    }
  }

  lemma {:induction false} FoldInjective(a: bv32, b: bv32, symbols: seq<bv32>)
    requires a < 0x4000_0000 && b < 0x4000_0000 && Small(symbols)
    requires Fold(a, symbols) == Fold(b, symbols)
    ensures a == b
    decreases |symbols|
  {
    hide Step;
    if symbols != [] {
      StepBound(a, symbols[0]);
      StepBound(b, symbols[0]);
      FoldInjective(Step(a, symbols[0]), Step(b, symbols[0]), symbols[1..]);
      StepInjective(a, b, symbols[0]);
    }
  }

  lemma PlusCancel(x: bv32, p: bv32, q: bv32)
    requires Plus(x, p) == Plus(x, q)
    ensures p == q
  {
  }

  lemma PlusZero(x: bv32)
    ensures Plus(x, 0) == x
  {
  }

  lemma {:induction false} BurstInSymbols(chk: bv32, a: seq<bv32>, b: seq<bv32>, after: seq<bv32>)
    requires chk < 0x4000_0000 && |a| == |b| <= 6 && Small(a) && Small(b) && Small(after)
    requires Fold(chk, a + after) == Fold(chk, b + after)
    ensures a == b
  {
    hide Fold, Pack, Plus, Small;
    FoldConcat(chk, a, after);
    FoldConcat(chk, b, after);
    FoldBound(chk, a);
    FoldBound(chk, b);
    FoldInjective(Fold(chk, a), Fold(chk, b), after);
    PlusZero(chk);
    FoldLow(chk, 0, a);
    FoldLow(chk, 0, b);
    PlusCancel(Fold(chk, ZeroSymbols(|a|)), Pack(0, a), Pack(0, b));
    PackInjective(0, 0, a, b);
  }

  // ---------- bytes

  lemma WordSmall(v: byte)
    requires v < 32
    ensures Word(v) < 32
  {
  }

  lemma SymbolThroughBits(v: byte)
    requires v < 32
    ensures (v as bv8) as int == v
  {
  }

  lemma BitsThroughByte(x: bv8)
    ensures (x as int) as bv8 == x
  {
  }

  lemma WordInjective(v: byte, w: byte)
    requires v < 32 && w < 32 && Word(v) == Word(w)
    ensures v == w
  {
    WidenInjective(v as bv8, w as bv8);
    SymbolThroughBits(v);
    SymbolThroughBits(w);
  }

  lemma WidenInjective(x: bv8, y: bv8)
    requires x as bv32 == y as bv32
    ensures x == y
  {
  }

  lemma SymbolsSmall(values: bytes)
    requires Squashed(values)
    ensures Small(Symbols(values))
  {
    hide Word;
    forall i | 0 <= i < |values|
      ensures Symbols(values)[i] < 32
    {
      WordSmall(values[i]);
    }
  }

  lemma SymbolsInjective(a: bytes, b: bytes)
    requires Squashed(a) && Squashed(b) && Symbols(a) == Symbols(b)
    ensures a == b
  {
    hide Word;
    forall i | 0 <= i < |a|
      ensures a[i] == b[i]
    {
      assert Symbols(a)[i] == Symbols(b)[i];
      WordInjective(a[i], b[i]);
    }
  }

  lemma SymbolsConcat(a: bytes, b: bytes)
    ensures Symbols(a + b) == Symbols(a) + Symbols(b)
  {
    hide Word;
  }

  /**
   * Burst detection: changing anything within a window of at most six symbols changes the checksum, whatever
   * stands before and after the window and however long it is.
   */
  lemma BurstDetected(before: bytes, a: bytes, b: bytes, after: bytes)
    requires Squashed(before) && Squashed(a) && Squashed(b) && Squashed(after)
    requires |a| == |b| <= 6
    ensures PolyMod(before + a + after) == PolyMod(before + b + after) <==> a == b
  {
    hide Symbols, Fold, Small, Squashed;
    SymbolsSmall(before);
    SymbolsSmall(a);
    SymbolsSmall(b);
    SymbolsSmall(after);
    WindowFold(before, a, after);
    WindowFold(before, b, after);
    if PolyMod(before + a + after) == PolyMod(before + b + after) {
      FoldBound(1, Symbols(before));
      BurstInSymbols(Fold(1, Symbols(before)), Symbols(a), Symbols(b), Symbols(after));
      SymbolsInjective(a, b);
    }
  }

  lemma WindowFold(before: bytes, a: bytes, after: bytes)
    ensures PolyMod(before + a + after) == Fold(Fold(1, Symbols(before)), Symbols(a) + Symbols(after))
  {
    hide Symbols, Fold;
    assert before + a + after == before + (a + after);
    SymbolsConcat(before, a + after);
    SymbolsConcat(a, after);
    FoldConcat(1, Symbols(before), Symbols(a) + Symbols(after));
  }

  // ---------- the six checksum symbols

  /** The five bits from bit `k` on. */
  function Digit(x: bv32, k: nat): bv32
    requires k <= 25
  {
    (x >> k) & 0x1f
  }

  function Words(x: bv32): seq<bv32> {
    [Digit(x, 25), Digit(x, 20), Digit(x, 15), Digit(x, 10), Digit(x, 5), Digit(x, 0)]
  }

  /** A 30-bit checksum as six symbols, the highest first. */
  function Expand(x: bv32): (s: bytes)
    ensures |s| == 6
  {
    [DigitByte(x, 25), DigitByte(x, 20), DigitByte(x, 15), DigitByte(x, 10), DigitByte(x, 5), DigitByte(x, 0)]
  }

  function DigitByte(x: bv32, k: nat): byte
    requires k <= 25
  {
    DigitSmall(x, k);
    (Digit(x, k) as bv8) as int
  }

  lemma DigitSmall(x: bv32, k: nat)
    requires k <= 25
    ensures Digit(x, k) < 32
  {
    MaskSmall(x >> k);
  }

  lemma MaskSmall(x: bv32)
    ensures x & 0x1f < 32
  {
  }

  lemma NarrowWiden(x: bv32)
    requires x < 32
    ensures (x as bv8) as bv32 == x
  {
  }

  lemma NarrowSmall(x: bv32)
    requires x < 32
    ensures (x as bv8) as int < 32
  {
  }

  lemma DigitWord(x: bv32, k: nat)
    requires k <= 25
    ensures DigitByte(x, k) < 32 && Digit(x, k) < 32
    ensures Word(DigitByte(x, k)) == Digit(x, k)
  {
    hide Digit;
    DigitSmall(x, k);
    NarrowSmall(Digit(x, k));
    BitsThroughByte(Digit(x, k) as bv8);
    NarrowWiden(Digit(x, k));
  }

  lemma ExpandWords(x: bv32)
    ensures Squashed(Expand(x))
    ensures Symbols(Expand(x)) == Words(x)
    ensures Small(Words(x))
  {
    hide Digit, DigitByte, Word;
    DigitWord(x, 25);
    DigitWord(x, 20);
    DigitWord(x, 15);
    DigitWord(x, 10);
    DigitWord(x, 5);
    DigitWord(x, 0);
  }

  lemma PackCons(d: bv32, v: bv32, w: seq<bv32>)
    ensures Pack(d, [v] + w) == Pack(Push(d, v), w)
  {
    hide Push;
    assert ([v] + w)[1..] == w;
  }

  lemma PackSix(a: bv32, b: bv32, c: bv32, d: bv32, e: bv32, f: bv32)
    ensures Pack(0, [a, b, c, d, e, f]) == Push(Push(Push(Push(Push(Push(0, a), b), c), d), e), f)
  {
    hide Push;
    assert [a, b, c, d, e, f] == [a] + ([b] + ([c] + ([d] + ([e] + ([f] + [])))));
    PackCons(0, a, [b] + ([c] + ([d] + ([e] + ([f] + [])))));
    PackCons(Push(0, a), b, [c] + ([d] + ([e] + ([f] + []))));
    PackCons(Push(Push(0, a), b), c, [d] + ([e] + ([f] + [])));
    PackCons(Push(Push(Push(0, a), b), c), d, [e] + ([f] + []));
    PackCons(Push(Push(Push(Push(0, a), b), c), d), e, [f] + []);
    PackCons(Push(Push(Push(Push(Push(0, a), b), c), d), e), f, []);
  }

  /** The six digits of a 30-bit word, put together again. */
  lemma DigitsJoin(x: bv32)
    requires x < 0x4000_0000
    ensures (((((((((((x >> 25) & 0x1f) << 5) ^ ((x >> 20) & 0x1f)) << 5) ^ ((x >> 15) & 0x1f)) << 5)
      ^ ((x >> 10) & 0x1f)) << 5) ^ ((x >> 5) & 0x1f)) << 5) ^ ((x >> 0) & 0x1f) == x
  {
  }

  lemma PushDigits(x: bv32, a: bv32, b: bv32, c: bv32, d: bv32, e: bv32, f: bv32)
    requires x < 0x4000_0000
    requires a == (x >> 25) & 0x1f && b == (x >> 20) & 0x1f && c == (x >> 15) & 0x1f
    requires d == (x >> 10) & 0x1f && e == (x >> 5) & 0x1f && f == (x >> 0) & 0x1f
    ensures Push(Push(Push(Push(Push(Push(0, a), b), c), d), e), f) == x
  {
    DigitsJoin(x);
    assert Push(0, a) == a;
  }

  lemma DigitIs(x: bv32)
    ensures Digit(x, 25) == (x >> 25) & 0x1f && Digit(x, 20) == (x >> 20) & 0x1f && Digit(x, 15) == (x >> 15) & 0x1f
    ensures Digit(x, 10) == (x >> 10) & 0x1f && Digit(x, 5) == (x >> 5) & 0x1f && Digit(x, 0) == (x >> 0) & 0x1f
  {
  }

  lemma PackWords(x: bv32)
    requires x < 0x4000_0000
    ensures Pack(0, Words(x)) == x
  {
    hide Digit, Push, Pack;
    DigitIs(x);
    var a, b, c, d, e, f := Digit(x, 25), Digit(x, 20), Digit(x, 15), Digit(x, 10), Digit(x, 5), Digit(x, 0);
    PackSix(a, b, c, d, e, f);
    PushDigits(x, a, b, c, d, e, f);
  }

  /** `CreateChecksum` over the expanded prefix and the data. */
  function Checksum(values: bytes): (s: bytes)
    ensures |s| == 6
  {
    Expand(PolyMod(values + Zeros(6)) ^ 1)
  }

  lemma FlipLow(p: bv32)
    requires p < 0x4000_0000
    ensures p ^ 1 < 0x4000_0000
    ensures Plus(p, p ^ 1) == 1
  {
  }

  lemma ZeroBytesAreZeroSymbols(n: nat)
    ensures Symbols(Zeros(n)) == ZeroSymbols(n)
  {
    if n > 0 {
      ZeroBytesAreZeroSymbols(n - 1);
      assert Zeros(n) == [0] + Zeros(n - 1);
      SymbolsConcat([0], Zeros(n - 1));
    }
  }

  lemma AppendFold(values: bytes, tail: bytes)
    ensures PolyMod(values + tail) == Fold(Fold(1, Symbols(values)), Symbols(tail))
  {
    hide Symbols, Fold;
    SymbolsConcat(values, tail);
    FoldConcat(1, Symbols(values), Symbols(tail));
  }

  /** Appending the checksum makes the whole check out, for every sequence of five-bit symbols. */
  lemma ChecksumCompletes(values: bytes)
    requires Squashed(values)
    ensures Squashed(Checksum(values))
    ensures PolyMod(values + Checksum(values)) == 1
  {
    hide Symbols, Fold, PolyMod, Pack, Plus, Words, Expand, Small, Squashed;
    var state := Fold(1, Symbols(values));
    var p := PolyMod(values + Zeros(6));
    AppendFold(values, Zeros(6));
    ZeroBytesAreZeroSymbols(6);
    SymbolsSmall(values);
    FoldBound(1, Symbols(values));
    ZeroFoldBound(state);
    FlipLow(p);
    ExpandWords(p ^ 1);
    PackWords(p ^ 1);
    AppendFold(values, Checksum(values));
    PlusZero(state);
    FoldLow(state, 0, Words(p ^ 1));
    assert |Words(p ^ 1)| == 6;
  }

  lemma ZeroFoldBound(state: bv32)
    requires state < 0x4000_0000
    ensures Fold(state, ZeroSymbols(6)) < 0x4000_0000
  {
    hide Fold;
    assert 0 as bv32 < 32;
    FoldBound(state, ZeroSymbols(6));
  }

  /** Every sequence has exactly one checksum: of all six-symbol endings only `Checksum` checks out. */
  lemma ChecksumIsUnique(values: bytes, ending: bytes)
    requires Squashed(values) && Squashed(ending) && |ending| == 6
    ensures PolyMod(values + ending) == 1 <==> ending == Checksum(values)
  {
    hide Squashed, PolyMod, Checksum;
    ChecksumCompletes(values);
    assert Squashed([]) by {
      NothingIsSquashed();
    }
    BurstDetected(values, ending, Checksum(values), []);
    assert values + ending + [] == values + ending;
    assert values + Checksum(values) + [] == values + Checksum(values);
  }

  lemma {:induction false} FoldZero(n: nat)
    ensures Fold(0, ZeroSymbols(n)) == 0
    decreases n
  {
    hide Step;
    if n > 0 {
      StepZero();
      FoldFirst(0, ZeroSymbols(n));
      FoldZero(n - 1);
    } else {
      FoldNothing(0);
    }
  }

  lemma StepZero()
    ensures Step(0, 0) == 0
  {
  }

  /** One to five symbols never pass: the initial one of the state is still in front of them. */
  lemma ShortNeverPasses(values: bytes)
    requires Squashed(values) && 0 < |values| < 6
    ensures PolyMod(values) != 1
  {
    hide Pack, Fold, Small, Symbols;
    var n, s := |values|, Symbols(values);
    SymbolsSmall(values);
    var led, one := [1 as bv32] + s, ZeroSymbols(n) + [1];
    LeadingOne(s);
    TrailingOne(n);
    FoldLow(0, 0, led);
    FoldLow(0, 0, one);
    FoldZero(n + 1);
    assert led != one by {
      assert led[0] == 1 && one[0] == 0;
    }
    if PolyMod(values) == 1 {
      PackInjective(0, 0, led, one);
    }
  }

  lemma LeadingOne(s: seq<bv32>)
    requires Small(s)
    ensures Small([1 as bv32] + s)
    ensures Fold(0, [1 as bv32] + s) == Fold(1, s)
  {
    FoldFirst(0, [1 as bv32] + s);
    assert ([1 as bv32] + s)[1..] == s;
  }

  lemma TrailingOne(n: nat)
    ensures Small(ZeroSymbols(n) + [1])
    ensures Fold(0, ZeroSymbols(n) + [1]) == 1
  {
    FoldZero(n);
    FoldConcat(0, ZeroSymbols(n), [1]);
    FoldFirst(0, [1]);
  }

  lemma NothingIsSquashed()
    ensures Squashed([])
  {
  }

  // ---------- the loops of the original

  /** The generators selected by the lowest `n` of the five bits. */
  function FeedbackUpTo(top: bv32, n: nat): bv32
    requires n <= 5
  {
    if n == 0 then 0 else FeedbackUpTo(top, n - 1) ^ (if (top >> (n - 1)) & 1 == 1 then GENERATOR[n - 1] else 0)
  }

  lemma FeedbackUpToFive(top: bv32)
    ensures FeedbackUpTo(top, 5) == Feedback(top)
  {
    var f0 := FeedbackUpTo(top, 0);
    var f1 := FeedbackUpTo(top, 1);
    var f2 := FeedbackUpTo(top, 2);
    var f3 := FeedbackUpTo(top, 3);
    var f4 := FeedbackUpTo(top, 4);
    assert f1 == f0 ^ (if (top >> 0) & 1 == 1 then 0x3b6a57b2 else 0);
    assert f2 == f1 ^ (if (top >> 1) & 1 == 1 then 0x26508e6d else 0);
    assert f3 == f2 ^ (if (top >> 2) & 1 == 1 then 0x1ea119fa else 0);
    assert f4 == f3 ^ (if (top >> 3) & 1 == 1 then 0x3d4233dd else 0);
  }

  /** The inner loop of `PolyMod`. */
  method AddGenerators(top: bv32, start: bv32) returns (chk: bv32)
    ensures chk == start ^ Feedback(top)
  {
    hide Feedback;
    chk := start;
    for i := 0 to 5
      invariant chk == start ^ FeedbackUpTo(top, i)
    {
      if (top >> i) & 1 == 1 {
        chk := chk ^ GENERATOR[i];
      }
    }
    FeedbackUpToFive(top);
  }

  /** `PolyMod`. */
  method ComputePolyMod(values: bytes) returns (chk: bv32)
    ensures chk == PolyMod(values)
  {
    hide Feedback, Word, Fold;
    chk := 1;
    assert Symbols(values)[0..] == Symbols(values);
    for i := 0 to |values|
      invariant Fold(1, Symbols(values)) == Fold(chk, Symbols(values)[i..])
    {
      var top := chk >> 25;
      FoldFirst(chk, Symbols(values)[i..]);
      assert Symbols(values)[i..][1..] == Symbols(values)[i + 1..];
      chk := AddGenerators(top, ((chk & 0x1ffffff) << 5) ^ Word(values[i]));
    }
    FoldNothing(chk);
  }

  lemma FoldFirst(chk: bv32, symbols: seq<bv32>)
    requires symbols != []
    ensures Fold(chk, symbols) == Fold(Step(chk, symbols[0]), symbols[1..])
  {
  }

  lemma FoldNothing(chk: bv32)
    ensures Fold(chk, []) == chk
  {
  }

  /** The loop of `CreateChecksum` that expands 30 bits to six symbols. */
  method ComputeChecksum(values: bytes) returns (ret: array<byte>)
    ensures fresh(ret) && ret[..] == Checksum(values)
  {
    hide PolyMod, DigitByte;
    var polyMod := ComputePolyMod(values + Zeros(6));
    var checksum := polyMod ^ 1;
    ret := new byte[6](_ => 0);
    for i := 0 to 6
      invariant forall k :: 0 <= k < i ==> ret[k] == DigitByte(checksum, 5 * (5 - k))
    {
      ret[i] := DigitByte(checksum, 5 * (5 - i));
    }
    assert ret[..] == Expand(checksum);
  }
}
