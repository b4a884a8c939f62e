/**
 * Which code the generator words of LNBolt/BOLT11/Bech32.cs make: the one of BIP 173, over the field of 32 elements
 * that is generated by a root of x^5 + x^3 + 1.
 */
module Bech32Code {
  import opened Bech32Checksum

  /** Multiplication by x: a carry out of five bits is reduced. */
  function Double(a: bv32): bv32 {
    if a & 0x10 == 0 then a << 1 else (a << 1) ^ 0x29
  }

  function IfBit(b: bv32, mask: bv32, a: bv32): bv32 {
    if b & mask == 0 then 0 else a
  }

  /** The product in the field: carry-less multiplication modulo x^5 + x^3 + 1. */
  function Times(a: bv32, b: bv32): bv32 {
    var a1 := Double(a);
    var a2 := Double(a1);
    var a3 := Double(a2);
    var a4 := Double(a3);
    IfBit(b, 1, a) ^ IfBit(b, 2, a1) ^ IfBit(b, 4, a2) ^ IfBit(b, 8, a3) ^ IfBit(b, 16, a4)
  }

  /** The coefficients of the generator polynomial of BIP 173, from x^5 down; x^6 has 1. */
  const G5: bv32 := 29
  const G4: bv32 := 22
  const G3: bv32 := 20
  const G2: bv32 := 21
  const G1: bv32 := 29
  const G0: bv32 := 18

  /** Six symbols in 30 bits. */
  function Packed(p5: bv32, p4: bv32, p3: bv32, p2: bv32, p1: bv32, p0: bv32): bv32 {
    (p5 << 25) ^ (p4 << 20) ^ (p3 << 15) ^ (p2 << 10) ^ (p1 << 5) ^ p0
  }

  predicate IsMultiple(top: bv32) {
    Feedback(top) == Packed(Times(G5, top), Times(G4, top), Times(G3, top), Times(G2, top), Times(G1, top), Times(G0, top))
  }

  /** The feedback of a symbol is its multiple of the generator polynomial. */
  lemma FeedbackIsMultiple(top: bv32)
    requires top < 32
    ensures Feedback(top) ==
      Packed(Times(G5, top), Times(G4, top), Times(G3, top), Times(G2, top), Times(G1, top), Times(G0, top))
  {
    hide Feedback, Times, Packed;
    if top < 4 {
      Below4(top);
    } else if top < 8 {
      Below8(top);
    } else if top < 16 {
      Below16(top);
    } else if top < 24 {
      Below24(top);
    } else {
      Below32(top);
    }
  }

  lemma Below4(top: bv32)
    requires top < 4
    ensures IsMultiple(top)
  {
    hide IsMultiple;
    Smallest();
    assert top == 0 || top == 1 || top == 2 || top == 3;
  }

  lemma Smallest()
    ensures IsMultiple(0) && IsMultiple(1) && IsMultiple(2) && IsMultiple(3)
  {
  }

  lemma Below8(top: bv32)
    requires 4 <= top < 8
    ensures IsMultiple(top)
  {
  }

  lemma Below16(top: bv32)
    requires 8 <= top < 16
    ensures IsMultiple(top)
  {
  }

  lemma Below24(top: bv32)
    requires 16 <= top < 24
    ensures IsMultiple(top)
  {
  }

  lemma Below32(top: bv32)
    requires 24 <= top < 32
    ensures IsMultiple(top)
  {
  }

  /**
   * A step is one step of the division by the generator polynomial: the remainder's coefficients move up, the symbol
   * comes in, and the multiple of the generator that cancels the highest one is taken off.
   */
  lemma StepDivides(chk: bv32, value: bv32)
    requires chk < 0x4000_0000 && value < 32
    ensures var top := Digit(chk, 25);
      Words(Step(chk, value)) == [
        Plus(Digit(chk, 20), Times(G5, top)), Plus(Digit(chk, 15), Times(G4, top)),
        Plus(Digit(chk, 10), Times(G3, top)), Plus(Digit(chk, 5), Times(G2, top)),
        Plus(Digit(chk, 0), Times(G1, top)), Plus(value, Times(G0, top))]
  {
    hide *;
    var top, next := Digit(chk, 25), Step(chk, value);
    StepMixes(chk, value);
    Multiple(top, Times(G5, top), Times(G4, top), Times(G3, top), Times(G2, top), Times(G1, top), Times(G0, top));
    MixDigits(chk, value, Feedback(top),
              Times(G5, top), Times(G4, top), Times(G3, top), Times(G2, top), Times(G1, top), Times(G0, top));
    WordsAre(next);
  }

  lemma Multiple(top: bv32, p5: bv32, p4: bv32, p3: bv32, p2: bv32, p1: bv32, p0: bv32)
    requires top < 32
    requires p5 == Times(G5, top) && p4 == Times(G4, top) && p3 == Times(G3, top)
    requires p2 == Times(G2, top) && p1 == Times(G1, top) && p0 == Times(G0, top)
    ensures p5 < 32 && p4 < 32 && p3 < 32 && p2 < 32 && p1 < 32 && p0 < 32
    ensures Feedback(top) == Packed(p5, p4, p3, p2, p1, p0)
  {
    hide Times, Feedback, Packed;
    FeedbackIsMultiple(top);
    TimesBound(G5, top);
    TimesBound(G4, top);
    TimesBound(G3, top);
    TimesBound(G2, top);
    TimesBound(G1, top);
    TimesBound(G0, top);
  }

  lemma WordsAre(x: bv32)
    ensures Words(x) == [Digit(x, 25), Digit(x, 20), Digit(x, 15), Digit(x, 10), Digit(x, 5), Digit(x, 0)]
  {
  }

  lemma StepMixes(chk: bv32, value: bv32)
    requires chk < 0x4000_0000
    ensures Step(chk, value) == Mix(chk, value, Feedback(Digit(chk, 25))) && Digit(chk, 25) < 32
  {
    hide *;
    TopDigit(chk);
    StepIs(chk, value, Feedback(Digit(chk, 25)));
  }

  lemma TopDigit(chk: bv32)
    requires chk < 0x4000_0000
    ensures chk >> 25 == Digit(chk, 25) < 32
  {
  }

  lemma MixDigits(chk: bv32, value: bv32, feedback: bv32,
                  p5: bv32, p4: bv32, p3: bv32, p2: bv32, p1: bv32, p0: bv32)
    requires value < 32 && p5 < 32 && p4 < 32 && p3 < 32 && p2 < 32 && p1 < 32 && p0 < 32
    requires feedback == Packed(p5, p4, p3, p2, p1, p0)
    ensures var x := Mix(chk, value, feedback);
      && Digit(x, 25) == Plus(Digit(chk, 20), p5)
      && Digit(x, 20) == Plus(Digit(chk, 15), p4)
      && Digit(x, 15) == Plus(Digit(chk, 10), p3)
      && Digit(x, 10) == Plus(Digit(chk, 5), p2)
      && Digit(x, 5) == Plus(Digit(chk, 0), p1)
      && Digit(x, 0) == Plus(value, p0)
  {
    hide Digit;
    DigitIs(Mix(chk, value, feedback));
    DigitIs(chk);
  }

  // ---------- the product

  lemma TimesBound(a: bv32, b: bv32)
    requires a < 32
    ensures Times(a, b) < 32
  {
  }

  lemma TimesUnit(a: bv32)
    ensures Times(a, 1) == a && Times(a, 2) == Double(a)
  {
    hide Double;
  }

  /** There are no divisors of zero. */
  lemma TimesIsZero(a: bv32, b: bv32)
    requires a < 32 && b < 32
    ensures Times(a, b) == 0 <==> a == 0 || b == 0
  {
  }
}
