/**
 * Sequences of `w`-bit symbols, the most significant first, read as one unbounded bit string, represented by its
 * value. With eight bits these are big-endian integers.
 */
module BitStrings {
  import opened Bytes

  /** A bit string with `w` more bits at its end, and what is left when they are taken off again. */
  function Append(n: nat, w: nat, last: nat): nat {
    n * Pow2(w) + last
  }

  function Front(n: nat, w: nat): nat {
    QuotientIsNat(n, Pow2(w));
    n / Pow2(w)
  }

  lemma QuotientIsNat(n: nat, d: nat)
    requires d > 0
    ensures n / d >= 0
  {
  }

  function Last(n: nat, w: nat): (r: nat)
    ensures r < Pow2(w)
  {
    n % Pow2(w)
  }

  /** The bit string of a sequence of `w`-bit symbols, as a number. */
  function Value(s: bytes, w: nat): nat {
    if s == [] then 0 else Append(Value(s[..|s| - 1], w), w, s[|s| - 1])
  }

  /** The low `count` symbols of a bit string. */
  function Symbols(n: nat, count: nat, w: nat): (s: bytes)
    requires w <= 8
    ensures |s| == count
    ensures Within(s, w)
  {
    if count == 0 then [] else
    SmallPowers();
    Symbols(Front(n, w), count - 1, w) + [Last(n, w)]
  }

  /** The number of sequences of `count` symbols. */
  function Size(count: nat, w: nat): (p: nat)
    ensures p > 0
  {
    if count == 0 then 1 else Size(count - 1, w) * Pow2(w)
  }

  predicate Within(s: bytes, w: nat) {
    forall i :: 0 <= i < |s| ==> s[i] < Pow2(w)
  }

  // ---------- arithmetic of bit strings

  lemma MulMono(a: nat, b: nat, d: nat)
    requires a <= b
    ensures a * d <= b * d
  {
  }

  lemma MulSucc(a: nat, d: nat)
    ensures (a + 1) * d == a * d + d
  {
  }

  lemma QuotientRemainder(n: nat, d: nat)
    requires d > 0
    ensures (n / d) * d + n % d == n
  {
  }

  lemma DivMod(q: nat, r: nat, d: nat)
    requires r < d
    ensures (q * d + r) / d == q && (q * d + r) % d == r
  {
    var x := q * d + r;
    QuotientRemainder(x, d);
    MulSucc(x / d, d);
    MulSucc(q, d);
    if x / d < q {
      MulMono(x / d + 1, q, d);
    } else if q < x / d {
      MulMono(q + 1, x / d, d);
    }
  }

  lemma FrontLast(n: nat, w: nat)
    ensures Append(Front(n, w), w, Last(n, w)) == n
  {
    hide Pow2;
    QuotientRemainder(n, Pow2(w));
  }

  lemma AppendSplits(n: nat, w: nat, last: nat)
    requires last < Pow2(w)
    ensures Front(Append(n, w, last), w) == n && Last(Append(n, w, last), w) == last
  {
    hide Pow2;
    DivMod(n, last, Pow2(w));
  }

  /** One more symbol: if the front stays below `m`, the whole stays below `m * 2^w`. */
  lemma AppendBound(front: nat, w: nat, last: nat, m: nat)
    requires front < m && last < Pow2(w)
    ensures Append(front, w, last) < m * Pow2(w)
  {
    hide Pow2;
    MulMono(front + 1, m, Pow2(w));
    MulSucc(front, Pow2(w));
  }

  lemma FrontBound(n: nat, w: nat, m: nat)
    requires n < m * Pow2(w)
    ensures Front(n, w) < m
  {
    hide Pow2;
    QuotientRemainder(n, Pow2(w));
    if n / Pow2(w) >= m {
      MulMono(m, n / Pow2(w), Pow2(w));
    }
  }

  lemma {:induction false} ValueBound(s: bytes, w: nat)
    requires Within(s, w)
    ensures Value(s, w) < Size(|s|, w)
  {
    hide Pow2, Append;
    if s != [] {
      var front := s[..|s| - 1];
      ValueBound(front, w);
      AppendBound(Value(front, w), w, s[|s| - 1], Size(|front|, w));
    }
  }

  lemma ValueAppend(s: bytes, last: byte, w: nat)
    ensures Value(s + [last], w) == Append(Value(s, w), w, last)
  {
    hide Append;
    assert (s + [last])[..|s|] == s;
  }

  lemma {:induction false} ValueOfSymbols(n: nat, count: nat, w: nat)
    requires w <= 8 && n < Size(count, w)
    ensures Value(Symbols(n, count, w), w) == n
    decreases count
  {
    hide Pow2, Append, Front, Last;
    if count > 0 {
      FrontBound(n, w, Size(count - 1, w));
      ValueOfSymbols(Front(n, w), count - 1, w);
      SmallPowers();
      ValueAppend(Symbols(Front(n, w), count - 1, w), Last(n, w), w);
      FrontLast(n, w);
    }
  }

  lemma {:induction false} SymbolsOfValue(s: bytes, w: nat)
    requires w <= 8 && Within(s, w)
    ensures Symbols(Value(s, w), |s|, w) == s
  {
    hide Pow2, Append, Front, Last, Within;
    if s != [] {
      var front, last := s[..|s| - 1], s[|s| - 1];
      WithinFront(s, w);
      SymbolsOfValue(front, w);
      AppendSplits(Value(front, w), w, last);
      assert s == front + [last];
    }
  }

  lemma WithinFront(s: bytes, w: nat)
    requires s != [] && Within(s, w)
    ensures Within(s[..|s| - 1], w) && s[|s| - 1] < Pow2(w)
  {
  }

  // ---------- single bits

  /** Bit `k` of a number, from the lowest on. */
  function Bit(n: nat, k: nat): nat {
    n / Pow2(k) % 2
  }

  lemma FirstBit(n: nat)
    ensures Bit(n, 0) == n % 2
  {
  }

  lemma HalfBit(n: nat, k: nat)
    requires k > 0
    ensures Bit(n, k) == Bit(n / 2, k - 1)
  {
    HalvedFirst(n, Pow2(k - 1));
  }

  lemma HalvedFirst(n: nat, d: nat)
    requires d > 0
    ensures n / (2 * d) == n / 2 / d
  {
    var q, r := n / 2 / d, n / 2 % d;
    QuotientIsNat(n / 2, d);
    QuotientRemainder(n / 2, d);
    assert n == q * (2 * d) + (2 * r + n % 2);
    DivMod(q, 2 * r + n % 2, 2 * d);
  }

  lemma {:induction false} XorBitsAt(a: nat, b: nat, width: nat, k: nat)
    requires k < width
    ensures Bit(XorBits(a, b, width), k) == (Bit(a, k) + Bit(b, k)) % 2
  {
    hide Bit;
    if k == 0 {
      FirstBit(a);
      FirstBit(b);
      FirstBit(XorBits(a, b, width));
    } else {
      HalfBit(a, k);
      HalfBit(b, k);
      HalfBit(XorBits(a, b, width), k);
      XorBitsAt(a / 2, b / 2, width - 1, k - 1);
    }
  }

  lemma SumOfBits(x: nat, y: nat)
    ensures (x % 2 + y % 2) % 2 == (x + y) % 2
  {
  }

  /** Every bit of an exclusive or is the sum of the two bits modulo 2. */
  lemma XorBit(a: byte, b: byte, k: nat)
    requires k < 8
    ensures Xor(a, b) / Pow2(k) % 2 == (a / Pow2(k) + b / Pow2(k)) % 2
  {
    hide Pow2;
    XorBitsAt(a, b, 8, k);
    QuotientIsNat(a, Pow2(k));
    QuotientIsNat(b, Pow2(k));
    SumOfBits(a / Pow2(k), b / Pow2(k));
  }
}
