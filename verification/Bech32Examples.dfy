/** Strings that BIP 173 lists as valid, decoded by LNBolt/BOLT11/Bech32.cs. */
module Bech32Examples {
  import opened Wrappers
  import opened Bytes
  import opened Bech32
  import BitStrings
  import Checksums = Bech32Checksum
  import Squasher = Bech32Squasher

  // ---------- the checksum, a few symbols at a time

  /** The state of the checksum after some symbols. */
  ghost function After(chk: bv32, values: bytes): bv32 {
    Checksums.Fold(chk, Checksums.Symbols(values))
  }

  function OneStep(chk: bv32, a: byte): bv32 {
    Checksums.Step(chk, Checksums.Word(a))
  }

  function FiveSteps(chk: bv32, a: byte, b: byte, c: byte, d: byte, e: byte): bv32 {
    OneStep(OneStep(OneStep(OneStep(OneStep(chk, a), b), c), d), e)
  }

  lemma None(chk: bv32, v: bytes)
    ensures After(chk, v[|v|..]) == chk
  {
  }

  lemma One(chk: bv32, v: bytes, i: nat, next: bv32)
    requires i < |v| && OneStep(chk, v[i]) == next
    ensures After(chk, v[i..]) == After(next, v[i + 1..])
  {
    hide Checksums.Step, Checksums.Word;
    var s := Checksums.Symbols(v[i..]);
    assert s[1..] == Checksums.Symbols(v[i + 1..]);
    Checksums.FoldFirst(chk, s);
  }

  lemma Five(chk: bv32, v: bytes, i: nat, next: bv32)
    requires i + 5 <= |v| && FiveSteps(chk, v[i], v[i + 1], v[i + 2], v[i + 3], v[i + 4]) == next
    ensures After(chk, v[i..]) == After(next, v[i + 5..])
  {
    hide After, OneStep;
    var x1 := OneStep(chk, v[i]);
    var x2 := OneStep(x1, v[i + 1]);
    var x3 := OneStep(x2, v[i + 2]);
    var x4 := OneStep(x3, v[i + 3]);
    One(chk, v, i, x1);
    One(x1, v, i + 1, x2);
    One(x2, v, i + 2, x3);
    One(x3, v, i + 3, x4);
    One(x4, v, i + 4, next);
  }

  lemma Passes(v: bytes)
    requires After(1, v[0..]) == 1
    ensures Checksums.PolyMod(v) == 1
  {
    assert v[0..] == v;
  }

  /** What a string decodes to, given its parts and that its checksum passes. */
  lemma Decodes(hrp: AsciiString, symbols: bytes, ending: bytes)
    requires NoUpper(hrp) && Checksums.Squashed(symbols) && Checksums.Squashed(ending) && |ending| == 6
    requires Checksums.PolyMod(HrpExpand(hrp) + (symbols + ending)) == 1
    ensures Decode(hrp + ['1'] + CharsOf(symbols + ending)) == Decoded(Some(hrp), Squasher.Bytes5to8(symbols))
  {
    hide Checksums.PolyMod, HrpExpand, DecodeLower, InAlphabet, ToLower, ToUpper, CharsOf, Squasher.Bytes5to8;
    var all := symbols + ending;
    CharsRoundTrip(all);
    DecodeLowerParts(hrp, CharsOf(all));
    assert all[..|all| - 6] == symbols;
    LowerHasNoUpper(hrp + ['1'] + CharsOf(all));
  }

  // ---------- "A12UEL5L"

  lemma ShortestSteps()
    ensures FiveSteps(0x1, 3, 0, 1, 10, 28) == 0x230055c
    ensures OneStep(0x230055c, 25) == 0x3d6afc2b
    ensures OneStep(0x3d6afc2b, 31) == 0x2f84386
    ensures OneStep(0x2f84386, 20) == 0x24622766
    ensures OneStep(0x24622766, 31) == 0x1
  {
  }

  lemma ShortestValues(v: bytes)
    requires v == HrpExpand("a") + ([] + [10, 28, 25, 31, 20, 31])
    ensures |v| == 9 && v[0] == 3 && v[1] == 0 && v[2] == 1
    ensures v[3] == 10 && v[4] == 28 && v[5] == 25 && v[6] == 31 && v[7] == 20 && v[8] == 31
  {
    assert HrpExpand("a") == [3, 0, 1];
  }

  lemma ShortestPasses(v: bytes)
    requires v == HrpExpand("a") + ([] + [10, 28, 25, 31, 20, 31])
    ensures Checksums.PolyMod(v) == 1
  {
    hide *;
    ShortestValues(v);
    ShortestSteps();
    Five(0x1, v, 0, 0x230055c);
    One(0x230055c, v, 5, 0x3d6afc2b);
    One(0x3d6afc2b, v, 6, 0x2f84386);
    One(0x2f84386, v, 7, 0x24622766);
    One(0x24622766, v, 8, 0x1);
    None(1, v);
    Passes(v);
  }

  lemma Shortest()
    ensures Decode("A12UEL5L") == Decoded(Some("a"), Some([]))
    ensures Encode("a", []) == "a12uel5l"
  {
    hide Decode, Encode, HrpExpand, Checksums.PolyMod;
    ShortestPasses(HrpExpand("a") + ([] + [10, 28, 25, 31, 20, 31]));
    Decodes("a", [], [10, 28, 25, 31, 20, 31]);
    ShortestChars();
    NothingRegrouped();
    ShortestCase();
    EncodeDecode("a12uel5l", "a", []);
  }

  lemma ShortestChars()
    ensures "a" + ['1'] + CharsOf([] + [10, 28, 25, 31, 20, 31]) == "a12uel5l"
  {
  }

  lemma NothingRegrouped()
    ensures Squasher.Bytes5to8([]) == Some([])
  {
  }

  lemma ShortestCase()
    ensures Decode("A12UEL5L") == Decode("a12uel5l")
    ensures ToLower("a12uel5l") == "a12uel5l"
  {
    hide DecodeLower;
    assert ToLower("A12UEL5L") == "a12uel5l" && ToUpper("A12UEL5L") == "A12UEL5L";
    assert ToLower("a12uel5l") == "a12uel5l";
  }

  // ---------- the whole alphabet: "abcdef1qpzry9x8gf2tvdw0s3jn54khce6mua7lmqqqxw"

  lemma AlphabetSteps()
    ensures FiveSteps(0x1, 3, 3, 3, 3, 3) == 0x2318c63
    ensures FiveSteps(0x2318c63, 3, 0, 1, 2, 3) == 0x8d50561
    ensures FiveSteps(0x8d50561, 4, 5, 6, 0, 1) == 0x30018ce4
    ensures FiveSteps(0x30018ce4, 2, 3, 4, 5, 6) == 0x12be0710
    ensures FiveSteps(0x12be0710, 7, 8, 9, 10, 11) == 0x2f8ccedd
    ensures FiveSteps(0x2f8ccedd, 12, 13, 14, 15, 16) == 0x3311a03e
    ensures FiveSteps(0x3311a03e, 17, 18, 19, 20, 21) == 0x556e704
    ensures FiveSteps(0x556e704, 22, 23, 24, 25, 26) == 0x347f64d1
    ensures FiveSteps(0x347f64d1, 27, 28, 29, 30, 31) == 0x1a0d3656
    ensures FiveSteps(0x1a0d3656, 27, 0, 0, 0, 6) == 0x12314323
    ensures OneStep(0x12314323, 14) == 0x1
  {
  }

  function AllSymbols(): (s: bytes)
    ensures |s| == 32 && forall i :: 0 <= i < 32 ==> s[i] == i
  {
    seq<byte>(32, i requires 0 <= i < 32 => i)
  }

  lemma AlphabetValues(v: bytes)
    requires v == HrpExpand("abcdef") + (AllSymbols() + [27, 0, 0, 0, 6, 14])
    ensures |v| == 51
    ensures v[6] == 0 && forall i :: 0 <= i < 6 ==> v[i] == 3
    ensures forall i :: 7 <= i < 13 ==> v[i] == i - 6
    ensures forall i :: 13 <= i < 45 ==> v[i] == i - 13
    ensures v[45] == 27 && v[46] == 0 && v[47] == 0 && v[48] == 0 && v[49] == 6 && v[50] == 14
  {
    assert HrpExpand("abcdef") == [3, 3, 3, 3, 3, 3, 0, 1, 2, 3, 4, 5, 6];
  }

  lemma AlphabetPasses(v: bytes)
    requires v == HrpExpand("abcdef") + (AllSymbols() + [27, 0, 0, 0, 6, 14])
    ensures Checksums.PolyMod(v) == 1
  {
    hide *;
    AlphabetValues(v);
    AlphabetSteps();
    Five(0x1, v, 0, 0x2318c63);
    Five(0x2318c63, v, 5, 0x8d50561);
    Five(0x8d50561, v, 10, 0x30018ce4);
    Five(0x30018ce4, v, 15, 0x12be0710);
    Five(0x12be0710, v, 20, 0x2f8ccedd);
    Five(0x2f8ccedd, v, 25, 0x3311a03e);
    Five(0x3311a03e, v, 30, 0x556e704);
    Five(0x556e704, v, 35, 0x347f64d1);
    Five(0x347f64d1, v, 40, 0x1a0d3656);
    Five(0x1a0d3656, v, 45, 0x12314323);
    One(0x12314323, v, 50, 0x1);
    None(1, v);
    Passes(v);
  }

  lemma Alphabet()
    ensures Decode("abcdef" + ['1'] + CHARSET + "mqqqxw")
         == Decoded(Some("abcdef"), Squasher.Bytes5to8(AllSymbols()))
    ensures Squasher.Bytes5to8(AllSymbols()).Some?
  {
    hide Decode, HrpExpand, Checksums.PolyMod, CharsOf, Squasher.Bytes5to8, AllSymbols;
    AlphabetPasses(HrpExpand("abcdef") + (AllSymbols() + [27, 0, 0, 0, 6, 14]));
    Decodes("abcdef", AllSymbols(), [27, 0, 0, 0, 6, 14]);
    AlphabetChars();
    AlphabetRegroups();
    assert "abcdef" + ['1'] + (CHARSET + "mqqqxw") == "abcdef" + ['1'] + CHARSET + "mqqqxw";
  }

  lemma AlphabetChars()
    ensures CharsOf(AllSymbols() + [27, 0, 0, 0, 6, 14]) == CHARSET + "mqqqxw"
  {
    hide AllSymbols;
    var s, all: bytes := CHARSET + "mqqqxw", AllSymbols() + [27, 0, 0, 0, 6, 14];
    forall i | 0 <= i < 38
      ensures CharsOf(all)[i] == s[i]
    {
      if i < 32 {
        assert all[i] == i;
      }
    }
  }

  lemma AlphabetRegroups()
    ensures Squasher.Bytes5to8(AllSymbols()).Some?
  {
    hide BitStrings.Value;
    SmallPowers();
  }

  // ---------- the longest data: "11", 82 times "q", "c8247j"

  lemma ZerosSteps()
    ensures FiveSteps(0x1, 1, 0, 17, 0, 0) == 0x2104400
    ensures FiveSteps(0x2104400, 0, 0, 0, 0, 0) == 0x385ce231
    ensures FiveSteps(0x385ce231, 0, 0, 0, 0, 0) == 0x16e8d4df
    ensures FiveSteps(0x16e8d4df, 0, 0, 0, 0, 0) == 0x132199e2
    ensures FiveSteps(0x132199e2, 0, 0, 0, 0, 0) == 0x399c7911
    ensures FiveSteps(0x399c7911, 0, 0, 0, 0, 0) == 0x1aea3c2e
    ensures FiveSteps(0x1aea3c2e, 0, 0, 0, 0, 0) == 0x21ffdfcc
    ensures FiveSteps(0x21ffdfcc, 0, 0, 0, 0, 0) == 0x3e05da44
    ensures FiveSteps(0x3e05da44, 0, 0, 0, 0, 0) == 0x3c4add90
    ensures FiveSteps(0x3c4add90, 0, 0, 0, 0, 0) == 0x2ae0b499
    ensures FiveSteps(0x2ae0b499, 0, 0, 0, 0, 0) == 0x26b64f04
    ensures FiveSteps(0x26b64f04, 0, 0, 0, 0, 0) == 0x2ad1a0c
    ensures FiveSteps(0x2ad1a0c, 0, 0, 0, 0, 0) == 0xa20a29e
    ensures FiveSteps(0xa20a29e, 0, 0, 0, 0, 0) == 0x34ad95d7
    ensures FiveSteps(0x34ad95d7, 0, 0, 0, 0, 0) == 0x1aff056e
    ensures FiveSteps(0x1aff056e, 0, 0, 0, 0, 0) == 0x214661ba
    ensures FiveSteps(0x214661ba, 0, 0, 0, 0, 0) == 0xad82931
    ensures FiveSteps(0xad82931, 24, 7, 10, 21, 30) == 0x2150a315
    ensures OneStep(0x2150a315, 18) == 0x1
  {
  }

  lemma ZerosValues(v: bytes)
    requires v == HrpExpand("1") + (Zeros(82) + [24, 7, 10, 21, 30, 18])
    ensures |v| == 91 && v[0] == 1 && v[1] == 0 && v[2] == 17
    ensures forall i :: 3 <= i < 85 ==> v[i] == 0
    ensures v[85] == 24 && v[86] == 7 && v[87] == 10 && v[88] == 21 && v[89] == 30 && v[90] == 18
  {
    assert HrpExpand("1") == [1, 0, 17];
  }

  lemma ZerosPass(v: bytes)
    requires v == HrpExpand("1") + (Zeros(82) + [24, 7, 10, 21, 30, 18])
    ensures Checksums.PolyMod(v) == 1
  {
    hide *;
    ZerosValues(v);
    ZerosSteps();
    Five(0x1, v, 0, 0x2104400);
    Five(0x2104400, v, 5, 0x385ce231);
    Five(0x385ce231, v, 10, 0x16e8d4df);
    Five(0x16e8d4df, v, 15, 0x132199e2);
    Five(0x132199e2, v, 20, 0x399c7911);
    Five(0x399c7911, v, 25, 0x1aea3c2e);
    Five(0x1aea3c2e, v, 30, 0x21ffdfcc);
    Five(0x21ffdfcc, v, 35, 0x3e05da44);
    Five(0x3e05da44, v, 40, 0x3c4add90);
    Five(0x3c4add90, v, 45, 0x2ae0b499);
    Five(0x2ae0b499, v, 50, 0x26b64f04);
    Five(0x26b64f04, v, 55, 0x2ad1a0c);
    Five(0x2ad1a0c, v, 60, 0xa20a29e);
    Five(0xa20a29e, v, 65, 0x34ad95d7);
    Five(0x34ad95d7, v, 70, 0x1aff056e);
    Five(0x1aff056e, v, 75, 0x214661ba);
    Five(0x214661ba, v, 80, 0xad82931);
    Five(0xad82931, v, 85, 0x2150a315);
    One(0x2150a315, v, 90, 0x1);
    None(1, v);
    Passes(v);
  }

  lemma {:induction false} ZeroSymbols(count: nat)
    ensures BitStrings.Symbols(0, count, 5) == Zeros(count)
  {
    SmallPowers();
    if count > 0 {
      ZeroSymbols(count - 1);
    }
  }

  lemma {:induction false} ZeroValue(n: nat)
    ensures BitStrings.Value(Zeros(n), 8) == 0
  {
    if n > 0 {
      ZeroValue(n - 1);
      assert Zeros(n)[..n - 1] == Zeros(n - 1);
    }
  }

  lemma ZerosRegrouped(n: nat, m: nat)
    requires 5 * m == 8 * n + Squasher.Pad(n)
    ensures Squasher.Bytes5to8(Zeros(m)) == Some(Zeros(n))
  {
    hide Squasher.Bytes5to8, BitStrings.Value, BitStrings.Symbols, Squasher.Pad, Pow2;
    ZeroValue(n);
    ZeroSymbols(m);
    assert Squasher.Bytes8to5(Zeros(n)) == Zeros(m);
    Squasher.SquashRoundTrip(Zeros(n));
  }

  lemma LongestData()
    ensures Decode("1" + ['1'] + seq(82, _ => 'q') + "c8247j") == Decoded(Some("1"), Some(Zeros(51)))
  {
    hide Decode, HrpExpand, Checksums.PolyMod, CharsOf, Squasher.Bytes5to8;
    ZerosPass(HrpExpand("1") + (Zeros(82) + [24, 7, 10, 21, 30, 18]));
    Decodes("1", Zeros(82), [24, 7, 10, 21, 30, 18]);
    ZerosChars();
    var q := seq<Ascii>(82, _ => 'q');
    assert "1" + ['1'] + (q + "c8247j") == "1" + ['1'] + q + "c8247j";
    ZerosRegrouped(51, 82);
  }

  lemma ZerosChars()
    ensures CharsOf(Zeros(82) + [24, 7, 10, 21, 30, 18]) == seq<Ascii>(82, _ => 'q') + "c8247j"
  {
    var s, all: bytes := seq<Ascii>(82, _ => 'q') + "c8247j", Zeros(82) + [24, 7, 10, 21, 30, 18];
    forall i | 0 <= i < 88
      ensures CharsOf(all)[i] == s[i]
    {
    }
  }
}
