/** LNBolt/BOLT11/Bech32.cs: the encoder and decoder of BIP 173, on ASCII strings. */
module Bech32 {
  import opened Wrappers
  import opened Bytes
  import Checksums = Bech32Checksum
  import BitStrings
  import Squasher = Bech32Squasher

  type Ascii = c: char | c as int < 128 witness 'a'
  type AsciiString = seq<Ascii>

  // ---------- letter case

  function LowerChar(c: Ascii): Ascii {
    if 'A' <= c <= 'Z' then (c as int + 32) as char else c
  }

  function UpperChar(c: Ascii): Ascii {
    if 'a' <= c <= 'z' then (c as int - 32) as char else c
  }

  function ToLower(s: AsciiString): (r: AsciiString)
    ensures |r| == |s|
    ensures forall i :: 0 <= i < |s| ==> r[i] == LowerChar(s[i])
  {
    seq<Ascii>(|s|, i requires 0 <= i < |s| => LowerChar(s[i]))
  }

  function ToUpper(s: AsciiString): (r: AsciiString)
    ensures |r| == |s|
    ensures forall i :: 0 <= i < |s| ==> r[i] == UpperChar(s[i])
  {
    seq<Ascii>(|s|, i requires 0 <= i < |s| => UpperChar(s[i]))
  }

  predicate NoUpper(s: AsciiString) {
    forall i :: 0 <= i < |s| ==> !('A' <= s[i] <= 'Z')
  }

  predicate MixedCase(s: AsciiString) {
    s != ToLower(s) && s != ToUpper(s)
  }

  lemma LowerHasNoUpper(s: AsciiString)
    ensures NoUpper(ToLower(s))
    ensures NoUpper(s) <==> ToLower(s) == s
  {
    if ToLower(s) == s {
      forall i | 0 <= i < |s|
        ensures !('A' <= s[i] <= 'Z')
      {
        assert ToLower(s)[i] == LowerChar(s[i]);
      }
    }
  }

  /** Mixed case is a lower-case and an upper-case letter in one string. */
  lemma MixedCaseExact(s: AsciiString)
    ensures MixedCase(s)
       <==> (exists i :: 0 <= i < |s| && 'a' <= s[i] <= 'z') && (exists i :: 0 <= i < |s| && 'A' <= s[i] <= 'Z')
  {
    SameCase(s);
  }

  lemma SameCase(s: AsciiString)
    ensures s == ToLower(s) <==> forall i :: 0 <= i < |s| ==> !('A' <= s[i] <= 'Z')
    ensures s == ToUpper(s) <==> forall i :: 0 <= i < |s| ==> !('a' <= s[i] <= 'z')
  {
    LowerHasNoUpper(s);
    if s == ToUpper(s) {
      forall i | 0 <= i < |s|
        ensures !('a' <= s[i] <= 'z')
      {
        assert ToUpper(s)[i] == UpperChar(s[i]);
      }
    }
  }

  // ---------- the alphabet

  const CHARSET: string := "qpzry9x8gf2tvdw0s3jn54khce6mua7l"

  // The rows of the inverse table, 16 characters each.
  const NO_SYMBOLS: seq<int> := [-1, -1, -1, -1, -1, -1, -1, -1, -1, -1, -1, -1, -1, -1, -1, -1]
  const DIGITS: seq<int> := [15, -1, 10, 17, 21, 20, 26, 30, 7, 5, -1, -1, -1, -1, -1, -1]
  const LETTERS_TO_O: seq<int> := [-1, 29, -1, 24, 13, 25, 9, 8, 23, -1, 18, 22, 31, 27, 19, -1]
  const LETTERS_FROM_P: seq<int> := [1, 0, 3, 16, 11, 28, 12, 14, 6, 4, 2, -1, -1, -1, -1, -1]

  /** The position of a character in the alphabet, of either case, or -1. */
  const ICHARSET: seq<int> :=
    NO_SYMBOLS + NO_SYMBOLS + NO_SYMBOLS + DIGITS + LETTERS_TO_O + LETTERS_FROM_P + LETTERS_TO_O + LETTERS_FROM_P

  function CharOf(symbol: byte): (c: Ascii)
    requires symbol < 32
  {
    CHARSET[symbol]
  }

  function SymbolOf(c: Ascii): int {
    ICHARSET[c as int]
  }

  /** The columns of the inverse table that hold symbols. */
  function Entry(k: nat): int
    requires k < 128
  {
    if k < 48 then -1
    else if k < 64 then Digit(k - 48)
    else if k < 80 then LetterToO(k - 64)
    else if k < 96 then LetterFromP(k - 80)
    else if k < 112 then LetterToO(k - 96)
    else LetterFromP(k - 112)
  }

  function Digit(j: nat): int
    requires j < 16
  {
    DIGITS[j]
  }

  function LetterToO(j: nat): int
    requires j < 16
  {
    LETTERS_TO_O[j]
  }

  function LetterFromP(j: nat): int
    requires j < 16
  {
    LETTERS_FROM_P[j]
  }

  lemma SymbolIsEntry(c: Ascii)
    ensures SymbolOf(c) == Entry(c as int)
  {
    var k := c as int;
    if k < 48 {
      var j := k % 16;
      assert NO_SYMBOLS[j] == -1;
      assert ICHARSET[k] == NO_SYMBOLS[j];
    }
  }

  /** An entry stands for the lower-case character of its column. */
  predicate StandsFor(v: int, code: nat) {
    -1 <= v < 32 && (v >= 0 ==> CharOf(v) as int == code)
  }

  lemma DigitColumns(j: nat)
    requires j < 16
    ensures StandsFor(Digit(j), 48 + j)
  {
  }

  lemma LetterToOColumns(j: nat)
    requires j < 16
    ensures StandsFor(LetterToO(j), 96 + j)
    ensures j == 0 ==> LetterToO(j) == -1
  {
  }

  lemma LetterFromPColumns(j: nat)
    requires j < 16
    ensures StandsFor(LetterFromP(j), 112 + j)
    ensures j > 10 ==> LetterFromP(j) == -1
  {
  }

  /** A character that decodes is, in lower case, the one at that position of the alphabet. */
  lemma SymbolRoundTrip(c: Ascii)
    ensures -1 <= SymbolOf(c) < 32
    ensures SymbolOf(c) >= 0 ==> CharOf(SymbolOf(c)) == LowerChar(c)
  {
    hide SymbolOf, CharOf, Digit, LetterToO, LetterFromP;
    var k := c as int;
    SymbolIsEntry(c);
    DigitColumns(k % 16);
    LetterToOColumns(k % 16);
    LetterFromPColumns(k % 16);
  }

  /** Decoding a character of the alphabet gives its position; the alphabet has no upper case and no '1'. */
  lemma CharRoundTrip(symbol: byte)
    requires symbol < 32
    ensures SymbolOf(CharOf(symbol)) == symbol
    ensures CharOf(symbol) != '1' && !('A' <= CharOf(symbol) <= 'Z')
  {
    hide SymbolOf, CharOf, Entry;
    SymbolIsEntry(CharOf(symbol));
    if symbol < 16 {
      FirstHalf(symbol);
    } else {
      SecondHalf(symbol);
    }
  }

  lemma FirstHalf(symbol: byte)
    requires symbol < 16
    ensures Entry(CharOf(symbol) as int) == symbol
    ensures CharOf(symbol) != '1' && !('A' <= CharOf(symbol) <= 'Z')
  {
  }

  lemma SecondHalf(symbol: byte)
    requires 16 <= symbol < 32
    ensures Entry(CharOf(symbol) as int) == symbol
    ensures CharOf(symbol) != '1' && !('A' <= CharOf(symbol) <= 'Z')
  {
  }

  function CharsOf(symbols: bytes): (s: AsciiString)
    requires Checksums.Squashed(symbols)
    ensures |s| == |symbols|
    ensures forall i :: 0 <= i < |symbols| ==> s[i] == CharOf(symbols[i])
  {
    seq<Ascii>(|symbols|, i requires 0 <= i < |symbols| => CharOf(symbols[i]))
  }

  /** `SquashedBytesToString`: null when some byte has high bits set. */
  function SquashedBytesToString(input: bytes): Option<AsciiString> {
    if Checksums.Squashed(input) then Some(CharsOf(input)) else None
  }

  predicate InAlphabet(s: AsciiString) {
    forall i :: 0 <= i < |s| ==> SymbolOf(s[i]) >= 0
  }

  function SymbolByte(c: Ascii): (v: byte)
    requires SymbolOf(c) >= 0
    ensures v == SymbolOf(c) && v < 32
  {
    SymbolRoundTrip(c);
    SymbolOf(c)
  }

  function SymbolsOf(s: AsciiString): (r: bytes)
    requires InAlphabet(s)
    ensures |r| == |s|
    ensures forall i :: 0 <= i < |s| ==> r[i] == SymbolOf(s[i])
    ensures Checksums.Squashed(r)
  {
    seq<byte>(|s|, i requires 0 <= i < |s| => SymbolByte(s[i]))
  }

  /** `StringToSquashedBytes`: null when some character is not in the alphabet. */
  function StringToSquashedBytes(s: AsciiString): Option<bytes> {
    if InAlphabet(s) then Some(SymbolsOf(s)) else None
  }

  lemma CharsRoundTrip(symbols: bytes)
    requires Checksums.Squashed(symbols)
    ensures StringToSquashedBytes(CharsOf(symbols)) == Some(symbols)
    ensures NoUpper(CharsOf(symbols))
    ensures '1' !in CharsOf(symbols)
  {
    hide CharOf, SymbolOf;
    forall i | 0 <= i < |symbols|
      ensures SymbolOf(CharsOf(symbols)[i]) == symbols[i]
      ensures CharsOf(symbols)[i] != '1' && !('A' <= CharsOf(symbols)[i] <= 'Z')
    {
      CharRoundTrip(symbols[i]);
    }
    assert InAlphabet(CharsOf(symbols));
    assert SymbolsOf(CharsOf(symbols)) == symbols;
  }

  lemma SymbolsRoundTrip(s: AsciiString)
    requires NoUpper(s) && InAlphabet(s)
    ensures CharsOf(SymbolsOf(s)) == s
  {
    hide CharOf, SymbolOf;
    forall i | 0 <= i < |s|
      ensures CharsOf(SymbolsOf(s))[i] == s[i]
    {
      SymbolRoundTrip(s[i]);
    }
  }

  // ---------- encoding and decoding

  function High(hrp: AsciiString): (r: bytes)
    ensures |r| == |hrp| && forall i :: 0 <= i < |hrp| ==> r[i] == hrp[i] as int / 32
  {
    seq<byte>(|hrp|, i requires 0 <= i < |hrp| => hrp[i] as int / 32)
  }

  function Low(hrp: AsciiString): (r: bytes)
    ensures |r| == |hrp| && forall i :: 0 <= i < |hrp| ==> r[i] == hrp[i] as int % 32
  {
    seq<byte>(|hrp|, i requires 0 <= i < |hrp| => hrp[i] as int % 32)
  }

  /** The high bits of every character, a zero, and the low bits of every character. */
  function HrpExpand(hrp: AsciiString): (r: bytes)
    ensures |r| == 2 * |hrp| + 1
  {
    High(hrp) + [0] + Low(hrp)
  }

  lemma HrpIsSquashed(hrp: AsciiString)
    ensures Checksums.Squashed(HrpExpand(hrp))
  {
  }

  function CreateChecksum(hrp: AsciiString, data: bytes): (s: bytes)
    ensures |s| == 6
  {
    Checksums.Checksum(HrpExpand(hrp) + data)
  }

  predicate VerifyChecksum(hrp: AsciiString, data: bytes) {
    Checksums.PolyMod(HrpExpand(hrp) + data) == 1
  }

  lemma ChecksumIsSquashed(hrp: AsciiString, data: bytes)
    requires Checksums.Squashed(data)
    ensures Checksums.Squashed(CreateChecksum(hrp, data))
    ensures Checksums.Squashed(data + CreateChecksum(hrp, data))
  {
    hide Checksums.PolyMod, Checksums.Checksum, HrpExpand;
    HrpIsSquashed(hrp);
    Checksums.ChecksumCompletes(HrpExpand(hrp) + data);
  }

  /** For every prefix, `CreateChecksum` gives the one ending that `VerifyChecksum` accepts. */
  lemma ChecksumVerifies(hrp: AsciiString, data: bytes, ending: bytes)
    requires Checksums.Squashed(data) && Checksums.Squashed(ending) && |ending| == 6
    ensures VerifyChecksum(hrp, data + ending) <==> ending == CreateChecksum(hrp, data)
  {
    hide Checksums.PolyMod, Checksums.Checksum, HrpExpand;
    HrpIsSquashed(hrp);
    Checksums.ChecksumIsUnique(HrpExpand(hrp) + data, ending);
    assert HrpExpand(hrp) + (data + ending) == HrpExpand(hrp) + data + ending;
  }

  lemma WithinIsSquashed(s: bytes)
    ensures BitStrings.Within(s, 5) <==> Checksums.Squashed(s)
  {
    SmallPowers();
  }

  function Encode(hrp: AsciiString, data: bytes): AsciiString {
    var base5 := Squasher.Bytes8to5(data);
    EncodeFacts(hrp, data);
    hrp + ['1'] + CharsOf(base5 + CreateChecksum(hrp, base5))
  }

  lemma EncodeFacts(hrp: AsciiString, data: bytes)
    ensures var base5 := Squasher.Bytes8to5(data);
      Checksums.Squashed(base5) && Checksums.Squashed(base5 + CreateChecksum(hrp, base5))
  {
    hide Squasher.Bytes8to5, CreateChecksum;
    Squasher.Bytes8to5Value(data);
    WithinIsSquashed(Squasher.Bytes8to5(data));
    ChecksumIsSquashed(hrp, Squasher.Bytes8to5(data));
  }

  function LastSeparator(s: AsciiString): (i: int)
    ensures -1 <= i < |s|
    ensures i >= 0 ==> s[i] == '1'
    ensures '1' !in s[i + 1..]
  {
    if s == [] then -1
    else if s[|s| - 1] == '1' then |s| - 1
    else LastSeparator(s[..|s| - 1])
  }

  /** What the out-parameters of `Decode` are; `None` stands for null. */
  datatype Decoding = Throws | Decoded(hrp: Option<AsciiString>, data: Option<bytes>)

  /** The part of `Decode` behind the letter case check. */
  function DecodeLower(adr: AsciiString): Decoding {
    var splitLoc := LastSeparator(adr);
    if splitLoc == -1 then Decoded(None, None)
    else
      var hrp := adr[..splitLoc];
      match StringToSquashedBytes(adr[splitLoc + 1..])
      case None => Decoded(Some(hrp), None)
      case Some(squashed) =>
        if !VerifyChecksum(hrp, squashed) then Decoded(Some(hrp), None)
        else if |squashed| < 6 then Throws
        else Decoded(Some(hrp), Squasher.Bytes5to8(squashed[..|squashed| - 6]))
  }

  function Decode(encoded: AsciiString): Decoding {
    if MixedCase(encoded) then Decoded(None, None) else DecodeLower(ToLower(encoded))
  }

  lemma {:induction false} SeparatorAt(hrp: AsciiString, tail: AsciiString)
    requires '1' !in tail
    ensures LastSeparator(hrp + ['1'] + tail) == |hrp|
  {
    var s := hrp + ['1'] + tail;
    if tail != [] {
      SeparatorAt(hrp, tail[..|tail| - 1]);
      assert s[..|s| - 1] == hrp + ['1'] + tail[..|tail| - 1];
    }
  }

  /** `DecodeLower` on a prefix and what is behind the last separator. */
  lemma DecodeLowerParts(hrp: AsciiString, tail: AsciiString)
    requires '1' !in tail
    ensures DecodeLower(hrp + ['1'] + tail) ==
      if !InAlphabet(tail) || !VerifyChecksum(hrp, SymbolsOf(tail)) then Decoded(Some(hrp), None)
      else if |tail| < 6 then Throws
      else Decoded(Some(hrp), Squasher.Bytes5to8(SymbolsOf(tail)[..|tail| - 6]))
  {
    hide VerifyChecksum, InAlphabet, SymbolsOf, Squasher.Bytes5to8;
    var adr := hrp + ['1'] + tail;
    SeparatorAt(hrp, tail);
    assert adr[..|hrp|] == hrp && adr[|hrp| + 1..] == tail;
  }

  /** An encoding decodes to what it was made from. */
  lemma DecodeLowerEncode(hrp: AsciiString, data: bytes)
    ensures DecodeLower(Encode(hrp, data)) == Decoded(Some(hrp), Some(data))
  {
    hide Squasher.Bytes8to5, Squasher.Bytes5to8, CreateChecksum, VerifyChecksum, CharsOf, StringToSquashedBytes;
    var base5 := Squasher.Bytes8to5(data);
    var combined := base5 + CreateChecksum(hrp, base5);
    var adr := Encode(hrp, data);
    EncodeFacts(hrp, data);
    ChecksumIsSquashed(hrp, base5);
    CharsRoundTrip(combined);
    SeparatorAt(hrp, CharsOf(combined));
    assert adr[..|hrp|] == hrp && adr[|hrp| + 1..] == CharsOf(combined);
    ChecksumVerifies(hrp, base5, CreateChecksum(hrp, base5));
    assert combined[..|combined| - 6] == base5;
    Squasher.SquashRoundTrip(data);
  }

  /** Only encodings decode to a prefix and data. */
  lemma DecodedLowerIsEncoding(adr: AsciiString, hrp: AsciiString, data: bytes)
    requires NoUpper(adr)
    requires DecodeLower(adr) == Decoded(Some(hrp), Some(data))
    ensures adr == Encode(hrp, data)
  {
    hide Squasher.Bytes8to5, Squasher.Bytes5to8, CreateChecksum, VerifyChecksum, CharsOf, SymbolsOf, InAlphabet;
    hide LastSeparator, Encode, NoUpper;
    var splitLoc := LastSeparator(adr);
    var tail := adr[splitLoc + 1..];
    assert adr == adr[..splitLoc] + ['1'] + tail;
    hide DecodeLower;
    DecodeLowerParts(adr[..splitLoc], tail);
    NoUpperTail(adr, splitLoc + 1);
    PartsAreEncoding(hrp, tail, data);
  }

  lemma NoUpperTail(s: AsciiString, k: nat)
    requires NoUpper(s) && k <= |s|
    ensures NoUpper(s[k..])
  {
  }

  lemma PartsAreEncoding(hrp: AsciiString, tail: AsciiString, data: bytes)
    requires NoUpper(tail) && InAlphabet(tail) && |tail| >= 6 && VerifyChecksum(hrp, SymbolsOf(tail))
    requires Squasher.Bytes5to8(SymbolsOf(tail)[..|tail| - 6]) == Some(data)
    ensures hrp + ['1'] + tail == Encode(hrp, data)
  {
    hide Squasher.Bytes8to5, Squasher.Bytes5to8, CreateChecksum, VerifyChecksum, CharsOf, SymbolsOf, InAlphabet, NoUpper;
    var squashed := SymbolsOf(tail);
    var base5, ending := squashed[..|squashed| - 6], squashed[|squashed| - 6..];
    assert squashed == base5 + ending;
    Squasher.UnsquashRoundTrip(base5);
    ChecksumVerifies(hrp, base5, ending);
    SymbolsRoundTrip(tail);
  }

  lemma EncodeCase(hrp: AsciiString, data: bytes)
    ensures NoUpper(Encode(hrp, data)) <==> NoUpper(hrp)
  {
    hide Squasher.Bytes8to5, CreateChecksum, CharsOf;
    var base5 := Squasher.Bytes8to5(data);
    var combined := base5 + CreateChecksum(hrp, base5);
    var adr := Encode(hrp, data);
    EncodeFacts(hrp, data);
    CharsRoundTrip(combined);
    assert adr == hrp + ['1'] + CharsOf(combined);
    if NoUpper(adr) {
      assert forall i :: 0 <= i < |hrp| ==> adr[i] == hrp[i];
    }
  }

  lemma DecodedHrpIsLower(adr: AsciiString)
    requires NoUpper(adr)
    ensures var d := DecodeLower(adr); d.Decoded? && d.hrp.Some? ==> NoUpper(d.hrp.value)
  {
    hide VerifyChecksum, StringToSquashedBytes, Squasher.Bytes5to8;
  }

  /** Decoding an encoding gives back prefix and data exactly for prefixes without upper-case letters. */
  lemma DecodeEncode(hrp: AsciiString, data: bytes)
    ensures Decode(Encode(hrp, data)) == Decoded(Some(hrp), Some(data)) <==> NoUpper(hrp)
  {
    hide Encode, DecodeLower, ToLower, ToUpper, NoUpper;
    var adr := Encode(hrp, data);
    LowerHasNoUpper(adr);
    EncodeCase(hrp, data);
    DecodeLowerEncode(hrp, data);
    DecodedHrpIsLower(ToLower(adr));
  }

  /** A string decodes to a prefix and data exactly when it is their encoding, in one letter case. */
  lemma EncodeDecode(s: AsciiString, hrp: AsciiString, data: bytes)
    ensures Decode(s) == Decoded(Some(hrp), Some(data)) <==> !MixedCase(s) && ToLower(s) == Encode(hrp, data)
  {
    hide Encode, DecodeLower, ToLower, ToUpper, NoUpper;
    LowerHasNoUpper(s);
    DecodeLowerEncode(hrp, data);
    if Decode(s) == Decoded(Some(hrp), Some(data)) {
      assert !MixedCase(s);
      DecodedLowerIsEncoding(ToLower(s), hrp, data);
    }
  }

  // ---------- damaged strings

  /** Characters after the separator, read symbol by symbol. */
  lemma SymbolsOfParts(before: AsciiString, window: AsciiString, after: AsciiString)
    requires InAlphabet(before) && InAlphabet(window) && InAlphabet(after)
    ensures InAlphabet(before + window + after)
    ensures SymbolsOf(before + window + after) == SymbolsOf(before) + SymbolsOf(window) + SymbolsOf(after)
  {
    hide SymbolOf;
  }

  lemma PartsInAlphabet(before: AsciiString, window: AsciiString, after: AsciiString)
    requires InAlphabet(before + window + after)
    ensures InAlphabet(before) && InAlphabet(window) && InAlphabet(after)
  {
    hide SymbolOf;
    var s := before + window + after;
    assert forall i :: 0 <= i < |before| ==> before[i] == s[i];
    assert forall i :: 0 <= i < |window| ==> window[i] == s[|before| + i];
    assert forall i :: 0 <= i < |after| ==> after[i] == s[|before| + |window| + i];
  }

  /** Two windows of at most six characters never both pass the checksum. */
  lemma WindowVerifies(hrp: AsciiString, before: AsciiString, a: AsciiString, b: AsciiString, after: AsciiString)
    requires InAlphabet(before) && InAlphabet(a) && InAlphabet(b) && InAlphabet(after)
    requires |a| == |b| <= 6 && NoUpper(a) && NoUpper(b)
    requires VerifyChecksum(hrp, SymbolsOf(before + a + after)) && VerifyChecksum(hrp, SymbolsOf(before + b + after))
    ensures a == b
  {
    hide SymbolOf, Checksums.PolyMod, HrpExpand, SymbolsOf, InAlphabet;
    SymbolsOfParts(before, a, after);
    SymbolsOfParts(before, b, after);
    HrpIsSquashed(hrp);
    var front, x, y, back := HrpExpand(hrp) + SymbolsOf(before), SymbolsOf(a), SymbolsOf(b), SymbolsOf(after);
    assert HrpExpand(hrp) + (SymbolsOf(before) + x + back) == front + x + back;
    assert HrpExpand(hrp) + (SymbolsOf(before) + y + back) == front + y + back;
    Checksums.BurstDetected(front, x, y, back);
    SymbolsRoundTrip(a);
    SymbolsRoundTrip(b);
  }

  lemma EncodeParts(hrp: AsciiString, data: bytes, tail: AsciiString)
    requires Encode(hrp, data) == hrp + ['1'] + tail
    ensures |tail| >= 6 && '1' !in tail && NoUpper(tail) && InAlphabet(tail) && VerifyChecksum(hrp, SymbolsOf(tail))
  {
    hide Squasher.Bytes8to5, CreateChecksum, VerifyChecksum, CharsOf, InAlphabet, SymbolsOf;
    var base5 := Squasher.Bytes8to5(data);
    var combined := base5 + CreateChecksum(hrp, base5);
    EncodeFacts(hrp, data);
    ChecksumIsSquashed(hrp, base5);
    CharsRoundTrip(combined);
    ChecksumVerifies(hrp, base5, CreateChecksum(hrp, base5));
    assert tail == Encode(hrp, data)[|hrp| + 1..] == CharsOf(combined);
  }

  lemma LowerParts(hrp: AsciiString, before: AsciiString, b: AsciiString, after: AsciiString)
    requires NoUpper(hrp) && NoUpper(before) && NoUpper(after)
    ensures ToLower(hrp + ['1'] + (before + b + after)) == hrp + ['1'] + (before + ToLower(b) + after)
    ensures '1' in ToLower(b) ==> '1' in b
  {
  }

  lemma DamagedWindow(
    hrp: AsciiString, data: bytes, before: AsciiString, a: AsciiString, b: AsciiString, after: AsciiString)
    requires NoUpper(hrp) && Encode(hrp, data) == hrp + ['1'] + (before + a + after)
    requires |a| == |b| <= 6 && '1' !in b && ToLower(b) != a
    ensures var d := Decode(hrp + ['1'] + (before + b + after));
      d.Decoded? && d.data.None? && (d.hrp.Some? ==> d.hrp == Some(hrp))
  {
    hide Encode, DecodeLower, VerifyChecksum, SymbolsOf, InAlphabet, ToLower, ToUpper;
    var tail, damaged := before + a + after, before + ToLower(b) + after;
    EncodeParts(hrp, data, tail);
    PartsInAlphabet(before, a, after);
    PartsNoUpper(before, a, after);
    LowerParts(hrp, before, b, after);
    LowerHasNoUpper(b);
    assert '1' !in before && '1' !in after by {
      assert forall c :: c in before || c in after ==> c in tail;
    }
    DecodeLowerParts(hrp, damaged);
    if InAlphabet(damaged) && VerifyChecksum(hrp, SymbolsOf(damaged)) {
      PartsInAlphabet(before, ToLower(b), after);
      WindowVerifies(hrp, before, a, ToLower(b), after);
    }
  }

  /**
   * Up to six characters in a row of an encoding, behind its separator, replaced by any others: the string
   * decodes to data only if nothing but letter case has changed, whatever its length. A new separator among them
   * makes it a string with a longer prefix; so in every case it does not decode to data under the old prefix.
   */
  lemma DamageIsDetected(hrp: AsciiString, data: bytes, at: nat, b: AsciiString)
    requires NoUpper(hrp) && |b| <= 6
    ensures var s := Encode(hrp, data);
      |hrp| < at && at + |b| <= |s| ==>
        var d := Decode(s[..at] + b + s[at + |b|..]);
        && ('1' !in b ==> d.Decoded?)
        && (d.Decoded? && d.data.Some? && d.hrp == Some(hrp) ==> ToLower(b) == s[at..at + |b|])
        && ('1' in b && d.Decoded? && d.hrp.Some? ==> |d.hrp.value| > |hrp|)
        && ('1' !in b && d.Decoded? && d.hrp.Some? ==> d.hrp == Some(hrp))
  {
    hide Decode, VerifyChecksum, SymbolsOf, InAlphabet, ToLower, CharsOf, Squasher.Bytes8to5, CreateChecksum;
    var s := Encode(hrp, data);
    EncodeFacts(hrp, data);
    if |hrp| < at && at + |b| <= |s| {
      var tail := s[|hrp| + 1..];
      var from := at - |hrp| - 1;
      var before, a, after := tail[..from], tail[from..from + |b|], tail[from + |b|..];
      assert tail == before + a + after;
      assert s == hrp + ['1'] + (before + a + after);
      assert s[..at] + b + s[at + |b|..] == hrp + ['1'] + (before + b + after);
      EncodeParts(hrp, data, tail);
      PartsNoUpper(before, a, after);
      if '1' in b {
        LongerPrefix(hrp, before, b, after);
      } else if ToLower(b) != a {
        DamagedWindow(hrp, data, before, a, b, after);
      } else {
        DamagedIsDecoded(hrp, before, b, after);
      }
    }
  }

  lemma LongerPrefix(hrp: AsciiString, before: AsciiString, b: AsciiString, after: AsciiString)
    requires '1' in b
    ensures var d := Decode(hrp + ['1'] + (before + b + after));
      d.Decoded? && d.hrp.Some? ==> |d.hrp.value| > |hrp|
  {
    hide VerifyChecksum, StringToSquashedBytes, Squasher.Bytes5to8;
    var s := hrp + ['1'] + (before + b + after);
    var i :| 0 <= i < |b| && b[i] == '1';
    var at := |hrp| + 1 + |before| + i;
    assert ToLower(s)[at] == LowerChar(s[at]) == '1';
    LastIsBehind(ToLower(s), at);
  }

  lemma {:induction false} LastIsBehind(s: AsciiString, at: nat)
    requires at < |s| && s[at] == '1'
    ensures LastSeparator(s) >= at
  {
    if s[|s| - 1] != '1' {
      LastIsBehind(s[..|s| - 1], at);
    }
  }

  /** Six or more characters behind the last separator: `Decode` does not throw. */
  lemma DamagedIsDecoded(hrp: AsciiString, before: AsciiString, b: AsciiString, after: AsciiString)
    requires NoUpper(hrp) && NoUpper(before) && NoUpper(after)
    requires '1' !in before && '1' !in b && '1' !in after && |before + b + after| >= 6
    ensures var d := Decode(hrp + ['1'] + (before + b + after));
      d.Decoded? && (d.hrp.Some? ==> d.hrp == Some(hrp))
  {
    hide DecodeLower, VerifyChecksum, SymbolsOf, InAlphabet, ToLower, ToUpper;
    LowerParts(hrp, before, b, after);
    DecodeLowerParts(hrp, before + ToLower(b) + after);
  }

  lemma PartsNoUpper(before: AsciiString, window: AsciiString, after: AsciiString)
    requires NoUpper(before + window + after)
    ensures NoUpper(before) && NoUpper(window) && NoUpper(after)
  {
    var s := before + window + after;
    assert forall i :: 0 <= i < |before| ==> before[i] == s[i];
    assert forall i :: 0 <= i < |window| ==> window[i] == s[|before| + i];
    assert forall i :: 0 <= i < |after| ==> after[i] == s[|before| + |window| + i];
  }

  // ---------- exceptions

  /** A checksum that passes with fewer than six symbols behind the last separator. */
  ghost predicate ShortChecksum(adr: AsciiString, hrp: AsciiString, tail: AsciiString) {
    && adr == hrp + ['1'] + tail && '1' !in tail && |tail| < 6
    && InAlphabet(tail) && VerifyChecksum(hrp, SymbolsOf(tail))
  }

  /** `Decode` throws, instead of yielding null, for exactly these strings. */
  lemma ThrowsExactly(s: AsciiString)
    ensures Decode(s) == Throws <==> !MixedCase(s) && exists hrp, tail :: ShortChecksum(ToLower(s), hrp, tail)
  {
    hide VerifyChecksum, InAlphabet, SymbolsOf, ToLower, ToUpper, MixedCase, Squasher.Bytes5to8, LastSeparator;
    var adr := ToLower(s);
    var i := LastSeparator(adr);
    if i >= 0 {
      var hrp, tail := adr[..i], adr[i + 1..];
      assert adr == hrp + ['1'] + tail;
      DecodeLowerParts(hrp, tail);
      assert Decode(s) == Throws ==> ShortChecksum(adr, hrp, tail);
    }
    forall hrp, tail | ShortChecksum(adr, hrp, tail)
      ensures DecodeLower(adr) == Throws
    {
      DecodeLowerParts(hrp, tail);
    }
  }

  /** Which prefix comes out: none for mixed case or without a separator, else what stands before the last one. */
  lemma DecodedPrefix(s: AsciiString)
    ensures MixedCase(s) || '1' !in s ==> Decode(s) == Decoded(None, None)
    ensures forall hrp: AsciiString, tail: AsciiString :: !MixedCase(s) && ToLower(s) == hrp + ['1'] + tail && '1' !in tail ==>
      Decode(s) == Throws || (Decode(s).Decoded? && Decode(s).hrp == Some(hrp))
  {
    hide VerifyChecksum, InAlphabet, SymbolsOf, ToLower, ToUpper, MixedCase, Squasher.Bytes5to8;
    if '1' !in s {
      SeparatorCase(s);
    }
    forall hrp: AsciiString, tail: AsciiString | !MixedCase(s) && ToLower(s) == hrp + ['1'] + tail && '1' !in tail
      ensures Decode(s) == Throws || (Decode(s).Decoded? && Decode(s).hrp == Some(hrp))
    {
      DecodeLowerParts(hrp, tail);
    }
  }

  lemma SeparatorCase(s: AsciiString)
    requires '1' !in s
    ensures LastSeparator(ToLower(s)) == -1
  {
    hide LastSeparator;
    var i := LastSeparator(ToLower(s));
    if i >= 0 {
      LowerSeparator(s, i);
    }
  }

  lemma LowerSeparator(s: AsciiString, i: nat)
    requires i < |s| && ToLower(s)[i] == '1'
    ensures '1' in s
  {
    assert LowerChar(s[i]) == '1' && s[i] == '1';
  }

  lemma DecodeSymbols(hrp: AsciiString, data: bytes)
    requires NoUpper(hrp) && Checksums.Squashed(data) && |data| < 6
    ensures Decode(hrp + ['1'] + CharsOf(data)) == Throws <==> Checksums.PolyMod(HrpExpand(hrp) + data) == 1
  {
    hide CharsOf, InAlphabet, SymbolsOf, ToLower, ToUpper, Checksums.PolyMod, HrpExpand, DecodeLower;
    var tail := CharsOf(data);
    CharsRoundTrip(data);
    DecodeLowerParts(hrp, tail);
    LowerHasNoUpper(hrp + ['1'] + tail);
  }

  /**
   * Fewer than six symbols behind the separator: `Decode` throws exactly if the last six symbols of the expanded
   * prefix and the data together are the checksum of those before.
   */
  lemma EndingThrows(hrp: AsciiString, data: bytes)
    requires NoUpper(hrp) && Checksums.Squashed(data) && |data| < 6
    ensures var values := HrpExpand(hrp) + data;
      Decode(hrp + ['1'] + CharsOf(data)) == Throws
      <==> |values| >= 6 && values[|values| - 6..] == Checksums.Checksum(values[..|values| - 6])
  {
    hide Checksums.PolyMod, Checksums.Checksum, HrpExpand, Decode, CharsOf;
    var values := HrpExpand(hrp) + data;
    HrpIsSquashed(hrp);
    DecodeSymbols(hrp, data);
    if |values| < 6 {
      Checksums.ShortNeverPasses(values);
    } else {
      var n := |values| - 6;
      assert values == values[..n] + values[n..];
      Checksums.ChecksumIsUnique(values[..n], values[n..]);
    }
  }

  /** Characters with the given low bits, from the last quarter of ASCII. */
  function PrefixOf(low: bytes): (hrp: AsciiString)
    requires Checksums.Squashed(low)
    ensures |hrp| == |low| && forall i :: 0 <= i < |low| ==> hrp[i] as int == 96 + low[i]
  {
    seq<Ascii>(|low|, i requires 0 <= i < |low| => (96 + low[i]) as char)
  }

  lemma ExpandPrefix(stem: AsciiString, low: bytes)
    requires NoUpper(stem) && Checksums.Squashed(low)
    ensures NoUpper(stem + PrefixOf(low))
    ensures HrpExpand(stem + PrefixOf(low)) == High(stem) + seq(|low|, _ => 3) + [0] + Low(stem) + low
  {
  }

  /**
   * Any string can be the start of such a prefix: after every stem, the last characters of the prefix and up to
   * five data symbols complete the checksum in exactly one way, and `Decode` throws.
   */
  lemma ShortDataThrows(stem: AsciiString, low: bytes, data: bytes)
    requires NoUpper(stem) && Checksums.Squashed(low) && Checksums.Squashed(data)
    requires |low| + |data| == 6 && |data| < 6
    ensures Decode(stem + PrefixOf(low) + ['1'] + CharsOf(data)) == Throws
      <==> low + data == Checksums.Checksum(High(stem) + seq(|low|, _ => 3) + [0] + Low(stem))
  {
    hide Checksums.Checksum, HrpExpand, Decode, CharsOf, PrefixOf, High, Low;
    var front: bytes := High(stem) + seq(|low|, _ => 3) + [0] + Low(stem);
    ExpandPrefix(stem, low);
    EndingThrows(stem + PrefixOf(low), data);
    var values := HrpExpand(stem + PrefixOf(low)) + data;
    assert values == front + (low + data);
    assert values[|values| - 6..] == low + data && values[..|values| - 6] == front;
  }

  // ---------- the loops of the original

  /** `HRPExpand`: two passes over one zero-filled array. */
  method ExpandHrp(input: AsciiString) returns (output: array<byte>)
    ensures fresh(output) && output[..] == HrpExpand(input)
  {
    output := new byte[|input| * 2 + 1](_ => 0);
    for i := 0 to |input|
      invariant forall k :: 0 <= k < output.Length ==> output[k] == if k < i then input[k] as int / 32 else 0
    {
      output[i] := input[i] as int / 32;
    }
    for i := 0 to |input|
      invariant forall k :: 0 <= k < |input| ==> output[k] == input[k] as int / 32
      invariant output[|input|] == 0
      invariant forall k :: 0 <= k < i ==> output[k + |input| + 1] == input[k] as int % 32
    {
      output[i + |input| + 1] := input[i] as int % 32;
    }
    assert output[..] == HrpExpand(input) by {
      HrpBytes(input, output[..]);
    }
  }

  lemma HrpBytes(input: AsciiString, output: bytes)
    requires |output| == 2 * |input| + 1
    requires forall k :: 0 <= k < |input| ==> output[k] == input[k] as int / 32
    requires output[|input|] == 0
    requires forall k :: 0 <= k < |input| ==> output[k + |input| + 1] == input[k] as int % 32
    ensures output == HrpExpand(input)
  {
    var n := |input|;
    forall i | 0 <= i < 2 * n + 1
      ensures output[i] == HrpExpand(input)[i]
    {
      if i > n {
        var k := i - n - 1;
        assert output[k + n + 1] == input[k] as int % 32;
      }
    }
  }

  /** `StringToSquashedBytes`. */
  method ReadSymbols(input: AsciiString) returns (r: Option<bytes>)
    ensures r == StringToSquashedBytes(input)
  {
    hide SymbolOf;
    var squashed := new byte[|input|](_ => 0);
    for i := 0 to |input|
      invariant forall k :: 0 <= k < i ==> SymbolOf(input[k]) >= 0 && squashed[k] == SymbolOf(input[k])
    {
      SymbolRoundTrip(input[i]);
      var buffer := SymbolOf(input[i]);
      if buffer == -1 {
        assert !InAlphabet(input);
        return None;
      }
      squashed[i] := buffer;
    }
    assert InAlphabet(input);
    assert squashed[..] == SymbolsOf(input);
    r := Some(squashed[..]);
  }

  /** `SquashedBytesToString`. */
  method WriteSymbols(input: bytes) returns (r: Option<AsciiString>)
    ensures r == SquashedBytesToString(input)
  {
    hide CharOf;
    var s: AsciiString := [];
    for i := 0 to |input|
      invariant |s| == i
      invariant forall k :: 0 <= k < i ==> input[k] < 32 && s[k] == CharOf(input[k])
    {
      var c := input[i];
      if c >= 32 {
        assert !Checksums.Squashed(input);
        return None;
      }
      s := s + [CharOf(c)];
    }
    assert Checksums.Squashed(input);
    assert s == CharsOf(input);
    r := Some(s);
  }

  /** `Encode`; it never returns null or the empty string. */
  method EncodeString(hrp: AsciiString, data: bytes) returns (r: AsciiString)
    ensures r == Encode(hrp, data)
  {
    hide Squasher.Bytes8to5, Checksums.Checksum, CharsOf, HrpExpand;
    var base5 := Squasher.ByteSquasher(data, 8, 5);
    EncodeFacts(hrp, data);
    var expanded := ExpandHrp(hrp);
    var checksum := Checksums.ComputeChecksum(expanded[..] + base5.value);
    var encoded := WriteSymbols(base5.value + checksum[..]);
    r := hrp + ['1'] + encoded.value;
  }

  /** `Decode`: the out-parameters, or an exception when a checksum fits but has fewer than six symbols. */
  method DecodeString(encoded: AsciiString) returns (r: Decoding)
    ensures r == Decode(encoded)
  {
    hide Checksums.PolyMod, HrpExpand, Squasher.Bytes5to8, SymbolsOf, InAlphabet, LastSeparator;
    var adr := ToLower(encoded);
    if encoded != adr && encoded != ToUpper(encoded) {
      return Decoded(None, None);
    }
    var splitLoc := LastSeparator(adr);
    if splitLoc == -1 {
      return Decoded(None, None);
    }
    var hrp := adr[..splitLoc];
    var squashed := ReadSymbols(adr[splitLoc + 1..]);
    if squashed.None? {
      return Decoded(Some(hrp), None);
    }
    var expanded := ExpandHrp(hrp);
    var checksum := Checksums.ComputePolyMod(expanded[..] + squashed.value);
    if checksum != 1 {
      return Decoded(Some(hrp), None);
    }
    var length := |squashed.value| - 6;
    if length < 0 {
      return Throws;
    }
    var data := Squasher.ByteSquasher(squashed.value[..length], 5, 8);
    return Decoded(Some(hrp), data);
  }
}
