/** LNBolt/LNTools.cs: short channel ids, as a 64-bit number, as three fields, and as text. */
module ChannelIds {
  import opened Wrappers
  import opened Bytes

  datatype ShortChannelId = ShortChannelId(block: uint32, tx: uint32, output: uint16)

  // ---------- packing

  /** `LNDChannelIdToSCID`: the top 24, the middle 24 and the low 16 bits. */
  function ToScid(chanId: uint64): ShortChannelId {
    ShortChannelId(chanId / 0x100_0000_0000, chanId / 0x1_0000 % 0x100_0000, chanId % 0x1_0000)
  }

  /** `x << k` on a 64-bit unsigned integer. */
  function ShiftLeft(x: uint64, k: nat): uint64 {
    x * Pow2(k) % 0x1_0000_0000_0000_0000
  }

  /** The bitwise or of the low `width` bits, from the lowest bit up. */
  function OrBits(a: nat, b: nat, width: nat): (r: nat)
    ensures r < Pow2(width)
  {
    if width == 0 then 0
    else 2 * OrBits(a / 2, b / 2, width - 1) + if a % 2 == 1 || b % 2 == 1 then 1 else 0
  }

  function Or(a: uint64, b: uint64): uint64 {
    LargePowers();
    OrBits(a, b, 64)
  }

  /** The packing at the end of `SCIDToLNDChannelId`. */
  function Pack(block: uint64, tx: uint64, output: uint64): uint64 {
    Or(Or(ShiftLeft(block, 40), ShiftLeft(tx, 16)), output)
  }

  lemma LargePowers()
    ensures Pow2(16) == 0x1_0000 && Pow2(40) == 0x100_0000_0000 && Pow2(64) == 0x1_0000_0000_0000_0000
  {
    SmallPowers();
    Pow2Sum(8, 8);
    Pow2Sum(16, 16);
    Pow2Sum(32, 8);
    Pow2Sum(32, 32);
  }

  lemma {:induction false} OrNothing(a: nat, width: nat)
    requires a < Pow2(width)
    ensures OrBits(a, 0, width) == a
  {
    if width > 0 {
      OrNothing(a / 2, width - 1);
    }
  }

  /** Numbers without a common bit are added. */
  lemma {:induction false} OrAdds(m: nat, b: nat, k: nat, width: nat)
    requires b < Pow2(k) && k <= width && m * Pow2(k) < Pow2(width)
    ensures OrBits(m * Pow2(k), b, width) == m * Pow2(k) + b
  {
    if k == 0 {
      OrNothing(m, width);
    } else {
      var half := m * Pow2(k - 1);
      assert m * Pow2(k) == 2 * half;
      OrAdds(m, b / 2, k - 1, width - 1);
    }
  }

  lemma PackInRange(block: nat, tx: nat, output: nat)
    requires block < 0x100_0000 && tx < 0x100_0000 && output < 0x1_0000
    ensures Pack(block, tx, output) == block * 0x100_0000_0000 + tx * 0x1_0000 + output
  {
    LargePowers();
    hide Pow2, OrBits;
    OrAdds(block, tx * 0x1_0000, 40, 64);
    OrAdds(block * 0x100_0000 + tx, output, 16, 64);
  }

  /** Unpacking undoes packing exactly when block and transaction index fit into 24 bits. */
  lemma ScidRoundTrip(s: ShortChannelId)
    ensures ToScid(Pack(s.block, s.tx, s.output)) == s <==> s.block < 0x100_0000 && s.tx < 0x100_0000
  {
    hide Pack;
    if s.block < 0x100_0000 && s.tx < 0x100_0000 {
      PackInRange(s.block, s.tx, s.output);
    }
  }

  /** Packing undoes unpacking for every 64-bit id. */
  lemma ChannelIdRoundTrip(chanId: uint64)
    ensures var s := ToScid(chanId); Pack(s.block, s.tx, s.output) == chanId
  {
    hide Pack;
    var s := ToScid(chanId);
    PackInRange(s.block, s.tx, s.output);
  }

  // ---------- text

  predicate IsDigit(c: char) {
    '0' as int <= c as int <= '9' as int
  }

  predicate AllDigits(s: string) {
    forall i :: 0 <= i < |s| ==> IsDigit(s[i])
  }

  predicate IsSeparator(c: char) {
    c == 'x' || c == ':'
  }

  function Decimal(n: nat): (s: string)
    ensures s != [] && AllDigits(s)
  {
    var digit := ('0' as int + n % 10) as char;
    if n < 10 then [digit] else Decimal(n / 10) + [digit]
  }

  function DecimalValue(s: string): nat
    requires AllDigits(s)
  {
    if s == [] then 0
    else
      assert IsDigit(s[|s| - 1]);
      DecimalValue(s[..|s| - 1]) * 10 + (s[|s| - 1] as int - '0' as int)
  }

  /** `Convert.ToUInt64`, on text without sign and white space. */
  function ToUInt64(s: string): Result<uint64> {
    if s == [] || !AllDigits(s) then Err(OutOfRange)
    else if DecimalValue(s) >= 0x1_0000_0000_0000_0000 then Err(OutOfRange)
    else Ok(DecimalValue(s))
  }

  /** `Split` at any separator, without empty entries; `entry` is what has been read of the current one. */
  function Split(s: string, entry: string): seq<string>
    decreases |s|
  {
    if s == [] then Flush(entry)
    else if IsSeparator(s[0]) then Flush(entry) + Split(s[1..], [])
    else Split(s[1..], entry + [s[0]])
  }

  function Flush(entry: string): seq<string> {
    if entry == [] then [] else [entry]
  }

  /** `SCIDToLNDChannelId`; entries after the third have to be numbers too, and are ignored. */
  function ParseScid(scid: string): Result<uint64> {
    var entries := Split(scid, []);
    var numbers :- ToNumbers(entries);
    if |numbers| < 3 then Err(OutOfRange) else Ok(Pack(numbers[0], numbers[1], numbers[2]))
  }

  function ToNumbers(entries: seq<string>): (r: Result<seq<uint64>>)
    ensures r.Ok? ==> |r.value| == |entries|
  {
    if entries == [] then Ok([])
    else
      var first :- ToUInt64(entries[0]);
      var rest :- ToNumbers(entries[1..]);
      Ok([first] + rest)
  }

  /** `SCIDToString`. */
  function PrintScid(s: ShortChannelId, separator: char): string {
    Decimal(s.block) + [separator] + Decimal(s.tx) + [separator] + Decimal(s.output)
  }

  lemma {:induction false} DecimalRoundTrip(n: nat)
    ensures DecimalValue(Decimal(n)) == n
  {
    var s := Decimal(n);
    var digit := ('0' as int + n % 10) as char;
    if n < 10 {
      assert s[..|s| - 1] == [];
    } else {
      DecimalRoundTrip(n / 10);
      assert s[..|s| - 1] == Decimal(n / 10);
    }
  }

  /** Reading an entry to its end. */
  lemma {:induction false} SplitEntry(digits: string, rest: string, entry: string)
    requires AllDigits(digits)
    ensures Split(digits + rest, entry) == Split(rest, entry + digits)
    decreases |digits|
  {
    if digits == [] {
      assert digits + rest == rest && entry + digits == entry;
    } else {
      assert (digits + rest)[0] == digits[0] && (digits + rest)[1..] == digits[1..] + rest;
      assert IsDigit(digits[0]) && !IsSeparator(digits[0]);
      SplitEntry(digits[1..], rest, entry + [digits[0]]);
      assert entry + [digits[0]] + digits[1..] == entry + digits;
    }
  }

  /** A separator cuts a text in two, whatever stands on both sides; so empty entries leave nothing. */
  lemma {:induction false} SplitCuts(text: string, separator: char, rest: string, entry: string)
    requires separator == 'x' || separator == ':'
    ensures Split(text + [separator] + rest, entry) == Split(text, entry) + Split(rest, [])
    decreases |text|
  {
    if text == [] {
      assert [] + [separator] + rest == [separator] + rest && ([separator] + rest)[1..] == rest;
    } else {
      assert text + [separator] + rest == [text[0]] + (text[1..] + [separator] + rest);
      if IsSeparator(text[0]) {
        SplitCuts(text[1..], separator, rest, []);
      } else {
        SplitCuts(text[1..], separator, rest, entry + [text[0]]);
      }
    }
  }

  lemma {:induction false} SplitNothing(text: string, entry: string)
    requires 'x' !in text && ':' !in text
    ensures Split(text, entry) == if entry + text == [] then [] else [entry + text]
    decreases |text|
  {
    if text == [] {
      assert entry + text == entry;
    } else {
      SplitNothing(text[1..], entry + [text[0]]);
      assert entry + [text[0]] + text[1..] == entry + text;
    }
  }

  lemma SplitFirst(digits: string, separator: char, rest: string)
    requires digits != [] && AllDigits(digits) && IsSeparator(separator)
    ensures Split(digits + [separator] + rest, []) == [digits] + Split(rest, [])
  {
    assert digits + [separator] + rest == digits + ([separator] + rest);
    assert [] + digits == digits && ([separator] + rest)[1..] == rest;
    SplitEntry(digits, [separator] + rest, []);
  }

  lemma SplitPrinted(s: ShortChannelId, separator: char)
    requires separator == 'x' || separator == ':'
    ensures Split(PrintScid(s, separator), []) == [Decimal(s.block), Decimal(s.tx), Decimal(s.output)]
  {
    hide Decimal;
    var b, t, o := Decimal(s.block), Decimal(s.tx), Decimal(s.output);
    assert PrintScid(s, separator) == b + [separator] + (t + [separator] + o);
    SplitFirst(b, separator, t + [separator] + o);
    SplitFirst(t, separator, o);
    assert o + [] == o && [] + o == o;
    SplitEntry(o, [], []);
  }

  lemma DecimalIsNumber(n: uint64)
    ensures ToUInt64(Decimal(n)) == Ok(n)
  {
    hide Decimal;
    DecimalRoundTrip(n);
  }

  /** Unpacking, printing, splitting, reading and packing give back every 64-bit channel id. */
  lemma TextRoundTrip(chanId: uint64, separator: char)
    requires separator == 'x' || separator == ':'
    ensures ParseScid(PrintScid(ToScid(chanId), separator)) == Ok(chanId)
  {
    hide Decimal, Split, Pack, ToUInt64, PrintScid;
    var s := ToScid(chanId);
    SplitPrinted(s, separator);
    DecimalIsNumber(s.block);
    DecimalIsNumber(s.tx);
    DecimalIsNumber(s.output);
    ThreeNumbers(Decimal(s.block), Decimal(s.tx), Decimal(s.output), s.block, s.tx, s.output);
    ChannelIdRoundTrip(chanId);
  }

  lemma ThreeNumbers(a: string, b: string, c: string, m: uint64, n: uint64, k: uint64)
    requires ToUInt64(a) == Ok(m) && ToUInt64(b) == Ok(n) && ToUInt64(c) == Ok(k)
    ensures ToNumbers([a, b, c]) == Ok([m, n, k])
  {
    hide ToUInt64, ToNumbers;
    assert [c] + [] == [c] && [k] + [] == [k] && [b] + [c] == [b, c] && [n] + [k] == [n, k];
    assert [a] + [b, c] == [a, b, c] && [m] + [n, k] == [m, n, k];
    NumbersCons(c, k, [], []);
    NumbersCons(b, n, [c], [k]);
    NumbersCons(a, m, [b, c], [n, k]);
  }

  lemma NumbersCons(entry: string, n: uint64, entries: seq<string>, ns: seq<uint64>)
    requires ToUInt64(entry) == Ok(n)
    requires entries == [] ==> ns == []
    requires entries != [] ==> ToNumbers(entries) == Ok(ns)
    ensures ToNumbers([entry] + entries) == Ok([n] + ns)
  {
    hide ToUInt64;
    assert ([entry] + entries)[1..] == entries;
  }

  /** Printing in-range fields and reading them back gives the fields, in the packed form. */
  lemma FieldsRoundTrip(s: ShortChannelId, separator: char)
    requires separator == 'x' || separator == ':'
    ensures ParseScid(PrintScid(s, separator)).Ok?
    ensures ToScid(ParseScid(PrintScid(s, separator)).value) == s <==> s.block < 0x100_0000 && s.tx < 0x100_0000
  {
    hide Decimal, Split, Pack, ToUInt64, PrintScid;
    SplitPrinted(s, separator);
    DecimalIsNumber(s.block);
    DecimalIsNumber(s.tx);
    DecimalIsNumber(s.output);
    ThreeNumbers(Decimal(s.block), Decimal(s.tx), Decimal(s.output), s.block, s.tx, s.output);
    ScidRoundTrip(s);
  }

  /** A channel id with its text. */
  lemma ChannelIdExample()
    ensures ToScid(771399766003482624) == ShortChannelId(701584, 2165, 0)
    ensures PrintScid(ToScid(771399766003482624), 'x') == "701584x2165x0"
    ensures ParseScid("701584x2165x0") == Ok(771399766003482624)
  {
    hide *;
    FieldsExample();
    PrintExample();
    TextRoundTrip(771399766003482624, 'x');
  }

  lemma FieldsExample()
    ensures ToScid(771399766003482624) == ShortChannelId(701584, 2165, 0)
  {
  }

  lemma PrintExample()
    ensures PrintScid(ShortChannelId(701584, 2165, 0), 'x') == "701584x2165x0"
  {
    hide Decimal;
    DecimalExamples();
  }

  lemma DecimalExamples()
    ensures Decimal(701584) == "701584" && Decimal(2165) == "2165" && Decimal(0) == "0"
  {
    assert Decimal(70) == "70";
    assert Decimal(701) == "701";
    assert Decimal(7015) == "7015";
    assert Decimal(70158) == "70158";
    assert Decimal(21) == "21";
    assert Decimal(216) == "216";
  }
}
