/** LNBolt/BOLT1/BigSize.cs: the variable-length integer of BOLT 1, Appendix A. */
module BigSize {
  import opened Wrappers
  import opened Bytes
  import opened BigEndian

  function Encoding(v: uint64): (e: bytes)
    ensures |e| == Length(v)
    ensures e[0] == 0 <==> v == 0
  {
    if v < 0xfd then [v]
    else if v < 0x1_0000 then [0xfd] + ToBE(v, 2)
    else if v < 0x1_0000_0000 then [0xfe] + ToBE(v, 4)
    else [0xff] + ToBE(v, 8)
  }

  function Length(v: uint64): nat {
    if v < 0xfd then 1 else if v < 0x1_0000 then 3 else if v < 0x1_0000_0000 then 5 else 9
  }

  function Parse(data: bytes): Result<uint64> {
    if data == [] then Err(EndOfData)
    else if data[0] < 0xfd then Ok(data[0])
    else if data[0] < 0xfe then ParseWide(data, 2, 0xfd)
    else if data[0] < 0xff then ParseWide(data, 4, 0x1_0000)
    else ParseWide(data, 8, 0x1_0000_0000)
  }

  /** A `width`-byte number after the first byte; one below `least` has a shorter form and is refused. */
  function ParseWide(data: bytes, width: nat, least: nat): (r: Result<uint64>)
    requires width == 2 || width == 4 || width == 8
    requires data != []
  {
    if |data| < 1 + width then Err(UnexpectedEnd)
    else
      var v := Value(data[1..1 + width]);
      assert v < 0x1_0000_0000_0000_0000 by {
        ValueBound(data[1..1 + width]);
        Pow256Widths();
      }
      if v < least then Err(NotCanonical) else Ok(v)
  }

  /** Decoding an encoded value returns it, whatever bytes follow. */
  lemma ParseEncoding(v: uint64, rest: bytes)
    ensures Parse(Encoding(v) + rest) == Ok(v)
  {
    Pow256Widths();
    var data := Encoding(v) + rest;
    if v >= 0xfd {
      var width := Length(v) - 1;
      assert data[1..1 + width] == ToBE(v, width);
      ValueToBE(v, width);
    }
  }

  /** A buffer is accepted only if it starts with the encoding of the result. */
  lemma ParseIsEncoding(data: bytes, v: uint64)
    requires Parse(data) == Ok(v)
    ensures Encoding(v) <= data
  {
    if data[0] >= 0xfd {
      var width := if data[0] == 0xfd then 2 else if data[0] == 0xfe then 4 else 8;
      Pow256Widths();
      ValueBound(data[1..1 + width]);
      ToBEValue(data[1..1 + width]);
      assert data[..1 + width] == [data[0]] + data[1..1 + width];
    }
  }

  /** The accepted buffers are exactly those that start with some encoding, and they start with only one. */
  lemma ParseAcceptsExactly(data: bytes, v: uint64)
    ensures Parse(data) == Ok(v) <==> Encoding(v) <= data
  {
    if Encoding(v) <= data {
      ParseEncoding(v, data[Length(v)..]);
      assert data == Encoding(v) + data[Length(v)..];
    }
    if Parse(data) == Ok(v) {
      ParseIsEncoding(data, v);
    }
  }

  /** No encoding is a prefix of another. */
  lemma PrefixFree(v: uint64, w: uint64)
    requires Encoding(v) <= Encoding(w)
    ensures v == w
  {
    ParseAcceptsExactly(Encoding(w), v);
    ParseAcceptsExactly(Encoding(w), w);
  }

  // ---------- the test vectors of BOLT 1, Appendix A, at the ends of the ranges

  lemma OneByte(a: byte)
    ensures Value([a]) == a
  {
    hide Value;
    ValueStep([a]);
    assert [a][..0] == [];
  }

  lemma TwoBytes(a: byte, b: byte)
    ensures Value([a, b]) == a * 0x100 + b
  {
    hide Value;
    OneByte(a);
    ValueStep([a, b]);
    assert [a, b][..1] == [a];
  }

  lemma FourBytes(a: byte, b: byte, c: byte, d: byte)
    ensures Value([a, b, c, d]) == a * 0x100_0000 + b * 0x1_0000 + c * 0x100 + d
  {
    hide Value;
    TwoBytes(a, b);
    ValueStep([a, b, c]);
    ValueStep([a, b, c, d]);
    assert [a, b, c][..2] == [a, b] && [a, b, c, d][..3] == [a, b, c];
  }

  lemma EightBytes(a: byte, b: byte, c: byte, d: byte, e: byte, f: byte, g: byte, h: byte)
    ensures Value([a, b, c, d, e, f, g, h])
         == (a * 0x100_0000 + b * 0x1_0000 + c * 0x100 + d) * 0x1_0000_0000 + e * 0x100_0000 + f * 0x1_0000 + g * 0x100 + h
  {
    hide Value;
    FourBytes(a, b, c, d);
    ValueStep([a, b, c, d, e]);
    ValueStep([a, b, c, d, e, f]);
    ValueStep([a, b, c, d, e, f, g]);
    ValueStep([a, b, c, d, e, f, g, h]);
    assert [a, b, c, d, e][..4] == [a, b, c, d] && [a, b, c, d, e, f][..5] == [a, b, c, d, e];
    assert [a, b, c, d, e, f, g][..6] == [a, b, c, d, e, f];
    assert [a, b, c, d, e, f, g, h][..7] == [a, b, c, d, e, f, g];
  }

  lemma EncodingIs(data: bytes, v: uint64)
    requires Parse(data) == Ok(v) && |data| == Length(v)
    ensures Encoding(v) == data
  {
    ParseIsEncoding(data, v);
  }

  lemma ShortVectors()
    ensures Encoding(0) == [0] && Encoding(252) == [0xfc]
    ensures Encoding(253) == [0xfd, 0, 0xfd] && Encoding(65535) == [0xfd, 0xff, 0xff]
    ensures Parse([0xfd, 0, 0xfc]) == Err(NotCanonical)
    ensures Parse([]) == Err(EndOfData) && Parse([0xfd]) == Parse([0xfd, 0]) == Err(UnexpectedEnd)
  {
    hide Value, Encoding;
    TwoBytes(0, 0xfd);
    TwoBytes(0xff, 0xff);
    TwoBytes(0, 0xfc);
    assert [0xfd, 0, 0xfd][1..3] == [0, 0xfd] && [0xfd, 0xff, 0xff][1..3] == [0xff, 0xff];
    assert [0xfd, 0, 0xfc][1..3] == [0, 0xfc];
    EncodingIs([0], 0);
    EncodingIs([0xfc], 252);
    EncodingIs([0xfd, 0, 0xfd], 253);
    EncodingIs([0xfd, 0xff, 0xff], 65535);
  }

  lemma FourByteVectors()
    ensures Encoding(65536) == [0xfe, 0, 1, 0, 0] && Encoding(4294967295) == [0xfe, 0xff, 0xff, 0xff, 0xff]
    ensures Parse([0xfe, 0, 0, 0xff, 0xff]) == Err(NotCanonical)
    ensures Parse([0xfe, 0xff, 0xff]) == Err(UnexpectedEnd)
  {
    hide Value, Encoding;
    FourBytes(0, 1, 0, 0);
    FourBytes(0xff, 0xff, 0xff, 0xff);
    FourBytes(0, 0, 0xff, 0xff);
    assert [0xfe, 0, 1, 0, 0][1..5] == [0, 1, 0, 0];
    assert [0xfe, 0xff, 0xff, 0xff, 0xff][1..5] == [0xff, 0xff, 0xff, 0xff];
    assert [0xfe, 0, 0, 0xff, 0xff][1..5] == [0, 0, 0xff, 0xff];
    EncodingIs([0xfe, 0, 1, 0, 0], 65536);
    EncodingIs([0xfe, 0xff, 0xff, 0xff, 0xff], 4294967295);
  }

  lemma EightByteVectors()
    ensures Encoding(4294967296) == [0xff, 0, 0, 0, 1, 0, 0, 0, 0]
    ensures Encoding(18446744073709551615) == [0xff, 0xff, 0xff, 0xff, 0xff, 0xff, 0xff, 0xff, 0xff]
    ensures Parse([0xff, 0, 0, 0, 0, 0xff, 0xff, 0xff, 0xff]) == Err(NotCanonical)
    ensures Parse([0xff, 0xff, 0xff, 0xff, 0xff]) == Err(UnexpectedEnd)
  {
    hide Value, Encoding;
    EightBytes(0, 0, 0, 1, 0, 0, 0, 0);
    EightBytes(0xff, 0xff, 0xff, 0xff, 0xff, 0xff, 0xff, 0xff);
    EightBytes(0, 0, 0, 0, 0xff, 0xff, 0xff, 0xff);
    assert [0xff, 0, 0, 0, 1, 0, 0, 0, 0][1..9] == [0, 0, 0, 1, 0, 0, 0, 0];
    assert [0xff, 0xff, 0xff, 0xff, 0xff, 0xff, 0xff, 0xff, 0xff][1..9] == [0xff, 0xff, 0xff, 0xff, 0xff, 0xff, 0xff, 0xff];
    assert [0xff, 0, 0, 0, 0, 0xff, 0xff, 0xff, 0xff][1..9] == [0, 0, 0, 0, 0xff, 0xff, 0xff, 0xff];
    EncodingIs([0xff, 0, 0, 0, 1, 0, 0, 0, 0], 4294967296);
    EncodingIs([0xff, 0xff, 0xff, 0xff, 0xff, 0xff, 0xff, 0xff, 0xff], 18446744073709551615);
  }
}
