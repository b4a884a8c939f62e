/** LNBolt/BOLT1/TLV.cs, and the record loop of LNBolt/BOLT4/HopPayload.cs. */
module Tlv {
  import opened Wrappers
  import opened Bytes
  import BigSize

  datatype TLV = TLV(typ: uint64, value: blob)

  /** `ToEncoding`. */
  function Encode(t: TLV): (e: bytes)
    ensures |e| == TLVSize(t)
  {
    BigSize.Encoding(t.typ) + BigSize.Encoding(|t.value|) + t.value
  }

  /** The size of the record when it is encoded again. */
  function TLVSize(t: TLV): (n: nat)
    ensures n >= 2
  {
    BigSize.Length(t.typ) + BigSize.Length(|t.value|) + |t.value|
  }

  /** The length field of a record, if the record can be read that far. */
  function LengthField(buffer: bytes): Result<uint64> {
    var typ :- BigSize.Parse(buffer);
    AfterType(buffer, typ);
    BigSize.Parse(buffer[BigSize.Length(typ)..])
  }

  lemma AfterType(buffer: bytes, typ: uint64)
    requires BigSize.Parse(buffer) == Ok(typ)
    ensures BigSize.Length(typ) <= |buffer|
  {
    BigSize.ParseIsEncoding(buffer, typ);
  }

  /** The original converts the length field to `int` without a check. */
  function Parse(buffer: bytes): Result<TLV> {
    var typ :- BigSize.Parse(buffer);
    AfterType(buffer, typ);
    var lengthBuffer := buffer[BigSize.Length(typ)..];
    var length :- BigSize.Parse(lengthBuffer);
    var startIndex := BigSize.Length(length);
    var endIndex := Int32(startIndex + Int32(length));
    var data :- Slice(lengthBuffer, startIndex, endIndex);
    Ok(TLV(typ, data))
  }

  /** `TLVSize` never passes the end of the buffer that the record was read from. */
  lemma ParseSize(buffer: bytes, t: TLV)
    requires Parse(buffer) == Ok(t)
    ensures LengthField(buffer).Ok?
    ensures |t.value| <= LengthField(buffer).value
    ensures LengthField(buffer).value <= INT_MAX ==> |t.value| == LengthField(buffer).value
    ensures TLVSize(t) <= |buffer|
  {
    AfterType(buffer, t.typ);
    var lengthBuffer := buffer[BigSize.Length(t.typ)..];
    var length := LengthField(buffer).value;
    var startIndex := BigSize.Length(length);
    assert |t.value| == Int32(startIndex + Int32(length)) - startIndex;
    assert startIndex + |t.value| <= |lengthBuffer|;
  }

  /** A record read back is a prefix of its buffer exactly when its length field fits an `int`. */
  lemma ParseShape(buffer: bytes, t: TLV)
    requires Parse(buffer) == Ok(t)
    ensures TLVSize(t) <= |buffer|
    ensures LengthField(buffer).Ok?
    ensures LengthField(buffer).value <= INT_MAX <==> Encode(t) == buffer[..TLVSize(t)]
  {
    ParseSize(buffer, t);
    var length := LengthField(buffer).value;
    if length <= INT_MAX {
      var typ := BigSize.Encoding(t.typ);
      BigSize.ParseIsEncoding(buffer, t.typ);
      BigSize.ParseIsEncoding(buffer[|typ|..], length);
      ThreeParts(buffer, typ, BigSize.Encoding(length), t.value);
    } else if Encode(t) == buffer[..TLVSize(t)] {
      LengthRead(t, buffer);
    }
  }

  lemma ThreeParts(s: bytes, a: bytes, b: bytes, c: bytes)
    requires a <= s && b <= s[|a|..] && c <= s[|a|..][|b|..]
    ensures a + b + c == s[..|a| + |b| + |c|]
  {
    assert s == a + s[|a|..];
    assert s[|a|..] == b + s[|a|..][|b|..];
    assert s[|a|..][|b|..] == c + s[|a|..][|b|..][|c|..];
  }

  lemma LengthRead(t: TLV, buffer: bytes)
    requires Encode(t) <= buffer
    ensures LengthField(buffer) == Ok(|t.value|)
  {
    var typ, length := BigSize.Encoding(t.typ), BigSize.Encoding(|t.value|);
    var rest := buffer[TLVSize(t)..];
    assert buffer == typ + (length + (t.value + rest));
    BigSize.ParseEncoding(t.typ, length + (t.value + rest));
    assert buffer[|typ|..] == length + (t.value + rest);
    BigSize.ParseEncoding(|t.value|, t.value + rest);
  }

  /** Decoding an encoded record returns it, whatever bytes follow. */
  lemma ParseEncode(t: TLV, rest: bytes)
    requires |Encode(t) + rest| <= INT_MAX
    ensures Parse(Encode(t) + rest) == Ok(t)
    ensures LengthField(Encode(t) + rest) == Ok(|t.value|)
  {
    hide BigSize.Encoding, BigSize.Parse, Int32;
    var length := BigSize.Encoding(|t.value|);
    var buffer := Encode(t) + rest;
    assert buffer == BigSize.Encoding(t.typ) + (length + t.value + rest);
    BigSize.ParseEncoding(t.typ, length + t.value + rest);
    var lengthBuffer := buffer[BigSize.Length(t.typ)..];
    assert lengthBuffer == length + (t.value + rest);
    BigSize.ParseEncoding(|t.value|, t.value + rest);
    assert lengthBuffer[|length|..|length| + |t.value|] == t.value;
  }

  // ---------- streams of records

  function EncodeAll(ts: seq<TLV>): bytes {
    if ts == [] then [] else Encode(ts[0]) + EncodeAll(ts[1..])
  }

  /** The record loop of `ParseSphinx`: it steps by `TLVSize`, not by the bytes the parser looked at. */
  function ParseStream(s: bytes): Result<seq<TLV>>
    decreases |s|
  {
    if s == [] then Ok([])
    else
      var t :- Parse(s);
      ParseShape(s, t);
      var rest :- ParseStream(s[TLVSize(t)..]);
      Ok([t] + rest)
  }

  /** No length field met by the loop is changed by the conversion to `int`. */
  predicate LengthsFit(s: bytes)
    decreases |s|
  {
    s != [] && Parse(s).Ok? ==>
      var t := Parse(s).value;
      ParseShape(s, t);
      LengthField(s).value <= INT_MAX && LengthsFit(s[TLVSize(t)..])
  }

  lemma {:induction false} ParseStreamEncodeAll(ts: seq<TLV>)
    requires |EncodeAll(ts)| <= INT_MAX
    ensures ParseStream(EncodeAll(ts)) == Ok(ts)
    ensures LengthsFit(EncodeAll(ts))
  {
    if ts != [] {
      var rest := EncodeAll(ts[1..]);
      ParseEncode(ts[0], rest);
      assert EncodeAll(ts)[TLVSize(ts[0])..] == rest;
      ParseStreamEncodeAll(ts[1..]);
      assert [ts[0]] + ts[1..] == ts;
    }
  }

  /** Re-encoding what the loop read gives the stream back exactly when no length field was truncated. */
  lemma {:induction false} ReencodingIsStream(s: bytes)
    requires ParseStream(s).Ok?
    ensures EncodeAll(ParseStream(s).value) == s <==> LengthsFit(s)
    decreases |s|
  {
    if s != [] {
      var t := Parse(s).value;
      ParseShape(s, t);
      var n := TLVSize(t);
      var tail := ParseStream(s[n..]).value;
      ReencodingIsStream(s[n..]);
      var all := ParseStream(s).value;
      assert all == [t] + tail && all[1..] == tail;
      SameHalves(Encode(t), EncodeAll(tail), s, n);
    }
  }

  lemma SameHalves(a: bytes, b: bytes, s: bytes, n: nat)
    requires |a| == n <= |s|
    ensures a + b == s <==> a == s[..n] && b == s[n..]
  {
    if a + b == s {
      assert (a + b)[..n] == a && (a + b)[n..] == b;
    }
  }

  /** The loop accepts the concatenations of encodings and, beside them, only streams with a truncated length. */
  lemma AcceptedStreams(s: bytes)
    requires |s| <= INT_MAX
    ensures (exists ts :: EncodeAll(ts) == s) <==> ParseStream(s).Ok? && LengthsFit(s)
    ensures forall ts :: EncodeAll(ts) == s ==> ParseStream(s) == Ok(ts)
  {
    forall ts | EncodeAll(ts) == s
      ensures ParseStream(s) == Ok(ts) && LengthsFit(s)
    {
      ParseStreamEncodeAll(ts);
    }
    if ParseStream(s).Ok? && LengthsFit(s) {
      ReencodingIsStream(s);
      var ts := ParseStream(s).value;
      assert EncodeAll(ts) == s;
    }
  }

  /** Reading records never fails for want of a right HMAC. */
  lemma {:induction false} StreamErrors(s: bytes)
    ensures ParseStream(s) != Err(HmacMismatch)
    decreases |s|
  {
    if s != [] && Parse(s).Ok? {
      ParseShape(s, Parse(s).value);
      StreamErrors(s[TLVSize(Parse(s).value)..]);
    }
  }

  /** A record whose length field is 2^32: the length converts to 0 and the field's own bytes are read as records. */
  lemma TruncatedLengthIsAccepted(s: bytes, ts: seq<TLV>)
    requires s == [1, 0xff, 0, 0, 0, 1, 0, 0, 0, 0, 0]
    requires ts == [TLV(1, []), TLV(0, []), TLV(0, [0]), TLV(0, []), TLV(0, [])]
    ensures ParseStream(s) == Ok(ts)
    ensures !LengthsFit(s)
    ensures forall us :: EncodeAll(us) != s
  {
    var t, tail, rest := ts[0], ts[1..], s[2..];
    OversizedRecord(s);
    assert ParseStream(rest) == Ok(tail) by {
      SmallRecords(rest, tail);
    }
    assert TLVSize(t) == 2;
    assert [t] + tail == ts;
    TruncatedRecord(s, t, tail);
  }

  lemma TruncatedRecord(s: bytes, t: TLV, tail: seq<TLV>)
    requires |s| <= INT_MAX
    requires Parse(s) == Ok(t) && LengthField(s).Ok? && LengthField(s).value > INT_MAX
    requires TLVSize(t) <= |s| && ParseStream(s[TLVSize(t)..]) == Ok(tail)
    ensures ParseStream(s) == Ok([t] + tail)
    ensures !LengthsFit(s)
    ensures forall ts :: EncodeAll(ts) != s
  {
    AcceptedStreams(s);
  }

  lemma OversizedRecord(s: bytes)
    requires s == [1, 0xff, 0, 0, 0, 1, 0, 0, 0, 0, 0]
    ensures Parse(s) == Ok(TLV(1, []))
    ensures LengthField(s) == Ok(0x1_0000_0000)
  {
    BigSize.EightByteVectors();
    BigSize.ParseEncoding(0x1_0000_0000, [0]);
    assert s[1..] == [0xff, 0, 0, 0, 1, 0, 0, 0, 0] + [0];
    assert Int32(0x1_0000_0000) == 0 && Int32(9) == 9;
  }

  lemma SmallRecords(s: bytes, ts: seq<TLV>)
    requires s == [0, 0, 0, 1, 0, 0, 0, 0, 0]
    requires ts == [TLV(0, []), TLV(0, [0]), TLV(0, []), TLV(0, [])]
    ensures ParseStream(s) == Ok(ts)
  {
    assert EncodeAll(ts[3..]) == Encode(ts[3]) + [];
    assert EncodeAll(ts[2..]) == Encode(ts[2]) + EncodeAll(ts[3..]);
    assert EncodeAll(ts[1..]) == Encode(ts[1]) + EncodeAll(ts[2..]);
    assert EncodeAll(ts) == s;
    ParseStreamEncodeAll(ts);
  }
}
