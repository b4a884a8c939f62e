/** LNBolt/BOLT4/HopPayload.cs: the per-hop payload, in its legacy and its TLV form. */
module HopPayloads {
  import opened Wrappers
  import opened Bytes
  import opened BigEndian
  import opened Tlv
  import BigSize

  datatype Kind = Legacy | TlvKind

  datatype PaymentData = PaymentData(rawData: blob, paymentSecret: blob, totalMSat: uint64)

  datatype HopPayload = HopPayload(
    kind: Kind,
    channelId: Option<blob>,
    amountToForward: uint64,
    outgoingCltvValue: uint32,
    paymentMetadata: Option<blob>,
    paymentData: Option<PaymentData>,
    otherTlvs: seq<TLV>)

  const AMOUNT_TO_FORWARD := 2
  const OUTGOING_CLTV_VALUE := 4
  const SHORT_CHANNEL_ID := 6
  const PAYMENT_DATA := 8
  const PAYMENT_METADATA := 16

  // ---------- encoding

  /** The records that the TLV form is encoded as; payment data, metadata and other records are dropped. */
  function Records(p: HopPayload): seq<TLV> {
    Pow256Widths();
    TrimmedRoundTrip(p.amountToForward, 8);
    TrimmedRoundTrip(p.outgoingCltvValue, 4);
    [TLV(AMOUNT_TO_FORWARD, ToTrimmed(p.amountToForward, 8)),
     TLV(OUTGOING_CLTV_VALUE, ToTrimmed(p.outgoingCltvValue, 4))] + ChannelRecord(p.channelId)
  }

  function ChannelRecord(channelId: Option<blob>): seq<TLV> {
    if channelId.Some? && channelId.value != [] then [TLV(SHORT_CHANNEL_ID, channelId.value)] else []
  }

  /** The 32-byte buffer of the legacy form; a channel id longer than the buffer throws. */
  function LegacyBuffer(p: HopPayload): (r: Result<bytes>)
    ensures r.Ok? ==> |r.value| == 32
  {
    var id := if p.channelId.Some? then p.channelId.value else [];
    if |id| > 32 then Err(ArgumentTooLong)
    else
      var withId := Overwrite(Zeros(32), 0, id);
      var withAmount := Overwrite(withId, 8, ToBE(p.amountToForward, 8));
      Ok(Overwrite(withAmount, 16, ToBE(p.outgoingCltvValue, 4)))
  }

  function ToDataBuffer(p: HopPayload): (r: Result<bytes>)
    ensures p.kind.TlvKind? ==> r.Ok?
    ensures r.Ok? ==> |r.value| == Size(p)
    ensures p.kind.Legacy? && r.Ok? ==> |r.value| == 32
  {
    if p.kind.Legacy? then LegacyBuffer(p) else Ok(EncodeAll(Records(p)))
  }

  function Size(p: HopPayload): (n: nat)
    ensures 4 <= n <= INT_MAX + 40
  {
    if p.kind.Legacy? then 32
    else
      var rs := Records(p);
      assert EncodeAll(rs[2..]) == EncodeAll(ChannelRecord(p.channelId));
      assert EncodeAll(rs) == Encode(rs[0]) + (Encode(rs[1]) + EncodeAll(rs[2..]));
      assert p.channelId.Some? && p.channelId.value != [] ==>
        EncodeAll(ChannelRecord(p.channelId)) == Encode(TLV(SHORT_CHANNEL_ID, p.channelId.value)) + [];
      |EncodeAll(rs)|
  }

  function SphinxSize(p: HopPayload): (n: nat)
    ensures n > 0
  {
    if p.kind.Legacy? then 33 else BigSize.Length(Size(p)) + Size(p)
  }

  function ToSphinxBuffer(p: HopPayload): (r: Result<bytes>)
    ensures r.Ok? ==> |r.value| == SphinxSize(p)
    ensures r.Ok? <==> ToDataBuffer(p).Ok?
    ensures r.Ok? ==> (r.value[0] == 0 <==> p.kind.Legacy?)
  {
    var dataBuffer :- ToDataBuffer(p);
    if p.kind.TlvKind? then Ok(BigSize.Encoding(Size(p)) + dataBuffer) else Ok([0] + dataBuffer)
  }

  // ---------- decoding

  /** `TrimmedBE64ToUInt64` and `TrimmedBE32ToUInt32`. */
  function FromTrimmed64(data: bytes): Result<uint64> {
    Pow256Widths();
    FromTrimmedValue(data, 8);
    var n :- FromTrimmed(data, 8);
    Ok(n)
  }

  function FromTrimmed32(data: bytes): Result<uint32> {
    Pow256Widths();
    FromTrimmedValue(data, 4);
    var n :- FromTrimmed(data, 4);
    Ok(n)
  }

  function ParsePaymentData(rawData: blob): Result<PaymentData> {
    if |rawData| < 32 then Err(OutOfRange)
    else
      var totalMSat :- FromTrimmed64(rawData[32..]);
      Ok(PaymentData(rawData, rawData[..32], totalMSat))
  }

  const EMPTY_TLV := HopPayload(TlvKind, None, 0, 0, None, None, [])

  /** What one record of the stream sets. */
  function Apply(p: HopPayload, t: TLV): Result<HopPayload> {
    if t.typ == AMOUNT_TO_FORWARD then
      var amount :- FromTrimmed64(t.value);
      Ok(p.(amountToForward := amount))
    else if t.typ == OUTGOING_CLTV_VALUE then
      var cltv :- FromTrimmed32(t.value);
      Ok(p.(outgoingCltvValue := cltv))
    else if t.typ == SHORT_CHANNEL_ID then
      Ok(p.(channelId := Some(t.value)))
    else if t.typ == PAYMENT_DATA then
      var data :- ParsePaymentData(t.value);
      Ok(p.(paymentData := Some(data)))
    else if t.typ == PAYMENT_METADATA then
      Ok(p.(paymentMetadata := Some(t.value)))
    else
      Ok(p.(otherTlvs := p.otherTlvs + [t]))
  }

  function ApplyAll(p: HopPayload, ts: seq<TLV>): Result<HopPayload>
    decreases |ts|
  {
    if ts == [] then Ok(p)
    else
      var q :- Apply(p, ts[0]);
      ApplyAll(q, ts[1..])
  }

  function ParseLegacy(buffer: bytes): HopPayload
    requires |buffer| >= 33
  {
    ValueBound(buffer[9..17]);
    ValueBound(buffer[17..21]);
    Pow256Widths();
    HopPayload(Legacy, Some(buffer[1..9]), Value(buffer[9..17]), Value(buffer[17..21]), None, None, [])
  }

  /** The record stream that a TLV payload announces; the announced length is converted to `int`. */
  function RecordBytes(buffer: bytes): Result<bytes> {
    var length :- BigSize.Parse(buffer);
    var start := BigSize.Length(length);
    Slice(buffer, start, Int32(start + Int32(length)))
  }

  function ParseSphinx(buffer: bytes): Result<HopPayload> {
    if buffer == [] then Err(OutOfRange)
    else if buffer[0] == 0 then
      if |buffer| < 33 then Err(OutOfRange) else Ok(ParseLegacy(buffer))
    else
      var stream :- RecordBytes(buffer);
      var ts :- ParseStream(stream);
      ApplyAll(EMPTY_TLV, ts)
  }

  // ---------- round trips

  /** The payloads that the encoder can carry. */
  predicate Encodable(p: HopPayload) {
    && p.paymentMetadata.None? && p.paymentData.None? && p.otherTlvs == []
    && match p.kind
       case Legacy => p.channelId.Some? && |p.channelId.value| == 8
       case TlvKind => p.channelId != Some([])
  }

  /** The types of the records ascend, as BOLT 1 requires of a stream. */
  lemma RecordsAscend(p: HopPayload)
    ensures forall i, j :: 0 <= i < j < |Records(p)| ==> Records(p)[i].typ < Records(p)[j].typ
  {
    hide ToTrimmed;
  }

  /** What is left of a payload after encoding and decoding it. */
  function Carried(p: HopPayload): HopPayload
    requires ToDataBuffer(p).Ok?
  {
    var id := if p.kind.Legacy? then Some(ToDataBuffer(p).value[..8])
              else if p.channelId == Some([]) then None else p.channelId;
    HopPayload(p.kind, id, p.amountToForward, p.outgoingCltvValue, None, None, [])
  }

  lemma CarriedIsSame(p: HopPayload)
    requires ToDataBuffer(p).Ok?
    ensures Carried(p) == p <==> Encodable(p)
    ensures SphinxSize(Carried(p)) == SphinxSize(p)
  {
    if p.kind.Legacy? {
      LegacyParts(p);
    } else {
      assert Records(Carried(p)) == Records(p);
    }
  }

  /** The fields of a legacy buffer, at their offsets. */
  lemma LegacyParts(p: HopPayload)
    requires LegacyBuffer(p).Ok?
    ensures p.channelId.Some? && |p.channelId.value| == 8 ==> LegacyBuffer(p).value[..8] == p.channelId.value
    ensures LegacyBuffer(p).value[8..16] == ToBE(p.amountToForward, 8)
    ensures LegacyBuffer(p).value[16..20] == ToBE(p.outgoingCltvValue, 4)
  {
  }

  lemma ParseEncodedLegacy(p: HopPayload, data: bytes, rest: bytes)
    requires p.kind.Legacy? && ToDataBuffer(p) == Ok(data)
    ensures ParseSphinx([0] + data + rest) == Ok(Carried(p))
  {
    var buffer := [0] + data + rest;
    LegacyParts(p);
    assert buffer[1..9] == data[..8];
    assert buffer[9..17] == data[8..16];
    assert buffer[17..21] == data[16..20];
    Pow256Widths();
    ValueToBE(p.amountToForward, 8);
    ValueToBE(p.outgoingCltvValue, 4);
  }

  lemma ParseEncodedTlv(p: HopPayload, data: bytes, rest: bytes)
    requires p.kind.TlvKind? && ToDataBuffer(p) == Ok(data)
    requires BigSize.Length(|data|) + |data| <= INT_MAX
    ensures ParseSphinx(BigSize.Encoding(|data|) + data + rest) == Ok(Carried(p))
  {
    hide BigSize.Encoding, BigSize.Parse, ParseStream, EncodeAll, ApplyAll, Records, Carried, Int32;
    var prefix := BigSize.Encoding(|data|);
    var buffer := prefix + data + rest;
    assert buffer == prefix + (data + rest);
    BigSize.ParseEncoding(|data|, data + rest);
    assert buffer[|prefix|..|prefix| + |data|] == data;
    assert RecordBytes(buffer) == Ok(data);
    ParseStreamEncodeAll(Records(p));
    ApplyRecords(p);
  }

  lemma TrimmedAmount(n: uint64)
    ensures |ToTrimmed(n, 8)| <= 8 && FromTrimmed64(ToTrimmed(n, 8)) == Ok(n)
  {
    Pow256Widths();
    TrimmedRoundTrip(n, 8);
  }

  lemma TrimmedCltv(n: uint32)
    ensures |ToTrimmed(n, 4)| <= 4 && FromTrimmed32(ToTrimmed(n, 4)) == Ok(n)
  {
    Pow256Widths();
    TrimmedRoundTrip(n, 4);
  }

  lemma ApplyRecords(p: HopPayload)
    requires p.kind.TlvKind?
    ensures ApplyAll(EMPTY_TLV, Records(p)) == Ok(Carried(p))
  {
    hide ToTrimmed, FromTrimmed64, FromTrimmed32, ToDataBuffer;
    TrimmedAmount(p.amountToForward);
    TrimmedCltv(p.outgoingCltvValue);
    var rs := Records(p);
    var p1 := EMPTY_TLV.(amountToForward := p.amountToForward);
    var p2 := p1.(outgoingCltvValue := p.outgoingCltvValue);
    ApplyFirst(EMPTY_TLV, rs[0], rs[1..], p1);
    ApplyFirst(p1, rs[1], ChannelRecord(p.channelId), p2);
    assert rs == [rs[0]] + rs[1..] && rs[1..] == [rs[1]] + ChannelRecord(p.channelId);
    if p.channelId.Some? && p.channelId.value != [] {
      ApplyFirst(p2, TLV(SHORT_CHANNEL_ID, p.channelId.value), [], p2.(channelId := p.channelId));
    }
  }

  lemma ApplyFirst(p: HopPayload, t: TLV, ts: seq<TLV>, q: HopPayload)
    requires Apply(p, t) == Ok(q)
    ensures ApplyAll(p, [t] + ts) == ApplyAll(q, ts)
  {
    hide Apply;
    assert ([t] + ts)[1..] == ts;
  }

  /**
   * Decoding what a payload was encoded as gives its carried part and uses up the encoding, whatever bytes
   * follow; so encoding followed by decoding is the identity on exactly the encodable payloads.
   */
  lemma SphinxRoundTrip(p: HopPayload, encoded: bytes, rest: bytes)
    requires ToSphinxBuffer(p) == Ok(encoded)
    requires |encoded + rest| <= INT_MAX
    ensures ParseSphinx(encoded + rest) == Ok(Carried(p))
    ensures Carried(p) == p <==> Encodable(p)
    ensures SphinxSize(Carried(p)) == SphinxSize(p) == |encoded|
  {
    var data := ToDataBuffer(p).value;
    if p.kind.Legacy? {
      ParseEncodedLegacy(p, data, rest);
    } else {
      ParseEncodedTlv(p, data, rest);
    }
    CarriedIsSame(p);
  }

  // ---------- what records set

  /** A payment secret and a total, as the sender writes them, are read back. */
  lemma PaymentDataRoundTrip(secret: bytes, totalMSat: uint64)
    requires |secret| == 32
    ensures |ToTrimmed(totalMSat, 8)| <= 8
    ensures ParsePaymentData(secret + ToTrimmed(totalMSat, 8))
         == Ok(PaymentData(secret + ToTrimmed(totalMSat, 8), secret, totalMSat))
  {
    hide ToTrimmed;
    TrimmedAmount(totalMSat);
    var rawData := secret + ToTrimmed(totalMSat, 8);
    assert rawData[..32] == secret && rawData[32..] == ToTrimmed(totalMSat, 8);
  }

  /** Payment data is read exactly from 32 to 40 bytes: the secret and, behind it, a big-endian total. */
  lemma PaymentDataExact(secret: bytes, total: bytes)
    requires |secret| == 32 && |secret + total| <= INT_MAX
    ensures ParsePaymentData(secret + total) ==
      if |total| <= 8 then Ok(PaymentData(secret + total, secret, PaymentTotal(total))) else Err(ArgumentTooLong)
    ensures forall rawData: blob :: |rawData| < 32 ==> ParsePaymentData(rawData).Err?
  {
    assert (secret + total)[..32] == secret && (secret + total)[32..] == total;
    FromTrimmedValue(total, 8);
  }

  function PaymentTotal(total: bytes): uint64
    requires |total| <= 8
  {
    Pow256Widths();
    FromTrimmedValue(total, 8);
    Value(total)
  }

  /** The value of the last record of a type. */
  function LastOf(ts: seq<TLV>, typ: nat): Option<blob> {
    if ts == [] then None
    else if ts[|ts| - 1].typ == typ then Some(ts[|ts| - 1].value)
    else LastOf(ts[..|ts| - 1], typ)
  }

  /** The records of types other than the known ones, in order. */
  function Unknown(ts: seq<TLV>): seq<TLV> {
    if ts == [] then []
    else
      var t := ts[|ts| - 1];
      Unknown(ts[..|ts| - 1])
      + if t.typ == 2 || t.typ == 4 || t.typ == 6 || t.typ == 8 || t.typ == 16 then [] else [t]
  }

  /** A record that can be read: an amount of up to eight bytes, a CLTV of up to four, payment data of 32 to 40. */
  predicate Readable(t: TLV) {
    && (t.typ == 2 ==> |t.value| <= 8)
    && (t.typ == 4 ==> |t.value| <= 4)
    && (t.typ == 8 ==> 32 <= |t.value| <= 40)
  }

  function ValueOr0(value: Option<blob>): nat {
    if value.Some? then Value(value.value) else 0
  }

  /** The fields are those of the last records of their types; the rest is kept. */
  ghost predicate FieldsOf(p: HopPayload, ts: seq<TLV>) {
    && p.kind.TlvKind?
    && p.amountToForward == ValueOr0(LastOf(ts, 2))
    && p.outgoingCltvValue == ValueOr0(LastOf(ts, 4))
    && p.channelId == LastOf(ts, 6)
    && (match LastOf(ts, 8)
        case None => p.paymentData.None?
        case Some(v) =>
          && 32 <= |v| <= 40 && p.paymentData.Some?
          && p.paymentData.value.rawData == v && p.paymentData.value.paymentSecret == v[..32]
          && p.paymentData.value.totalMSat == Value(v[32..]))
    && p.paymentMetadata == LastOf(ts, 16)
    && p.otherTlvs == Unknown(ts)
  }

  lemma {:induction false} ApplyAllLast(p: HopPayload, ts: seq<TLV>, t: TLV)
    ensures ApplyAll(p, ts + [t]) == if ApplyAll(p, ts).Ok? then Apply(ApplyAll(p, ts).value, t) else ApplyAll(p, ts)
    decreases |ts|
  {
    hide Apply;
    if ts == [] {
      assert [] + [t] == [t] && [t][1..] == [];
    } else {
      assert (ts + [t])[1..] == ts[1..] + [t];
      if Apply(p, ts[0]).Ok? {
        ApplyAllLast(Apply(p, ts[0]).value, ts[1..], t);
      }
    }
  }

  lemma ApplySets(p: HopPayload, ts: seq<TLV>, t: TLV)
    requires FieldsOf(p, ts)
    ensures Apply(p, t).Ok? <==> Readable(t)
    ensures Readable(t) ==> FieldsOf(Apply(p, t).value, ts + [t])
  {
    hide Value, FromTrimmed, LastOf, Unknown, ParsePaymentData;
    LastOfMore(ts, t);
    FromTrimmedValue(t.value, 8);
    FromTrimmedValue(t.value, 4);
    PaymentDataRead(t.value);
  }

  lemma PaymentDataRead(rawData: blob)
    ensures ParsePaymentData(rawData).Ok? <==> 32 <= |rawData| <= 40
    ensures var r := ParsePaymentData(rawData); r.Ok? ==>
      r.value.rawData == rawData && r.value.paymentSecret == rawData[..32] && r.value.totalMSat == Value(rawData[32..])
  {
    hide Value, FromTrimmed;
    if |rawData| >= 32 {
      FromTrimmedValue(rawData[32..], 8);
    }
  }

  lemma LastOfMore(ts: seq<TLV>, t: TLV)
    ensures forall typ: nat :: LastOf(ts + [t], typ) == if t.typ == typ then Some(t.value) else LastOf(ts, typ)
    ensures Unknown(ts + [t])
         == Unknown(ts) + if t.typ == 2 || t.typ == 4 || t.typ == 6 || t.typ == 8 || t.typ == 16 then [] else [t]
  {
    assert (ts + [t])[..|ts|] == ts;
  }

  /** A list of records is accepted exactly if each can be read, and sets the fields that its last records say. */
  lemma {:induction false} RecordsSet(ts: seq<TLV>)
    ensures ApplyAll(EMPTY_TLV, ts).Ok? <==> forall i :: 0 <= i < |ts| ==> Readable(ts[i])
    ensures ApplyAll(EMPTY_TLV, ts).Ok? ==> FieldsOf(ApplyAll(EMPTY_TLV, ts).value, ts)
  {
    hide FieldsOf, Readable, Apply, ApplyAll;
    if ts == [] {
      NoRecords();
    } else {
      var front, t := ts[..|ts| - 1], ts[|ts| - 1];
      assert ts == front + [t];
      RecordsSet(front);
      ApplyAllLast(EMPTY_TLV, front, t);
      if ApplyAll(EMPTY_TLV, front).Ok? {
        ApplySets(ApplyAll(EMPTY_TLV, front).value, front, t);
      }
    }
  }

  lemma NoRecords()
    ensures ApplyAll(EMPTY_TLV, []) == Ok(EMPTY_TLV) && FieldsOf(EMPTY_TLV, [])
  {
  }

  /**
   * A TLV payload is accepted exactly if its records can be cut out of the buffer and each can be read; its fields
   * are then those of its last records.
   */
  lemma ParsedFields(buffer: bytes)
    requires buffer != [] && buffer[0] != 0
    ensures ParseSphinx(buffer).Ok? <==>
      && RecordBytes(buffer).Ok? && ParseStream(RecordBytes(buffer).value).Ok?
      && var ts := ParseStream(RecordBytes(buffer).value).value; forall i :: 0 <= i < |ts| ==> Readable(ts[i])
    ensures ParseSphinx(buffer).Ok? ==>
      FieldsOf(ParseSphinx(buffer).value, ParseStream(RecordBytes(buffer).value).value)
  {
    hide FieldsOf, Readable, ApplyAll, ParseStream, RecordBytes;
    if RecordBytes(buffer).Ok? && ParseStream(RecordBytes(buffer).value).Ok? {
      RecordsSet(ParseStream(RecordBytes(buffer).value).value);
    }
  }

  // ---------- re-encoding what was read

  predicate Trimmed(value: bytes) {
    value != [] ==> value[0] != 0
  }

  /** Records as the encoder writes them: amount, CLTV and at most a channel id, in their shortest forms. */
  predicate OwnRecords(ts: seq<TLV>) {
    && 2 <= |ts| <= 3
    && ts[0].typ == AMOUNT_TO_FORWARD && Trimmed(ts[0].value)
    && ts[1].typ == OUTGOING_CLTV_VALUE && Trimmed(ts[1].value)
    && (|ts| == 3 ==> ts[2].typ == SHORT_CHANNEL_ID && ts[2].value != [])
  }

  /** A TLV payload as the encoder writes it: no length is changed by the conversion to `int`, and own records only. */
  predicate OwnPayload(buffer: bytes) {
    && BigSize.Parse(buffer).Ok? && BigSize.Parse(buffer).value <= INT_MAX
    && RecordBytes(buffer).Ok?
    && var stream := RecordBytes(buffer).value;
       LengthsFit(stream) && ParseStream(stream).Ok? && OwnRecords(ParseStream(stream).value)
  }

  lemma TrimmedIsKept(value: bytes, k: nat)
    requires |value| <= k && Trimmed(value)
    ensures FromTrimmed(value, k).Ok? && ToTrimmed(FromTrimmed(value, k).value, k) == value
  {
    FromTrimmedValue(value, k);
    TrimmedIsUnique(Value(value), k, value);
  }

  lemma OwnRecordsAreWritten(ts: seq<TLV>, p: HopPayload)
    requires ApplyAll(EMPTY_TLV, ts) == Ok(p) && OwnRecords(ts)
    ensures Records(p) == ts && p.kind.TlvKind?
  {
    hide ToTrimmed, FromTrimmed;
    FromTrimmedValue(ts[0].value, 8);
    FromTrimmedValue(ts[1].value, 4);
    var p1 := Apply(EMPTY_TLV, ts[0]).value;
    var p2 := Apply(p1, ts[1]).value;
    ApplyFirst(EMPTY_TLV, ts[0], ts[1..], p1);
    ApplyFirst(p1, ts[1], ts[2..], p2);
    assert ts == [ts[0]] + ts[1..] && ts[1..] == [ts[1]] + ts[2..];
    if |ts| == 3 {
      ApplyFirst(p2, ts[2], [], p2.(channelId := Some(ts[2].value)));
      assert ts[2..] == [ts[2]] + [];
    }
    TrimmedIsKept(ts[0].value, 8);
    TrimmedIsKept(ts[1].value, 4);
  }

  lemma WrittenRecordsAreOwn(p: HopPayload)
    ensures OwnRecords(Records(p))
  {
  }

  lemma OwnIsReencoded(buffer: bytes, p: HopPayload)
    requires ParseSphinx(buffer) == Ok(p) && buffer[0] != 0 && OwnPayload(buffer)
    ensures ToSphinxBuffer(p).Ok? && ToSphinxBuffer(p).value <= buffer
    ensures SphinxSize(p) == BigSize.Length(BigSize.Parse(buffer).value) + BigSize.Parse(buffer).value
  {
    hide BigSize.Encoding, BigSize.Parse, ParseStream, EncodeAll, ApplyAll, Records, LengthsFit, OwnRecords;
    var length, stream := BigSize.Parse(buffer).value, RecordBytes(buffer).value;
    var ts := ParseStream(stream).value;
    OwnRecordsAreWritten(ts, p);
    ReencodingIsStream(stream);
    BigSize.ParseIsEncoding(buffer, length);
    var start := BigSize.Length(length);
    assert stream == buffer[start..start + length];
    assert ToSphinxBuffer(p).value == BigSize.Encoding(length) + stream;
    assert buffer[..start] == BigSize.Encoding(length);
    assert buffer[..start + length] == buffer[..start] + stream;
  }

  lemma ReencodedIsOwn(buffer: bytes, p: HopPayload)
    requires |buffer| <= INT_MAX && ParseSphinx(buffer) == Ok(p) && p.kind.TlvKind?
    requires ToSphinxBuffer(p).Ok? && ToSphinxBuffer(p).value <= buffer
    ensures OwnPayload(buffer)
  {
    hide BigSize.Encoding, BigSize.Parse, ParseStream, EncodeAll, ApplyAll, Records, LengthsFit, OwnRecords;
    var n, data := Size(p), ToDataBuffer(p).value;
    var prefix, rest := BigSize.Encoding(n), buffer[SphinxSize(p)..];
    assert buffer == prefix + (data + rest);
    BigSize.ParseEncoding(n, data + rest);
    assert buffer[|prefix|..|prefix| + n] == data;
    assert RecordBytes(buffer) == Ok(data);
    ParseStreamEncodeAll(Records(p));
    WrittenRecordsAreOwn(p);
  }

  /**
   * Reading and writing again gives back the bytes that were read exactly for payloads as the encoder writes them;
   * for legacy payloads, exactly when the padding is zero. Where it does, `SphinxSize` is the size that was read.
   */
  lemma ReencodingIsRead(buffer: bytes, p: HopPayload)
    requires |buffer| <= INT_MAX && ParseSphinx(buffer) == Ok(p)
    ensures ToSphinxBuffer(p).Ok?
    ensures ToSphinxBuffer(p).value <= buffer
      <==> if buffer[0] == 0 then buffer[21..33] == Zeros(12) else OwnPayload(buffer)
    ensures buffer[0] != 0 && OwnPayload(buffer) ==>
      SphinxSize(p) == BigSize.Length(BigSize.Parse(buffer).value) + BigSize.Parse(buffer).value
  {
    hide OwnPayload, ParseSphinx, ToSphinxBuffer;
    ReadIsNotEmpty(buffer);
    ParseKeepsKind(buffer);
    if buffer[0] == 0 {
      LegacyIsReencoded(buffer, p);
    } else {
      TlvIsWritten(p);
      if OwnPayload(buffer) {
        OwnIsReencoded(buffer, p);
      }
      if ToSphinxBuffer(p).value <= buffer {
        ReencodedIsOwn(buffer, p);
      }
    }
  }

  lemma ReadIsNotEmpty(buffer: bytes)
    requires ParseSphinx(buffer).Ok?
    ensures buffer != []
  {
  }

  lemma TlvIsWritten(p: HopPayload)
    requires p.kind.TlvKind?
    ensures ToSphinxBuffer(p).Ok?
  {
  }

  lemma LegacyIsReencoded(buffer: bytes, p: HopPayload)
    requires buffer != [] && buffer[0] == 0 && ParseSphinx(buffer) == Ok(p)
    ensures |buffer| >= 33 && ToSphinxBuffer(p).Ok?
    ensures ToSphinxBuffer(p).value <= buffer <==> buffer[21..33] == Zeros(12)
  {
    var data := LegacyBuffer(p).value;
    LegacyBytes(p);
    ToBEValue(buffer[9..17]);
    ToBEValue(buffer[17..21]);
    assert data == buffer[1..21] + Zeros(12);
    assert [0] + data == buffer[..21] + Zeros(12);
    assert buffer[..33] == buffer[..21] + buffer[21..33];
    SameEnds(buffer[..21], Zeros(12), buffer[21..33]);
  }

  lemma LegacyBytes(p: HopPayload)
    requires p.channelId.Some? && |p.channelId.value| == 8
    ensures LegacyBuffer(p)
         == Ok(p.channelId.value + ToBE(p.amountToForward, 8) + ToBE(p.outgoingCltvValue, 4) + Zeros(12))
  {
    hide ToBE;
    var id, amount, cltv := p.channelId.value, ToBE(p.amountToForward, 8), ToBE(p.outgoingCltvValue, 4);
    assert Overwrite(Zeros(32), 0, id) == id + Zeros(24);
    assert Overwrite(id + Zeros(24), 8, amount) == id + amount + Zeros(16);
    assert Overwrite(id + amount + Zeros(16), 16, cltv) == id + amount + cltv + Zeros(12);
  }

  lemma SameEnds(a: bytes, b: bytes, c: bytes)
    requires |b| == |c|
    ensures a + b == a + c <==> b == c
  {
    assert (a + b)[|a|..] == b && (a + c)[|a|..] == c;
  }

  lemma {:induction false} ApplyErrors(p: HopPayload, ts: seq<TLV>)
    ensures ApplyAll(p, ts) != Err(HmacMismatch)
    decreases |ts|
  {
    if ts != [] && Apply(p, ts[0]).Ok? {
      ApplyErrors(Apply(p, ts[0]).value, ts[1..]);
    }
  }

  lemma ParseErrors(buffer: bytes)
    ensures ParseSphinx(buffer) != Err(HmacMismatch)
  {
    hide ParseStream, ApplyAll;
    if buffer != [] && buffer[0] != 0 && RecordBytes(buffer).Ok? {
      var stream := RecordBytes(buffer).value;
      StreamErrors(stream);
      if ParseStream(stream).Ok? {
        ApplyErrors(EMPTY_TLV, ParseStream(stream).value);
      }
    }
  }

  // ---------- the size of what was read

  /** The size of a channel id's record; a missing or empty id is not written. */
  function IdSize(channelId: Option<blob>): nat {
    if channelId.Some? && channelId.value != [] then TLVSize(TLV(SHORT_CHANNEL_ID, channelId.value)) else 0
  }

  /**
   * The size of the records that would be written for those that were read, given what the values before them take:
   * the last of each kind counts, without its leading zeros, and records of other kinds do not.
   */
  function Written(ts: seq<TLV>, amount: nat, cltv: nat, id: nat): nat
    decreases |ts|
  {
    if ts == [] then 4 + amount + cltv + id
    else
      var t := ts[0];
      if t.typ == AMOUNT_TO_FORWARD then Written(ts[1..], |TrimZeros(t.value)|, cltv, id)
      else if t.typ == OUTGOING_CLTV_VALUE then Written(ts[1..], amount, |TrimZeros(t.value)|, id)
      else if t.typ == SHORT_CHANNEL_ID then Written(ts[1..], amount, cltv, if t.value == [] then 0 else TLVSize(t))
      else Written(ts[1..], amount, cltv, id)
  }

  /** The bytes that a payload claims to take up. */
  function ReadSize(buffer: bytes): nat
    requires ParseSphinx(buffer).Ok?
  {
    if buffer[0] == 0 then 33
    else BigSize.Length(BigSize.Parse(buffer).value) + BigSize.Parse(buffer).value
  }

  /** The announced length is what the records would take up when written. */
  predicate KeepsSize(buffer: bytes)
    requires ParseSphinx(buffer).Ok?
  {
    buffer[0] == 0
    || BigSize.Parse(buffer).value == Written(ParseStream(RecordBytes(buffer).value).value, 0, 0, 0)
  }

  lemma SizeParts(p: HopPayload)
    requires p.kind.TlvKind?
    ensures Size(p) == 4 + |ToTrimmed(p.amountToForward, 8)| + |ToTrimmed(p.outgoingCltvValue, 4)| + IdSize(p.channelId)
  {
    hide ToTrimmed;
    TrimmedAmount(p.amountToForward);
    TrimmedCltv(p.outgoingCltvValue);
    RecordsConcat(p);
  }

  lemma TrimmedSize(value: bytes, k: nat)
    requires |value| <= k
    ensures FromTrimmed(value, k).Ok? && ToTrimmed(FromTrimmed(value, k).value, k) == TrimZeros(value)
  {
    hide Value, FromTrimmed, ToTrimmed, TrimZeros;
    var t := TrimZeros(value);
    FromTrimmedValue(value, k);
    FromTrimmedValue(t, k);
    ValueLeadingZeros(|value| - |t|, t);
    TrimmedIsKept(t, k);
  }

  lemma ApplySize(p: HopPayload, t: TLV, ts: seq<TLV>)
    requires Apply(p, t).Ok?
    ensures var q := Apply(p, t).value;
      && q.kind == p.kind
      && Written(ts, |ToTrimmed(q.amountToForward, 8)|, |ToTrimmed(q.outgoingCltvValue, 4)|, IdSize(q.channelId))
      == Written([t] + ts, |ToTrimmed(p.amountToForward, 8)|, |ToTrimmed(p.outgoingCltvValue, 4)|, IdSize(p.channelId))
  {
    hide ToTrimmed, TrimZeros, FromTrimmed;
    FromTrimmedValue(t.value, 8);
    FromTrimmedValue(t.value, 4);
    if t.typ == AMOUNT_TO_FORWARD {
      TrimmedSize(t.value, 8);
    } else if t.typ == OUTGOING_CLTV_VALUE {
      TrimmedSize(t.value, 4);
    }
    assert ([t] + ts)[1..] == ts;
  }

  lemma {:induction false} ApplyAllSize(p: HopPayload, ts: seq<TLV>, q: HopPayload)
    requires p.kind.TlvKind? && ApplyAll(p, ts) == Ok(q)
    ensures q.kind.TlvKind?
    ensures Size(q)
         == Written(ts, |ToTrimmed(p.amountToForward, 8)|, |ToTrimmed(p.outgoingCltvValue, 4)|, IdSize(p.channelId))
    decreases |ts|
  {
    hide Apply, Size, ToTrimmed, IdSize;
    if ts == [] {
      SizeParts(q);
    } else {
      assert [ts[0]] + ts[1..] == ts;
      ApplySize(p, ts[0], ts[1..]);
      ApplyAllSize(Apply(p, ts[0]).value, ts[1..], q);
    }
  }

  /** `SphinxSize`, found by writing a payload again, is the size that was read exactly for these payloads. */
  lemma SizeIsKept(buffer: bytes, p: HopPayload)
    requires ParseSphinx(buffer) == Ok(p)
    ensures SphinxSize(p) == ReadSize(buffer) <==> KeepsSize(buffer)
  {
    hide Size, Written, ApplyAll, ParseStream, RecordBytes, BigSize.Parse, Value, ToTrimmed;
    if buffer[0] != 0 {
      ReadRecordsSize(ParseStream(RecordBytes(buffer).value).value, p);
    }
  }

  lemma ReadRecordsSize(ts: seq<TLV>, p: HopPayload)
    requires ApplyAll(EMPTY_TLV, ts) == Ok(p)
    ensures p.kind.TlvKind? && Size(p) == Written(ts, 0, 0, 0)
  {
    hide Size, Written, ApplyAll, ToTrimmed;
    ApplyAllSize(EMPTY_TLV, ts, p);
    NothingTrimmed(8);
    NothingTrimmed(4);
  }

  /** A payload that is all of a buffer reads the same with more bytes behind it. */
  lemma ReadWithRest(buffer: bytes, rest: bytes)
    requires ParseSphinx(buffer).Ok? && ReadSize(buffer) == |buffer| <= INT_MAX
    ensures ParseSphinx(buffer + rest) == ParseSphinx(buffer)
  {
    hide ParseStream, ApplyAll, BigSize.Parse, BigSize.Encoding, Value;
    var all := buffer + rest;
    if buffer[0] == 0 {
      assert all[1..9] == buffer[1..9] && all[9..17] == buffer[9..17] && all[17..21] == buffer[17..21];
    } else {
      var n := BigSize.Parse(buffer).value;
      BigSize.ParseIsEncoding(buffer, n);
      BigSize.ParseAcceptsExactly(all, n);
      var start := BigSize.Length(n);
      assert all[start..start + n] == buffer[start..start + n];
    }
  }

  /** What the encoder writes is read whole. */
  lemma WrittenIsReadWhole(p: HopPayload, encoded: bytes)
    requires ToSphinxBuffer(p) == Ok(encoded) && |encoded| <= INT_MAX
    ensures ParseSphinx(encoded) == Ok(Carried(p)) && ReadSize(encoded) == |encoded|
  {
    hide ParseSphinx, Carried, BigSize.Parse, BigSize.Encoding;
    SphinxRoundTrip(p, encoded, []);
    assert encoded + [] == encoded;
    if p.kind.TlvKind? {
      var data := ToDataBuffer(p).value;
      BigSize.ParseEncoding(Size(p), data);
    }
  }

  /** A payload of few bytes, from its length on. */
  lemma SmallPayload(stream: bytes, ts: seq<TLV>, p: HopPayload, rest: bytes)
    requires 0 < |stream| < 0xfd && EncodeAll(ts) == stream && ApplyAll(EMPTY_TLV, ts) == Ok(p)
    ensures var buffer := [|stream| as byte] + stream + rest;
      && ParseSphinx(buffer) == Ok(p) && ReadSize(buffer) == 1 + |stream|
      && (OwnPayload(buffer) <==> OwnRecords(ts))
  {
    hide ParseStream, ApplyAll, EncodeAll, OwnRecords, LengthsFit;
    var buffer := [|stream| as byte] + stream + rest;
    ParseStreamEncodeAll(ts);
    assert buffer[1..1 + |stream|] == stream;
  }

  /** Own records in another order are not what is written again, and keep their size. */
  lemma SwappedRecordsKeepSize(rest: bytes)
    ensures var buffer := [4, 4, 0, 2, 0] + rest;
      ParseSphinx(buffer) == Ok(EMPTY_TLV) && !OwnPayload(buffer) && KeepsSize(buffer)
  {
    hide ParseSphinx, OwnPayload, KeepsSize, ReadSize, SphinxSize, EncodeAll, ApplyAll, ParseStream, Written;
    var ts := [TLV(4, []), TLV(2, [])];
    SwappedRecords(ts);
    SmallPayload([4, 0, 2, 0], ts, EMPTY_TLV, rest);
    assert [4] + [4, 0, 2, 0] == [4, 4, 0, 2, 0];
    EmptySize();
    SizeIsKept([4, 4, 0, 2, 0] + rest, EMPTY_TLV);
  }

  lemma SwappedRecords(ts: seq<TLV>)
    requires ts == [TLV(4, []), TLV(2, [])]
    ensures EncodeAll(ts) == [4, 0, 2, 0] && ApplyAll(EMPTY_TLV, ts) == Ok(EMPTY_TLV)
  {
    SmallRecord(ts[0]);
    SmallRecord(ts[1]);
    assert EncodeAll(ts[1..]) == Encode(ts[1]) + [];
    FromTrimmedValue([], 8);
    FromTrimmedValue([], 4);
    assert ts == [ts[0]] + [ts[1]] && [ts[1]] == [ts[1]] + [];
    ApplyFirst(EMPTY_TLV, ts[0], [ts[1]], EMPTY_TLV);
    ApplyFirst(EMPTY_TLV, ts[1], [], EMPTY_TLV);
  }

  /** A payload without a CLTV: three bytes, and five when it is written again. */
  lemma MissingRecordIsRead(rest: bytes)
    ensures var buffer := [2, 2, 0] + rest;
      ParseSphinx(buffer) == Ok(EMPTY_TLV) && !KeepsSize(buffer)
  {
    hide ParseSphinx, OwnPayload, KeepsSize, ReadSize, SphinxSize, EncodeAll, ApplyAll, ParseStream, Written;
    var t := TLV(2, []);
    OneRecord(t);
    SmallPayload([2, 0], [t], EMPTY_TLV, rest);
    assert [2] + [2, 0] == [2, 2, 0];
    EmptySize();
    SizeIsKept([2, 2, 0] + rest, EMPTY_TLV);
  }

  lemma OneRecord(t: TLV)
    requires t == TLV(2, [])
    ensures EncodeAll([t]) == [2, 0] && ApplyAll(EMPTY_TLV, [t]) == Ok(EMPTY_TLV)
  {
    SmallRecord(t);
    assert [t][1..] == [] && EncodeAll([t]) == Encode(t) + [];
    FromTrimmedValue([], 8);
    ApplyFirst(EMPTY_TLV, t, [], EMPTY_TLV);
    assert [t] + [] == [t];
  }

  /** The announced length 2^32 is read as 0: a payload without records, of which five bytes would be written. */
  lemma TruncatedPayloadIsAccepted(rest: bytes)
    ensures var buffer := [0xff, 0, 0, 0, 1, 0, 0, 0, 0] + rest;
      && ParseSphinx(buffer) == Ok(EMPTY_TLV)
      && BigSize.Parse(buffer) == Ok(0x1_0000_0000)
      && !OwnPayload(buffer) && !KeepsSize(buffer)
      && SphinxSize(EMPTY_TLV) == 5
  {
    hide BigSize.Encoding, Value, ToTrimmed, OwnRecords;
    var buffer := [0xff, 0, 0, 0, 1, 0, 0, 0, 0] + rest;
    LargeLength();
    BigSize.ParseIsEncoding(LARGE_LENGTH, 0x1_0000_0000);
    BigSize.ParseAcceptsExactly(buffer, 0x1_0000_0000);
    EmptySize();
    SizeIsKept(buffer, EMPTY_TLV);
  }

  const LARGE_LENGTH: bytes := [0xff, 0, 0, 0, 1, 0, 0, 0, 0]

  lemma LargeLength()
    ensures BigSize.Parse(LARGE_LENGTH) == Ok(0x1_0000_0000)
  {
    BigSize.EightByteVectors();
    BigSize.ParseEncoding(0x1_0000_0000, []);
    assert LARGE_LENGTH + [] == LARGE_LENGTH;
  }

  lemma EmptySize()
    ensures ToDataBuffer(EMPTY_TLV) == Ok([2, 0, 4, 0]) && SphinxSize(EMPTY_TLV) == 5
  {
    hide Encode, EncodeAll, Records;
    EmptyRecords();
    RecordsConcat(EMPTY_TLV);
    SmallRecord(TLV(2, []));
    SmallRecord(TLV(4, []));
    var data := ToDataBuffer(EMPTY_TLV).value;
    assert data == [2, 0] + [] + ([4, 0] + []) + [];
    assert data == [2, 0, 4, 0];
  }

  lemma EmptyRecords()
    ensures Records(EMPTY_TLV) == [TLV(2, []), TLV(4, [])]
  {
    NothingTrimmed(8);
    NothingTrimmed(4);
  }

  lemma NothingTrimmed(k: nat)
    ensures ToTrimmed(0, k) == []
  {
    TrimmedIsUnique(0, k, []);
  }

  /** A payload with a record of type 16, in eight bytes. */
  function ExtraRecord(): bytes {
    [7, 2, 0, 4, 0, 16, 1, 1]
  }

  lemma ExtraRecordSize()
    ensures |ExtraRecord()| == 8 && ExtraRecord()[5..] == [16, 1, 1]
    ensures SphinxSize(EMPTY_TLV.(paymentMetadata := Some([1]))) == 5
  {
    hide ToTrimmed, Size, Records;
    NothingTrimmed(8);
    NothingTrimmed(4);
    SizeParts(EMPTY_TLV.(paymentMetadata := Some([1])));
  }

  /** The record is read, and dropped when the payload is written again: five bytes instead of eight. */
  lemma ExtraRecordIsRead(rest: bytes)
    ensures var buffer := ExtraRecord() + rest;
      && ParseSphinx(buffer) == Ok(EMPTY_TLV.(paymentMetadata := Some([1])))
      && !OwnPayload(buffer) && !KeepsSize(buffer)
  {
    hide ParseSphinx, OwnPayload, KeepsSize, ReadSize, SphinxSize, EncodeAll, ApplyAll, ParseStream, Written;
    var stream: bytes := [2, 0, 4, 0, 16, 1, 1];
    var ts, p := [TLV(2, []), TLV(4, []), TLV(16, [1])], EMPTY_TLV.(paymentMetadata := Some([1]));
    ExtraRecordEncoded(ts);
    ExtraRecordApplied();
    SmallPayload(stream, ts, p, rest);
    assert [7] + stream == ExtraRecord();
    ExtraRecordSize();
    SizeIsKept(ExtraRecord() + rest, p);
  }

  lemma ExtraRecordEncoded(ts: seq<TLV>)
    requires ts == [TLV(2, []), TLV(4, []), TLV(16, [1])]
    ensures EncodeAll(ts) == [2, 0, 4, 0, 16, 1, 1]
  {
    SmallRecord(ts[0]);
    SmallRecord(ts[1]);
    SmallRecord(ts[2]);
    assert EncodeAll(ts[2..]) == Encode(ts[2]) + [];
    assert EncodeAll(ts[1..]) == Encode(ts[1]) + EncodeAll(ts[2..]);
  }

  lemma ExtraRecordApplied()
    ensures ApplyAll(EMPTY_TLV, [TLV(2, []), TLV(4, []), TLV(16, [1])]) == Ok(EMPTY_TLV.(paymentMetadata := Some([1])))
  {
    FromTrimmedValue([], 8);
    FromTrimmedValue([], 4);
    var q := EMPTY_TLV.(paymentMetadata := Some([1]));
    ApplyFirst(EMPTY_TLV, TLV(2, []), [TLV(4, []), TLV(16, [1])], EMPTY_TLV);
    ApplyFirst(EMPTY_TLV, TLV(4, []), [TLV(16, [1])], EMPTY_TLV);
    ApplyFirst(EMPTY_TLV, TLV(16, [1]), [], q);
    assert [TLV(2, [])] + [TLV(4, []), TLV(16, [1])] == [TLV(2, []), TLV(4, []), TLV(16, [1])];
    assert [TLV(4, [])] + [TLV(16, [1])] == [TLV(4, []), TLV(16, [1])];
    assert [TLV(16, [1])] + [] == [TLV(16, [1])];
  }

  // ---------- reading back a buffer without its length prefix

  /** The one legacy payload whose data buffer is all zero. */
  const ZERO_LEGACY := HopPayload(Legacy, Some(Zeros(8)), 0, 0, None, None, [])

  /** The two bytes after the first of a TLV data buffer: never a record of their own. */
  lemma TlvDataBufferStart(p: HopPayload)
    requires p.kind.TlvKind?
    ensures var data := ToDataBuffer(p).value;
      |data| >= 3 && data[0] == AMOUNT_TO_FORWARD && data[1] <= 8 && data[2] > 0
  {
    Pow256Widths();
    TrimmedRoundTrip(p.amountToForward, 8);
    var rs := Records(p);
    var tail := EncodeAll(rs[1..]);
    assert tail == Encode(rs[1]) + EncodeAll(rs[1..][1..]);
    TrimmedRecordStart(rs[0], tail);
  }

  lemma TrimmedRecordStart(t: TLV, tail: bytes)
    requires t.typ == AMOUNT_TO_FORWARD && |t.value| <= 8 && (t.value != [] ==> t.value[0] != 0)
    requires tail != [] && tail[0] == OUTGOING_CLTV_VALUE
    ensures var data := Encode(t) + tail;
      |data| >= 3 && data[0] == AMOUNT_TO_FORWARD && data[1] <= 8 && data[2] > 0
  {
    SmallRecord(t);
  }

  lemma SmallRecord(t: TLV)
    requires t.typ < 0xfd && |t.value| < 0xfd
    ensures Encode(t) == [t.typ, |t.value|] + t.value
  {
  }

  lemma TwoBytesAreNoRecord(stream: bytes)
    requires |stream| == 2 && stream[0] < 0xfd && stream[1] > 0
    ensures ParseStream(stream).Err?
  {
    assert stream[1..] == [stream[1]];
  }

  /** A TLV data buffer read as a Sphinx buffer announces two bytes, which are never a record. */
  lemma TlvDataBufferIsRefused(p: HopPayload, rest: bytes)
    requires p.kind.TlvKind?
    ensures ParseSphinx(ToDataBuffer(p).value + rest).Err?
  {
    TlvDataBufferStart(p);
    var buffer := ToDataBuffer(p).value + rest;
    assert RecordBytes(buffer) == Ok(buffer[1..3]);
    TwoBytesAreNoRecord(buffer[1..3]);
  }

  /** Without its prefix a payload reads back as itself only when it is the all-zero legacy one. */
  lemma DataBufferReadBack(p: HopPayload, rest: bytes)
    requires ToDataBuffer(p).Ok?
    ensures ParseSphinx(ToDataBuffer(p).value + rest) == Ok(p) <==> p == ZERO_LEGACY && rest != []
  {
    var buffer := ToDataBuffer(p).value + rest;
    if p.kind.TlvKind? {
      TlvDataBufferIsRefused(p, rest);
    } else if buffer[0] != 0 {
      ParseKeepsKind(buffer);
      ZeroLegacyBuffer();
    } else if p == ZERO_LEGACY && rest != [] {
      ZeroLegacyReadBack(buffer);
    } else if rest != [] && ParseLegacy(buffer) == p {
      ShiftedByOne(p, buffer);
    }
  }

  lemma ZeroLegacyReadBack(buffer: bytes)
    requires |buffer| >= 33 && buffer[..32] == ToDataBuffer(ZERO_LEGACY).value
    ensures ParseSphinx(buffer) == Ok(ZERO_LEGACY)
  {
    ZeroLegacyBuffer();
    assert forall i :: 0 <= i < 32 ==> buffer[i] == buffer[..32][i] == 0;
    assert buffer[1..9] == Zeros(8);
    ValueOfZeros(buffer[9..17]);
    ValueOfZeros(buffer[17..21]);
  }

  lemma ZeroLegacyBuffer()
    ensures ToDataBuffer(ZERO_LEGACY) == Ok(Zeros(32))
  {
    ValueOfZeros(Zeros(8));
    ValueOfZeros(Zeros(4));
    ToBEValue(Zeros(8));
    ToBEValue(Zeros(4));
    assert LegacyBuffer(ZERO_LEGACY).value == Zeros(32);
  }

  /** A legacy buffer that equals itself shifted by one byte is zero up to the end of its last field. */
  lemma ShiftedByOne(p: HopPayload, buffer: bytes)
    requires p.kind.Legacy? && LegacyBuffer(p).Ok?
    requires |buffer| >= 33 && buffer[..32] == LegacyBuffer(p).value && buffer[0] == 0
    requires ParseLegacy(buffer) == p
    ensures p == ZERO_LEGACY
  {
    hide ToBE, Value;
    LegacyParts(p);
    ToBEValue(buffer[9..17]);
    ToBEValue(buffer[17..21]);
    assert buffer[..8] == buffer[..32][..8];
    assert buffer[8..16] == buffer[..32][8..16];
    assert buffer[16..20] == buffer[..32][16..20];
    SelfShifted(buffer);
    ValueOfZeros(buffer[9..17]);
    ValueOfZeros(buffer[17..21]);
    assert buffer[1..9] == Zeros(8);
  }

  lemma SelfShifted(s: bytes)
    requires |s| >= 21 && s[0] == 0
    requires s[..8] == s[1..9] && s[8..16] == s[9..17] && s[16..20] == s[17..21]
    ensures forall i :: 0 <= i <= 20 ==> s[i] == 0
  {
    assert s[..20] == s[..8] + s[8..16] + s[16..20];
    assert s[1..21] == s[1..9] + s[9..17] + s[17..21];
    assert forall i :: 0 <= i < 20 ==> s[..20][i] == s[1..21][i];
    NextByteSame(s, 20);
  }

  lemma {:induction false} NextByteSame(s: bytes, n: nat)
    requires n < |s| && s[0] == 0
    requires forall i :: 0 <= i < n ==> s[i + 1] == s[i]
    ensures forall i :: 0 <= i <= n ==> s[i] == 0
  {
    if n > 0 {
      NextByteSame(s, n - 1);
      assert s[n - 1 + 1] == s[n - 1];
    }
  }

  lemma {:induction false} ApplyAllKeepsKind(p: HopPayload, ts: seq<TLV>)
    ensures ApplyAll(p, ts).Ok? ==> ApplyAll(p, ts).value.kind == p.kind
    decreases |ts|
  {
    if ts != [] && Apply(p, ts[0]).Ok? {
      ApplyAllKeepsKind(Apply(p, ts[0]).value, ts[1..]);
    }
  }

  lemma ParseKeepsKind(buffer: bytes)
    requires buffer != []
    ensures ParseSphinx(buffer).Ok? ==> (ParseSphinx(buffer).value.kind.Legacy? <==> buffer[0] == 0)
  {
    if buffer[0] != 0 && RecordBytes(buffer).Ok? && ParseStream(RecordBytes(buffer).value).Ok? {
      ApplyAllKeepsKind(EMPTY_TLV, ParseStream(RecordBytes(buffer).value).value);
    }
  }

  // ---------- the loops and in-place updates of the original

  lemma RecordsConcat(p: HopPayload)
    ensures EncodeAll(Records(p)) == Encode(Records(p)[0]) + Encode(Records(p)[1]) +
      if p.channelId.Some? && |p.channelId.value| > 0 then Encode(TLV(SHORT_CHANNEL_ID, p.channelId.value)) else []
  {
    hide Encode, ToTrimmed;
    var rs, ch := Records(p), ChannelRecord(p.channelId);
    assert rs[1..][1..] == ch;
    assert EncodeAll(rs) == Encode(rs[0]) + (Encode(rs[1]) + EncodeAll(ch));
    if p.channelId.Some? && |p.channelId.value| > 0 {
      assert ch[1..] == [] && EncodeAll(ch) == Encode(ch[0]) + [];
    }
  }

  /** The TLV branch of `ToDataBuffer`: concatenated records. */
  method ConcatRecords(p: HopPayload) returns (r: bytes)
    ensures r == EncodeAll(Records(p))
  {
    hide Encode, EncodeAll, ToTrimmed;
    var rs := Records(p);
    var channelIdTlvBuffer: bytes := [];
    if p.channelId.Some? && |p.channelId.value| > 0 {
      var channelIdTlv := Encode(TLV(SHORT_CHANNEL_ID, p.channelId.value));
      channelIdTlvBuffer := channelIdTlvBuffer + channelIdTlv;
      assert channelIdTlvBuffer == channelIdTlv;
    }
    RecordsConcat(p);
    r := Encode(rs[0]) + Encode(rs[1]) + channelIdTlvBuffer;
  }

  /** The legacy branch of `ToDataBuffer`: a 32-byte buffer filled field by field. */
  method FillLegacyBuffer(p: HopPayload) returns (r: Result<bytes>)
    ensures r == LegacyBuffer(p)
  {
    hide ToBE;
    var buffer := new byte[32](_ => 0);
    if p.channelId.Some? && |p.channelId.value| > 0 {
      if |p.channelId.value| > buffer.Length {
        return Err(ArgumentTooLong);
      }
      CopyTo(p.channelId.value, buffer, 0);
    }
    CopyTo(ToBE(p.amountToForward, 8), buffer, 8);
    CopyTo(ToBE(p.outgoingCltvValue, 4), buffer, 16);
    r := Ok(buffer[..]);
    assert buffer[..] == LegacyBuffer(p).value;
  }

  method WriteDataBuffer(p: HopPayload) returns (r: Result<bytes>)
    ensures r == ToDataBuffer(p)
  {
    if p.kind != Legacy {
      var records := ConcatRecords(p);
      return Ok(records);
    }
    r := FillLegacyBuffer(p);
  }

  ghost function Prepend(ts: seq<TLV>, r: Result<seq<TLV>>): Result<seq<TLV>> {
    if r.Ok? then Ok(ts + r.value) else r
  }

  /** The record loop of `ParseSphinx`. */
  method CollectRecords(stream: bytes) returns (r: Result<seq<TLV>>)
    ensures r == ParseStream(stream)
  {
    var remainingStream := stream;
    var tlvs: seq<TLV> := [];
    assert ParseStream(stream).Ok? ==> [] + ParseStream(stream).value == ParseStream(stream).value;
    while |remainingStream| > 0
      invariant ParseStream(stream) == Prepend(tlvs, ParseStream(remainingStream))
    {
      var currentTlv :- Parse(remainingStream);
      ParseShape(remainingStream, currentTlv);
      ghost var rest := ParseStream(remainingStream[TLVSize(currentTlv)..]);
      assert rest.Ok? ==> tlvs + ([currentTlv] + rest.value) == tlvs + [currentTlv] + rest.value;
      remainingStream := remainingStream[TLVSize(currentTlv)..];
      tlvs := tlvs + [currentTlv];
    }
    assert tlvs + [] == tlvs;
    return Ok(tlvs);
  }

  /** `ParseSphinx`: one field per record is set on a payload that starts out empty. */
  method ReadSphinx(buffer: bytes) returns (r: Result<HopPayload>)
    ensures r == ParseSphinx(buffer)
  {
    if buffer == [] {
      return Err(OutOfRange);
    }
    if buffer[0] == 0 {
      if |buffer| < 33 {
        return Err(OutOfRange);
      }
      return Ok(ParseLegacy(buffer));
    }
    var stream :- RecordBytes(buffer);
    var tlvs :- CollectRecords(stream);
    var hopPayload := EMPTY_TLV;
    for i := 0 to |tlvs|
      invariant ApplyAll(EMPTY_TLV, tlvs) == ApplyAll(hopPayload, tlvs[i..])
    {
      assert tlvs[i..][1..] == tlvs[i + 1..];
      hopPayload :- Apply(hopPayload, tlvs[i]);
    }
    return Ok(hopPayload);
  }
}
