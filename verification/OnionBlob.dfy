/** LNBolt/BOLT4/OnionBlob.cs: construction and peeling of BOLT 4 onion packets. */
module Onion {
  import opened Wrappers
  import opened Bytes
  import opened BigEndian
  import BitStrings
  import opened CryptoTools
  import opened HopPayloads

  const ONION_PACKET_LENGTH := 1300
  const HMAC_LENGTH := 32

  /** What one round of the construction works on: the bytes written in front, and the size of the shift. */
  datatype RawHop = Hop(secret: bytes, header: bytes, size: nat)
  type Hop = h: RawHop | |h.header| + HMAC_LENGTH <= h.size witness Hop([], [], 32)

  /** The state of an `OnionBlob`. */
  datatype Packet = Packet(version: byte, ephemeralPublicKey: bytes, hopPayloads: bytes, nextHmac: bytes)

  /** The bytes of the first `k` hops. */
  function Total(hops: seq<Hop>, k: nat): nat
    requires k <= |hops|
  {
    if k == 0 then 0 else Total(hops, k - 1) + hops[k - 1].size
  }

  lemma {:induction false} TotalGrows(hops: seq<Hop>, j: nat, k: nat)
    requires j < k <= |hops|
    ensures Total(hops, j) + hops[j].size <= Total(hops, k)
  {
    if j < k - 1 {
      TotalGrows(hops, j, k - 1);
    }
  }

  // ---------- filler

  /** Rounds of the filler that stay within their key streams: they reach back and forward a packet's length at most. */
  predicate FillerReads(hops: seq<Hop>, k: nat)
    requires k <= |hops|
  {
    k == 0
    || (FillerReads(hops, k - 1) && Total(hops, k - 1) <= ONION_PACKET_LENGTH && hops[k - 1].size <= ONION_PACKET_LENGTH)
  }

  lemma {:induction false} FillerReadsUpTo(hops: seq<Hop>, k: nat, n: nat)
    requires k <= n <= |hops| && FillerReads(hops, n)
    ensures FillerReads(hops, k)
  {
    if k < n {
      FillerReadsUpTo(hops, k, n - 1);
    }
  }

  lemma {:induction false} FillerReadsWithin(hops: seq<Hop>, k: nat)
    requires k <= |hops| && Total(hops, k) <= ONION_PACKET_LENGTH
    ensures FillerReads(hops, k)
  {
    if k > 0 {
      FillerReadsWithin(hops, k - 1);
    }
  }

  /** The filler after `k` rounds: every round adds a hop's worth of zeros and applies the end of its key stream. */
  function FillerAfter(c: Crypto, hops: seq<Hop>, k: nat): (f: bytes)
    requires k <= |hops| && FillerReads(hops, k)
    ensures |f| == Total(hops, k)
  {
    if k == 0 then []
    else
      var before := FillerAfter(c, hops, k - 1) + Zeros(hops[k - 1].size);
      var stream := CipherStream(c, hops[k - 1].secret, 2 * ONION_PACKET_LENGTH);
      XorSeq(before, stream[ONION_PACKET_LENGTH - Total(hops, k - 1)..])
  }

  /** One byte of the filler, before and after a round. */
  lemma FillerByte(c: Crypto, hops: seq<Hop>, k: nat, j: nat)
    requires k < |hops| && FillerReads(hops, k + 1) && j < Total(hops, k + 1)
    ensures FillerAfter(c, hops, k + 1)[j] ==
      Xor(if j < Total(hops, k) then FillerAfter(c, hops, k)[j] else 0,
          KeyByte(c, hops[k].secret, ONION_PACKET_LENGTH - Total(hops, k) + j))
  {
  }

  // ---------- construction

  /** The filler is generated and fits, and every header fits. */
  predicate Placeable(hops: seq<Hop>, unused: nat) {
    && (hops != [] ==> FillerReads(hops, |hops| - 1) && Total(hops, |hops| - 1) + unused <= ONION_PACKET_LENGTH)
    && forall h :: h in hops ==> |h.header| + HMAC_LENGTH <= ONION_PACKET_LENGTH
  }

  /** The routes for which the construction does not throw. */
  predicate Constructible(hops: seq<Hop>) {
    hops != [] && Placeable(hops, 0)
  }

  /** The routes that fit into a packet, as BOLT 4 requires. */
  predicate Fits(hops: seq<Hop>) {
    hops != [] && Total(hops, |hops|) <= ONION_PACKET_LENGTH
  }

  lemma FitsIsConstructible(hops: seq<Hop>)
    requires Fits(hops)
    ensures Constructible(hops)
  {
    TotalGrows(hops, |hops| - 1, |hops|);
    FillerReadsWithin(hops, |hops| - 1);
    forall h | h in hops
      ensures |h.header| + HMAC_LENGTH <= ONION_PACKET_LENGTH
    {
      var i :| 0 <= i < |hops| && hops[i] == h;
      TotalGrows(hops, i, |hops|);
    }
  }

  function AssociatedBytes(associatedData: Option<bytes>): bytes {
    if associatedData.Some? then associatedData.value else []
  }

  /** Shift right, write the header and the HMAC in front, apply the key stream. */
  function Layer(c: Crypto, hop: Hop, inner: bytes, hmac: Digest): (p: bytes)
    requires |inner| == ONION_PACKET_LENGTH
    requires |hop.header| + HMAC_LENGTH <= ONION_PACKET_LENGTH
    ensures |p| == ONION_PACKET_LENGTH
  {
    XorSeq(Overwrite(Shifted(inner, hop.size), 0, hop.header + hmac), CipherStream(c, hop.secret, ONION_PACKET_LENGTH))
  }

  /** The filler of a route, with room for payloads behind the last hop that have no secret. */
  function Filler(c: Crypto, hops: seq<Hop>, unused: nat): bytes
    requires hops != [] ==> FillerReads(hops, |hops| - 1)
  {
    (if hops == [] then [] else FillerAfter(c, hops, |hops| - 1)) + Zeros(unused)
  }

  datatype Wrap = Wrap(packet: bytes, hmac: Digest)

  /** The packet and its HMAC once hops `k` and later have been wrapped, the last one over a given filler. */
  function WrappedOver(c: Crypto, hops: seq<Hop>, unused: nat, associatedData: Option<bytes>, k: nat): (w: Wrap)
    requires Placeable(hops, unused) && k <= |hops|
    ensures |w.packet| == ONION_PACKET_LENGTH
    decreases |hops| - k
  {
    if k == |hops| then Wrap(Zeros(ONION_PACKET_LENGTH), Zeros(HMAC_LENGTH))
    else
      var inner := WrappedOver(c, hops, unused, associatedData, k + 1);
      var body := Layer(c, hops[k], inner.packet, inner.hmac);
      var filler := Filler(c, hops, unused);
      var packet := if k == |hops| - 1 then Overwrite(body, |body| - |filler|, filler) else body;
      Wrap(packet, (c.hmac)(MuKey(c, hops[k].secret), packet + AssociatedBytes(associatedData)))
  }

  /** The packet and its HMAC once hops `k` and later have been wrapped. */
  function Wrapped(c: Crypto, hops: seq<Hop>, associatedData: Option<bytes>, k: nat): (w: Wrap)
    requires Constructible(hops) && k <= |hops|
    ensures |w.packet| == ONION_PACKET_LENGTH
  {
    WrappedOver(c, hops, 0, associatedData, k)
  }

  /** One round of the construction. */
  lemma WrappedRound(c: Crypto, hops: seq<Hop>, associatedData: Option<bytes>, k: nat)
    requires Constructible(hops) && k < |hops|
    ensures
      var inner := Wrapped(c, hops, associatedData, k + 1);
      var body := Layer(c, hops[k], inner.packet, inner.hmac);
      var filler := FillerAfter(c, hops, |hops| - 1);
      var packet := if k == |hops| - 1 then Overwrite(body, |body| - |filler|, filler) else body;
      Wrapped(c, hops, associatedData, k)
      == Wrap(packet, (c.hmac)(MuKey(c, hops[k].secret), packet + AssociatedBytes(associatedData)))
  {
    hide Layer, FillerAfter, FillerReads, Total;
    assert Filler(c, hops, 0) == FillerAfter(c, hops, |hops| - 1);
  }

  function ConstructedOver(
    c: Crypto, hops: seq<Hop>, unused: nat, firstHopPublicKey: bytes, associatedData: Option<bytes>): Packet
    requires Placeable(hops, unused)
  {
    var outer := WrappedOver(c, hops, unused, associatedData, 0);
    Packet(0, firstHopPublicKey, outer.packet, outer.hmac)
  }

  function Constructed(c: Crypto, hops: seq<Hop>, firstHopPublicKey: bytes, associatedData: Option<bytes>): Packet
    requires Constructible(hops)
  {
    ConstructedOver(c, hops, 0, firstHopPublicKey, associatedData)
  }

  /** One byte of hop `k`'s plaintext layer. */
  function PlainByte(hop: Hop, inner: Wrap, i: nat): byte
    requires i < |inner.packet|
  {
    if i < |hop.header| then hop.header[i]
    else if i < |hop.header| + HMAC_LENGTH then inner.hmac[i - |hop.header|]
    else if i < hop.size then inner.packet[i]
    else inner.packet[i - hop.size]
  }

  lemma LayerByte(c: Crypto, hop: Hop, inner: Wrap, i: nat)
    requires |inner.packet| == ONION_PACKET_LENGTH && |hop.header| + HMAC_LENGTH <= ONION_PACKET_LENGTH
    requires i < ONION_PACKET_LENGTH
    ensures Layer(c, hop, inner.packet, inner.hmac)[i] == Xor(PlainByte(hop, inner, i), KeyByte(c, hop.secret, i))
  {
    hide Xor;
  }

  /** Wrapping encrypts the plaintext layer, except where the last round writes the filler. */
  lemma WrappedByte(c: Crypto, hops: seq<Hop>, associatedData: Option<bytes>, k: nat, i: nat)
    requires Constructible(hops) && k < |hops| && i < ONION_PACKET_LENGTH
    requires k == |hops| - 1 ==> i < ONION_PACKET_LENGTH - Total(hops, k)
    ensures Wrapped(c, hops, associatedData, k).packet[i]
      == Xor(PlainByte(hops[k], Wrapped(c, hops, associatedData, k + 1), i), KeyByte(c, hops[k].secret, i))
  {
    hide Wrapped, FillerAfter, FillerReads, Total, Layer, PlainByte;
    WrappedRound(c, hops, associatedData, k);
    LayerByte(c, hops[k], Wrapped(c, hops, associatedData, k + 1), i);
  }

  /** Bit by bit, a wrapped byte is the sum modulo 2 of its plaintext and of the key stream under the hop's rho key. */
  lemma WrappedBit(c: Crypto, hops: seq<Hop>, associatedData: Option<bytes>, k: nat, i: nat, bit: nat)
    requires Constructible(hops) && k < |hops| && i < ONION_PACKET_LENGTH && bit < 8
    requires k == |hops| - 1 ==> i < ONION_PACKET_LENGTH - Total(hops, k)
    ensures var plain := PlainByte(hops[k], Wrapped(c, hops, associatedData, k + 1), i);
      var stream := (c.keyStream)((c.hmac)([0x72, 0x68, 0x6f], hops[k].secret), i);
      Wrapped(c, hops, associatedData, k).packet[i] / Pow2(bit) % 2 == (plain / Pow2(bit) + stream / Pow2(bit)) % 2
  {
    hide Wrapped, PlainByte, Xor, Pow2;
    WrappedByte(c, hops, associatedData, k, i);
    BitStrings.XorBit(
      PlainByte(hops[k], Wrapped(c, hops, associatedData, k + 1), i), KeyByte(c, hops[k].secret, i), bit);
  }

  /** The same of the filler: old filler or zero, and the key stream from the end of the packet on. */
  lemma FillerBit(c: Crypto, hops: seq<Hop>, k: nat, j: nat, bit: nat)
    requires k < |hops| && FillerReads(hops, k + 1) && j < Total(hops, k + 1) && bit < 8
    ensures var before: byte := if j < Total(hops, k) then FillerAfter(c, hops, k)[j] else 0;
      var stream := (c.keyStream)((c.hmac)([0x72, 0x68, 0x6f], hops[k].secret), ONION_PACKET_LENGTH - Total(hops, k) + j);
      FillerAfter(c, hops, k + 1)[j] / Pow2(bit) % 2 == (before / Pow2(bit) + stream / Pow2(bit)) % 2
  {
    hide FillerAfter, Xor, Pow2;
    FillerByte(c, hops, k, j);
    BitStrings.XorBit(if j < Total(hops, k) then FillerAfter(c, hops, k)[j] else 0,
                      KeyByte(c, hops[k].secret, ONION_PACKET_LENGTH - Total(hops, k) + j), bit);
  }

  /** Every layer's HMAC is that of its packet and the associated data, if any, under the hop's mu key. */
  lemma WrappedMac(c: Crypto, hops: seq<Hop>, associatedData: Option<bytes>, k: nat)
    requires Constructible(hops) && k < |hops|
    ensures var w := Wrapped(c, hops, associatedData, k);
      w.hmac == (c.hmac)((c.hmac)([0x6d, 0x75], hops[k].secret),
                         w.packet + match associatedData case None => [] case Some(data) => data)
  {
    hide Wrapped, Layer, FillerAfter, FillerReads, Total;
    WrappedRound(c, hops, associatedData, k);
  }

  /** The last hop is wrapped first, and its packet ends in the whole filler. */
  lemma LastPacketEndsInFiller(c: Crypto, hops: seq<Hop>, associatedData: Option<bytes>, i: nat)
    requires Constructible(hops)
    requires ONION_PACKET_LENGTH - Total(hops, |hops| - 1) <= i < ONION_PACKET_LENGTH
    ensures Wrapped(c, hops, associatedData, |hops| - 1).packet[i]
      == FillerAfter(c, hops, |hops| - 1)[i - (ONION_PACKET_LENGTH - Total(hops, |hops| - 1))]
  {
    hide FillerAfter, Layer, FillerReads, Wrapped;
    var last := |hops| - 1;
    WrappedRound(c, hops, associatedData, last);
    var inner, filler := Wrapped(c, hops, associatedData, last + 1), FillerAfter(c, hops, last);
    var body := Layer(c, hops[last], inner.packet, inner.hmac);
    assert Wrapped(c, hops, associatedData, last).packet[i] == Overwrite(body, |body| - |filler|, filler)[i] by {
      assert Wrapped(c, hops, associatedData, last).packet == Overwrite(body, |body| - |filler|, filler);
    }
  }

  /** A byte that both loops have encrypted under the same key stream byte. */
  lemma FillerStep(c: Crypto, hops: seq<Hop>, associatedData: Option<bytes>, k: nat, i: nat, j: nat)
    requires Constructible(hops) && k < |hops| - 1 && FillerReads(hops, k + 1)
    requires j < Total(hops, k) && Total(hops, k + 1) <= ONION_PACKET_LENGTH
    requires i == ONION_PACKET_LENGTH - Total(hops, k) + j
    requires Wrapped(c, hops, associatedData, k + 1).packet[i - hops[k].size] == FillerAfter(c, hops, k + 1)[j]
    ensures Wrapped(c, hops, associatedData, k).packet[i] == FillerAfter(c, hops, k)[j]
  {
    WrappedByte(c, hops, associatedData, k, i);
    FillerByte(c, hops, k, j);
    XorTwice(FillerAfter(c, hops, k)[j], KeyByte(c, hops[k].secret, i));
  }

  lemma {:induction false} FillerTailByte(c: Crypto, hops: seq<Hop>, associatedData: Option<bytes>, k: nat, i: nat, j: nat)
    requires Constructible(hops) && k < |hops| && FillerReads(hops, k)
    requires j < Total(hops, k) <= Total(hops, |hops| - 1)
    requires i == ONION_PACKET_LENGTH - Total(hops, k) + j
    ensures Wrapped(c, hops, associatedData, k).packet[i] == FillerAfter(c, hops, k)[j]
    decreases |hops| - k
  {
    hide Wrapped, FillerAfter;
    if k == |hops| - 1 {
      LastPacketEndsInFiller(c, hops, associatedData, i);
    } else {
      TotalUpTo(hops, k + 1);
      FillerTailByte(c, hops, associatedData, k + 1, i - hops[k].size, j);
      FillerStep(c, hops, associatedData, k, i, j);
    }
  }

  lemma TotalUpTo(hops: seq<Hop>, k: nat)
    requires k < |hops|
    ensures Total(hops, k) <= Total(hops, |hops| - 1)
    ensures FillerReads(hops, |hops| - 1) ==> FillerReads(hops, k)
  {
    if FillerReads(hops, |hops| - 1) {
      FillerReadsUpTo(hops, k, |hops| - 1);
    }
    if k < |hops| - 1 {
      TotalGrows(hops, k, |hops| - 1);
    }
  }

  /**
   * The filler theorem: after hop `k` has been wrapped, the end of the packet is what the filler held after
   * `k` rounds of its own, forward, loop.
   */
  lemma FillerIsTail(c: Crypto, hops: seq<Hop>, associatedData: Option<bytes>, k: nat)
    requires Constructible(hops) && k < |hops|
    ensures Total(hops, k) <= ONION_PACKET_LENGTH && FillerReads(hops, k)
    ensures Wrapped(c, hops, associatedData, k).packet[ONION_PACKET_LENGTH - Total(hops, k)..] == FillerAfter(c, hops, k)
  {
    TotalUpTo(hops, k);
    forall j: nat | j < Total(hops, k) {
      FillerTailByte(c, hops, associatedData, k, ONION_PACKET_LENGTH - Total(hops, k) + j, j);
    }
  }

  // ---------- peeling

  /** The payloads extended by a packet's length of zeros, decrypted. */
  function Extended(c: Crypto, hopPayloads: bytes, secret: bytes): (r: Result<bytes>)
    ensures r.Ok? <==> |hopPayloads| >= ONION_PACKET_LENGTH
    ensures r.Ok? ==> |r.value| == |hopPayloads| + ONION_PACKET_LENGTH
  {
    XorPrefix(hopPayloads + Zeros(ONION_PACKET_LENGTH), CipherStream(c, secret, 2 * ONION_PACKET_LENGTH))
  }

  datatype Peeled = Peeled(payload: HopPayload, next: Option<Packet>)

  function PeelWith(c: Crypto, o: Packet, secret: bytes, associatedData: Option<bytes>): Result<Peeled> {
    if (c.hmac)(MuKey(c, secret), o.hopPayloads + AssociatedBytes(associatedData)) != o.nextHmac then Err(HmacMismatch)
    else
      var extended :- Extended(c, o.hopPayloads, secret);
      var payload :- ParseSphinx(extended);
      var hmacIndex := SphinxSize(payload);
      var nextPayloadIndex := hmacIndex + HMAC_LENGTH;
      var nextHmac :- Slice(extended, hmacIndex, nextPayloadIndex);
      if nextHmac == Zeros(HMAC_LENGTH) then Ok(Peeled(payload, None))
      else
        var nextPayload :- Slice(extended, nextPayloadIndex, nextPayloadIndex + ONION_PACKET_LENGTH);
        var nextKey := (c.nextPublicKey)(secret, o.ephemeralPublicKey);
        Ok(Peeled(payload, Some(Packet(o.version, nextKey, nextPayload, nextHmac))))
  }

  function Peel(c: Crypto, o: Packet, sharedSecret: Option<bytes>, hopPrivateKey: Option<bytes>,
                associatedData: Option<bytes>): Result<Peeled> {
    if sharedSecret.Some? && hopPrivateKey.Some? then Err(BothKeysGiven)
    else if hopPrivateKey.Some? then
      PeelWith(c, o, (c.sharedSecret)(o.ephemeralPublicKey, hopPrivateKey.value), associatedData)
    else if sharedSecret.Some? then PeelWith(c, o, sharedSecret.value, associatedData)
    else Err(NoKeyGiven)
  }

  lemma ExtendedByte(c: Crypto, hopPayloads: bytes, secret: bytes, i: nat)
    requires |hopPayloads| == ONION_PACKET_LENGTH && i < 2 * ONION_PACKET_LENGTH
    ensures Extended(c, hopPayloads, secret).value[i] ==
      Xor(if i < ONION_PACKET_LENGTH then hopPayloads[i] else 0, KeyByte(c, secret, i))
  {
  }

  /**
   * Layer inversion: what peeling hop `k` finds behind the shift is the packet of hop `k + 1`, byte for byte,
   * although the end of that packet was lost when hop `k` was wrapped.
   */
  lemma PeelRestoresInner(c: Crypto, hops: seq<Hop>, associatedData: Option<bytes>, k: nat)
    requires Constructible(hops) && k < |hops| - 1
    ensures hops[k].size <= ONION_PACKET_LENGTH
    ensures Extended(c, Wrapped(c, hops, associatedData, k).packet, hops[k].secret).value
              [hops[k].size..hops[k].size + ONION_PACKET_LENGTH]
            == Wrapped(c, hops, associatedData, k + 1).packet
  {
    hide *;
    InnerSize(hops, k);
    var s, inner := hops[k].size, Wrapped(c, hops, associatedData, k + 1).packet;
    var extended := Extended(c, Wrapped(c, hops, associatedData, k).packet, hops[k].secret).value;
    forall i: nat | s <= i < s + |inner|
      ensures extended[i] == inner[i - s]
    {
      InnerByte(c, hops, associatedData, k, i, i - s);
    }
    SliceIs(extended, s, inner);
  }

  lemma InnerSize(hops: seq<Hop>, k: nat)
    requires Constructible(hops) && k < |hops| - 1
    ensures hops[k].size <= ONION_PACKET_LENGTH
  {
    TotalGrows(hops, k, |hops| - 1);
  }

  lemma SliceIs(a: bytes, start: nat, b: bytes)
    requires start + |b| <= |a|
    requires forall i: nat :: start <= i < start + |b| ==> a[i] == b[i - start]
    ensures a[start..start + |b|] == b
  {
  }

  lemma InnerByte(c: Crypto, hops: seq<Hop>, associatedData: Option<bytes>, k: nat, i: nat, q: nat)
    requires Constructible(hops) && k < |hops| - 1 && q < ONION_PACKET_LENGTH
    requires i == hops[k].size + q < 2 * ONION_PACKET_LENGTH
    ensures Extended(c, Wrapped(c, hops, associatedData, k).packet, hops[k].secret).value[i]
            == Wrapped(c, hops, associatedData, k + 1).packet[q]
  {
    hide Wrapped, FillerAfter, Extended;
    ExtendedByte(c, Wrapped(c, hops, associatedData, k).packet, hops[k].secret, i);
    if i < ONION_PACKET_LENGTH {
      WrappedByte(c, hops, associatedData, k, i);
      XorTwice(Wrapped(c, hops, associatedData, k + 1).packet[q], KeyByte(c, hops[k].secret, i));
    } else {
      TotalUpTo(hops, k + 1);
      var j := i - ONION_PACKET_LENGTH + Total(hops, k);
      FillerTailByte(c, hops, associatedData, k + 1, q, j);
      FillerByte(c, hops, k, j);
    }
  }

  /** What peeling hop `k` finds in front: the header, the next HMAC, and bytes the shift left behind. */
  lemma PeelRestoresFront(c: Crypto, hops: seq<Hop>, associatedData: Option<bytes>, k: nat)
    requires Constructible(hops) && k < |hops| && (k == |hops| - 1 ==> Fits(hops))
    ensures hops[k].size <= ONION_PACKET_LENGTH
    ensures forall i: nat :: i < hops[k].size ==>
      Extended(c, Wrapped(c, hops, associatedData, k).packet, hops[k].secret).value[i]
      == PlainByte(hops[k], Wrapped(c, hops, associatedData, k + 1), i)
  {
    var inner := Wrapped(c, hops, associatedData, k + 1);
    TotalGrows(hops, k, if k == |hops| - 1 then |hops| else |hops| - 1);
    forall i: nat | i < hops[k].size
      ensures Extended(c, Wrapped(c, hops, associatedData, k).packet, hops[k].secret).value[i]
              == PlainByte(hops[k], inner, i)
    {
      ExtendedByte(c, Wrapped(c, hops, associatedData, k).packet, hops[k].secret, i);
      WrappedByte(c, hops, associatedData, k, i);
      XorTwice(PlainByte(hops[k], inner, i), KeyByte(c, hops[k].secret, i));
    }
  }
}
