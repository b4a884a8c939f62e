/** LNBolt/BOLT4/OnionBlob.cs: the class, with the loops over its arrays, against the functions of `Onion`. */
module OnionBlobs {
  import opened Wrappers
  import opened Bytes
  import opened BigEndian
  import opened CryptoTools
  import opened HopPayloads
  import opened Onion
  import opened OnionRun

  const EPHEMERAL_KEY_LENGTH := 33
  const RAW_LENGTH := 1 + EPHEMERAL_KEY_LENGTH + ONION_PACKET_LENGTH + HMAC_LENGTH

  // ---------- serialization

  function RawOnion(o: Packet): bytes {
    [o.version] + o.ephemeralPublicKey + o.hopPayloads + o.nextHmac
  }

  /** The constructor from raw bytes; bytes beyond the packet are ignored. */
  function FromRaw(raw: bytes): Result<Packet> {
    if |raw| < RAW_LENGTH then Err(OutOfRange)
    else Ok(Packet(raw[0], raw[1..34], raw[34..1334], raw[1334..1366]))
  }

  predicate HasWireLengths(o: Packet) {
    && |o.ephemeralPublicKey| == EPHEMERAL_KEY_LENGTH
    && |o.hopPayloads| == ONION_PACKET_LENGTH
    && |o.nextHmac| == HMAC_LENGTH
  }

  /** Serializing and reading back is the identity on exactly the packets whose parts have their wire lengths. */
  lemma RawRoundTrip(o: Packet, rest: bytes)
    ensures FromRaw(RawOnion(o) + rest) == Ok(o) <==> HasWireLengths(o)
  {
    var raw := RawOnion(o) + rest;
    if HasWireLengths(o) {
      assert raw[1..34] == o.ephemeralPublicKey;
      assert raw[34..1334] == o.hopPayloads;
      assert raw[1334..1366] == o.nextHmac;
    }
  }

  lemma RawIsKept(raw: bytes)
    ensures FromRaw(raw).Ok? <==> |raw| >= RAW_LENGTH
    ensures FromRaw(raw).Ok? ==> RawOnion(FromRaw(raw).value) == raw[..RAW_LENGTH]
  {
    if |raw| >= RAW_LENGTH {
      assert raw[..RAW_LENGTH] == [raw[0]] + raw[1..34] + raw[34..1334] + raw[1334..1366];
    }
  }

  /** The layout of BOLT 4: one version byte, 33 of the key, 1300 of payloads and 32 of the HMAC. */
  lemma RawLayout(o: Packet)
    requires HasWireLengths(o)
    ensures var raw := RawOnion(o);
      && |raw| == 1366 && raw[0] == o.version && raw[1..34] == o.ephemeralPublicKey
      && raw[34..1334] == o.hopPayloads && raw[1334..] == o.nextHmac
  {
  }

  // ---------- the filler loop

  /** The filler array before and after one round, given what the inner loop did to each byte. */
  lemma FillerRound(c: Crypto, hops: seq<Hop>, i: nat, before: bytes, after: bytes)
    requires i < |hops| && FillerReads(hops, i + 1)
    requires |before| == |after| >= Total(hops, i + 1)
    requires before == FillerAfter(c, hops, i) + Zeros(|before| - Total(hops, i))
    requires forall j: nat :: j < Total(hops, i + 1) ==>
      after[j] == Xor(before[j], KeyByte(c, hops[i].secret, ONION_PACKET_LENGTH - Total(hops, i) + j))
    requires forall j :: Total(hops, i + 1) <= j < |after| ==> after[j] == before[j]
    ensures after == FillerAfter(c, hops, i + 1) + Zeros(|after| - Total(hops, i + 1))
  {
    hide FillerAfter;
    forall j: nat | j < Total(hops, i + 1)
      ensures after[j] == FillerAfter(c, hops, i + 1)[j]
    {
      FillerByte(c, hops, i, j);
    }
  }

  /** The inner loop of one round: the key stream from `start` on is applied to the first bytes of the filler. */
  method EncryptFiller(filler: array<byte>, streamBytes: bytes, start: nat, end: nat)
    requires start <= end <= |streamBytes| && end - start <= filler.Length
    modifies filler
    ensures forall k: nat :: k < end - start ==> filler[k] == Xor(old(filler[..])[k], streamBytes[start + k])
    ensures forall k :: end - start <= k < filler.Length ==> filler[k] == old(filler[..])[k]
  {
    for j := start to end
      invariant forall k: nat :: k < j - start ==> filler[k] == Xor(old(filler[..])[k], streamBytes[start + k])
      invariant forall k :: j - start <= k < filler.Length ==> filler[k] == old(filler[..])[k]
    {
      var fillerIndex := j - start;
      filler[fillerIndex] := Xor(filler[fillerIndex], streamBytes[j]);
    }
  }

  /** `unused` is the size of payloads behind the last hop that have no secret: the loop does not come to them. */
  method GenerateFiller(c: Crypto, hops: seq<Hop>, unused: nat) returns (r: Result<bytes>)
    ensures r.Ok? <==> hops == [] || FillerReads(hops, |hops| - 1)
    ensures r.Ok? ==> r.value == Filler(c, hops, unused)
  {
    hide FillerAfter, Xor;
    var n := |hops|;
    var fillerSize := unused + if n == 0 then 0 else Total(hops, n) - hops[n - 1].size;
    var filler := new byte[fillerSize](_ => 0);
    var trailingPayloadSize := 0;
    var i := 0;
    assert filler[..] == FillerAfter(c, hops, 0) + Zeros(fillerSize);
    while i < n - 1
      invariant n == 0 ==> i == 0
      invariant n > 0 ==> i <= n - 1
      invariant trailingPayloadSize == Total(hops, i) <= fillerSize
      invariant FillerReads(hops, i)
      invariant filler[..] == FillerAfter(c, hops, i) + Zeros(fillerSize - Total(hops, i))
    {
      TotalGrows(hops, i, n - 1);
      var currentPayloadSize := hops[i].size;
      var fillerSourceStart := ONION_PACKET_LENGTH - trailingPayloadSize;
      var fillerSourceEnd := ONION_PACKET_LENGTH + currentPayloadSize;
      var streamBytes := CipherStream(c, hops[i].secret, 2 * ONION_PACKET_LENGTH);
      if fillerSourceStart < 0 || fillerSourceEnd > |streamBytes| {
        if FillerReads(hops, n - 1) {
          FillerReadsUpTo(hops, i + 1, n - 1);
        }
        return Err(OutOfRange);
      }
      ghost var before := filler[..];
      EncryptFiller(filler, streamBytes, fillerSourceStart, fillerSourceEnd);
      FillerRound(c, hops, i, before, filler[..]);
      trailingPayloadSize := trailingPayloadSize + currentPayloadSize;
      i := i + 1;
    }
    r := Ok(filler[..]);
    if n == 0 {
      NoFiller(c, hops);
    }
  }

  lemma NoFiller(c: Crypto, hops: seq<Hop>)
    ensures FillerAfter(c, hops, 0) == []
  {
  }

  /** One round of the construction, before the filler is appended. */
  method WrapRound(c: Crypto, hop: Hop, hopPayloads: array<byte>, nextHmac: Digest)
    requires hopPayloads.Length == ONION_PACKET_LENGTH
    requires |hop.header| + HMAC_LENGTH <= ONION_PACKET_LENGTH
    modifies hopPayloads
    ensures hopPayloads[..] == Layer(c, hop, old(hopPayloads[..]), nextHmac)
  {
    ghost var before := hopPayloads[..];
    var _ := CopyWithin(hopPayloads, hop.size, 0);
    MovedIsShifted(before, hop.size);
    var currentHopData := hop.header + nextHmac;
    CopyTo(currentHopData, hopPayloads, 0);
    var streamBytes := CipherStream(c, hop.secret, ONION_PACKET_LENGTH);
    XorInPlace(hopPayloads, streamBytes);
  }

  method XorInPlace(a: array<byte>, streamBytes: bytes)
    requires a.Length == |streamBytes|
    modifies a
    ensures a[..] == XorSeq(old(a[..]), streamBytes)
  {
    for j := 0 to a.Length
      invariant forall k :: 0 <= k < a.Length ==>
        a[k] == if k < j then Xor(old(a[..])[k], streamBytes[k]) else old(a[..])[k]
    {
      a[j] := Xor(a[j], streamBytes[j]);
    }
  }

  lemma WrappedStep(
    c: Crypto, hops: seq<Hop>, unused: nat, associatedData: Option<bytes>, k: nat, inner: Wrap, packet: bytes)
    requires Placeable(hops, unused) && k < |hops| && WrappedOver(c, hops, unused, associatedData, k + 1) == inner
    requires |inner.packet| == ONION_PACKET_LENGTH
    requires var body, filler := Layer(c, hops[k], inner.packet, inner.hmac), Filler(c, hops, unused);
      packet == if k == |hops| - 1 then Overwrite(body, |body| - |filler|, filler) else body
    ensures WrappedOver(c, hops, unused, associatedData, k)
         == Wrap(packet, (c.hmac)(MuKey(c, hops[k].secret), packet + AssociatedBytes(associatedData)))
  {
    hide Layer, FillerAfter, FillerReads, Total;
  }

  lemma NothingWrapped(c: Crypto, hops: seq<Hop>, unused: nat, associatedData: Option<bytes>)
    requires Placeable(hops, unused)
    ensures WrappedOver(c, hops, unused, associatedData, |hops|) == Wrap(Zeros(ONION_PACKET_LENGTH), Zeros(HMAC_LENGTH))
  {
  }

  /** The part of `Peel` that checks and decrypts. */
  method OpenLayer(c: Crypto, o: Packet, secret: bytes, associatedData: Option<bytes>) returns (r: Result<Peeled>)
    ensures r == PeelWith(c, o, secret, associatedData)
  {
    hide ParseSphinx, SphinxSize, XorPrefix, CipherStream;
    var data := o.hopPayloads;
    if associatedData.Some? {
      data := data + associatedData.value;
    }
    assert data == o.hopPayloads + AssociatedBytes(associatedData);
    var currentHmac := (c.hmac)(MuKey(c, secret), data);
    if currentHmac != o.nextHmac {
      return Err(HmacMismatch);
    }
    var streamBytes := CipherStream(c, secret, 2 * ONION_PACKET_LENGTH);
    var extendedPayload :- XorArrays(o.hopPayloads + Zeros(ONION_PACKET_LENGTH), streamBytes);
    var hopPayload :- ReadSphinx(extendedPayload);
    var hmacIndex := SphinxSize(hopPayload);
    var nextPayloadIndex := hmacIndex + HMAC_LENGTH;
    var nextHmac :- Slice(extendedPayload, hmacIndex, nextPayloadIndex);
    if nextHmac == Zeros(HMAC_LENGTH) {
      return Ok(Peeled(hopPayload, None));
    }
    var nextPayload :- Slice(extendedPayload, nextPayloadIndex, nextPayloadIndex + ONION_PACKET_LENGTH);
    var nextEphemeralPublicKey := (c.nextPublicKey)(secret, o.ephemeralPublicKey);
    return Ok(Peeled(hopPayload, Some(Packet(o.version, nextEphemeralPublicKey, nextPayload, nextHmac))));
  }

  // ---------- the class

  class OnionBlob {
    var Version: byte
    var EphemeralPublicKey: bytes
    var HopPayloads: bytes
    var NextHmac: bytes

    constructor (version: byte, ephemeralPublicKey: bytes, hopPayloads: bytes, nextHmac: bytes)
      ensures View() == Packet(version, ephemeralPublicKey, hopPayloads, nextHmac)
    {
      Version := version;
      EphemeralPublicKey := ephemeralPublicKey;
      HopPayloads := hopPayloads;
      NextHmac := nextHmac;
    }

    ghost function View(): Packet
      reads this
    {
      Packet(Version, EphemeralPublicKey, HopPayloads, NextHmac)
    }

    /**
     * The construction loop: shift, write the header, encrypt, and in the first round append the filler. It
     * works from the last hop to the first, in place, on one array.
     */
    static method Construct(
        c: Crypto, hops: seq<Hop>, unused: nat, firstHopPublicKey: bytes, associatedData: Option<bytes>)
        returns (r: Result<OnionBlob>)
      ensures r.Ok? <==> Placeable(hops, unused)
      ensures r.Ok? ==>
        fresh(r.value) && r.value.View() == ConstructedOver(c, hops, unused, firstHopPublicKey, associatedData)
    {
      hide Layer, FillerAfter, FillerReads, Total, WrappedOver;
      if Placeable(hops, unused) {
        NothingWrapped(c, hops, unused, associatedData);
      }
      var nextHmac: Digest := Zeros(HMAC_LENGTH);
      var filler :- GenerateFiller(c, hops, unused);
      var hopPayloads := new byte[ONION_PACKET_LENGTH](_ => 0);
      assert hopPayloads[..] == Zeros(ONION_PACKET_LENGTH);
      var n := |hops|;
      var i := n - 1;
      while i >= 0
        invariant -1 <= i < n
        invariant Placeable(hops, unused) ==>
          WrappedOver(c, hops, unused, associatedData, i + 1) == Wrap(hopPayloads[..], nextHmac)
        invariant n > 0 ==> FillerReads(hops, n - 1)
        invariant 0 <= i + 1 < n ==> Total(hops, n - 1) + unused <= ONION_PACKET_LENGTH
        invariant forall k :: i < k < n ==> |hops[k].header| + HMAC_LENGTH <= ONION_PACKET_LENGTH
      {
        if |hops[i].header| + HMAC_LENGTH > hopPayloads.Length {
          assert hops[i] in hops;
          return Err(ArgumentTooLong);
        }
        ghost var inner := Wrap(hopPayloads[..], nextHmac);
        WrapRound(c, hops[i], hopPayloads, nextHmac);
        if i == n - 1 {
          if |filler| > hopPayloads.Length {
            return Err(OutOfRange);
          }
          CopyTo(filler, hopPayloads, hopPayloads.Length - |filler|);
        }
        var hmacData := hopPayloads[..];
        if associatedData.Some? && |associatedData.value| > 0 {
          hmacData := hmacData + associatedData.value;
        }
        assert hmacData == hopPayloads[..] + AssociatedBytes(associatedData);
        nextHmac := (c.hmac)(MuKey(c, hops[i].secret), hmacData);
        if Placeable(hops, unused) {
          WrappedStep(c, hops, unused, associatedData, i, inner, hopPayloads[..]);
        }
        i := i - 1;
      }
      var blob := new OnionBlob(0, firstHopPublicKey, hopPayloads[..], nextHmac);
      return Ok(blob);
    }

    /**
     * Returns the payload and the next packet, if any. The call also turns `this` into the next packet: its
     * fields are assigned while the arguments of the new object are evaluated.
     */
    method PeelLayer(c: Crypto, sharedSecret: Option<bytes>, hopPrivateKey: Option<bytes>, associatedData: Option<bytes>)
        returns (r: Result<HopPayload>, nextSphinx: OnionBlob?)
      modifies this
      ensures
        match Peel(c, old(View()), sharedSecret, hopPrivateKey, associatedData)
        case Err(e) => r == Err(e) && nextSphinx == null && View() == old(View())
        case Ok(Peeled(payload, None)) => r == Ok(payload) && nextSphinx == null && View() == old(View())
        case Ok(Peeled(payload, Some(next))) =>
          r == Ok(payload) && nextSphinx != null && fresh(nextSphinx) && nextSphinx.View() == next && View() == next
    {
      hide PeelWith;
      nextSphinx := null;
      var secret := sharedSecret;
      if sharedSecret.Some? && hopPrivateKey.Some? {
        return Err(BothKeysGiven), null;
      }
      if hopPrivateKey.Some? {
        secret := Some((c.sharedSecret)(EphemeralPublicKey, hopPrivateKey.value));
      }
      if secret.None? {
        return Err(NoKeyGiven), null;
      }
      var peeled := OpenLayer(c, Packet(Version, EphemeralPublicKey, HopPayloads, NextHmac), secret.value, associatedData);
      if peeled.Err? {
        return Err(peeled.error), null;
      }
      if peeled.value.next.Some? {
        var next := peeled.value.next.value;
        VersionIsKept(c, View(), secret.value, associatedData);
        EphemeralPublicKey := next.ephemeralPublicKey;
        HopPayloads := next.hopPayloads;
        NextHmac := next.nextHmac;
        nextSphinx := new OnionBlob(Version, EphemeralPublicKey, HopPayloads, NextHmac);
      }
      r := Ok(peeled.value.payload);
    }
  }

  lemma VersionIsKept(c: Crypto, o: Packet, secret: bytes, associatedData: Option<bytes>)
    ensures var r := PeelWith(c, o, secret, associatedData);
      r.Ok? && r.value.next.Some? ==> r.value.next.value.version == o.version
  {
    hide ParseSphinx, SphinxSize, Extended;
  }

  // ---------- the entry point of the original

  lemma RouteGrows(route: seq<Stop>, s: Stop)
    ensures Secrets(route + [s]) == Secrets(route) + [s.secret]
    ensures Payloads(route + [s]) == Payloads(route) + [s.payload]
    ensures DataHops(route + [s]) == DataHops(route) + [DataHop(s)]
  {
    hide DataHop;
  }

  lemma DataHopIs(s: Stop)
    ensures HMAC_LENGTH == 32 && |ToDataBuffer(s.payload).value| <= SphinxSize(s.payload)
    ensures DataHop(s) == Hop(s.secret, ToDataBuffer(s.payload).value, SphinxSize(s.payload) + HMAC_LENGTH)
  {
  }

  lemma NoRoute()
    ensures Secrets([]) == [] && Payloads([]) == [] && DataHops([]) == []
  {
  }

  /** The sizes of the payloads from the `i`-th to the last but one. */
  function Unused(payloads: seq<HopPayload>, i: nat): nat
    decreases |payloads| - i
  {
    if i + 1 >= |payloads| then 0 else SphinxSize(payloads[i]) + HMAC_LENGTH + Unused(payloads, i + 1)
  }

  /** What the filler leaves room for beyond the hops before the last secret's: nothing, when each payload has one. */
  function UnusedBy(payloads: seq<HopPayload>, secrets: nat): (n: nat)
    ensures |payloads| == secrets ==> n == 0
  {
    Unused(payloads, if secrets == 0 then 0 else secrets - 1)
  }

  lemma AllUsed(c: Crypto, hops: seq<Hop>, firstHopPublicKey: bytes, associatedData: Option<bytes>)
    requires hops != []
    ensures Placeable(hops, 0) <==> Constructible(hops)
    ensures Constructible(hops) ==>
      ConstructedOver(c, hops, 0, firstHopPublicKey, associatedData)
      == Constructed(c, hops, firstHopPublicKey, associatedData)
  {
  }

  /**
   * `ConstructOnion`: its header is the data buffer, without the length prefix. There have to be payloads, and one
   * for each secret; further payloads only make the filler longer.
   */
  method ConstructOnion(c: Crypto, sharedSecrets: seq<bytes>, payloads: seq<HopPayload>, firstHopPublicKey: bytes,
                        associatedData: Option<bytes>)
      returns (r: Result<OnionBlob>, ghost route: seq<Stop>)
    ensures payloads == [] || |sharedSecrets| > |payloads| ==> r.Err?
    ensures (exists i :: 0 <= i < |sharedSecrets| <= |payloads| && ToDataBuffer(payloads[i]).Err?) ==> r.Err?
    ensures (payloads != [] && |sharedSecrets| <= |payloads|
             && forall i :: 0 <= i < |sharedSecrets| ==> ToDataBuffer(payloads[i]).Ok?) ==>
      var hops, unused := DataHops(route), UnusedBy(payloads, |sharedSecrets|);
      && Secrets(route) == sharedSecrets && Payloads(route) == payloads[..|sharedSecrets|]
      && (r.Ok? <==> Placeable(hops, unused))
      && (r.Ok? ==> fresh(r.value) && r.value.View() == ConstructedOver(c, hops, unused, firstHopPublicKey, associatedData))
    ensures |sharedSecrets| == |payloads| && r.Ok? ==>
      && Constructible(DataHops(route))
      && r.value.View() == Constructed(c, DataHops(route), firstHopPublicKey, associatedData)
  {
    hide *;
    route := [];
    NoRoute();
    if payloads == [] || |sharedSecrets| > |payloads| {
      return Err(OutOfRange), route;
    }
    var hops: seq<Hop> := [];
    for i := 0 to |sharedSecrets|
      invariant forall k :: 0 <= k < i ==> ToDataBuffer(payloads[k]).Ok?
      invariant Secrets(route) == sharedSecrets[..i] && Payloads(route) == payloads[..i]
      invariant hops == DataHops(route)
    {
      var dataBuffer := WriteDataBuffer(payloads[i]);
      if dataBuffer.Err? {
        return Err(dataBuffer.error), route;
      }
      RouteGrows(route, Stop(sharedSecrets[i], payloads[i]));
      DataHopIs(Stop(sharedSecrets[i], payloads[i]));
      route := route + [Stop(sharedSecrets[i], payloads[i])];
      hops := hops + [Hop(sharedSecrets[i], dataBuffer.value, SphinxSize(payloads[i]) + HMAC_LENGTH)];
    }
    if hops != [] {
      AllUsed(c, hops, firstHopPublicKey, associatedData);
    }
    r := OnionBlob.Construct(c, hops, UnusedBy(payloads, |sharedSecrets|), firstHopPublicKey, associatedData);
  }
}
