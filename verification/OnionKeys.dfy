/** LNBolt/BOLT4/OnionBlob.cs: what a packet can be peeled with, the right associated data and the right key. */
module OnionKeys {
  import opened Wrappers
  import opened Bytes
  import opened CryptoTools
  import opened HopPayloads
  import opened Onion
  import opened OnionRun

  // ---------- associated data

  /** A layer made for one associated data is refused under another exactly if the MAC tells the two apart. */
  lemma OtherDataIsRefused(
    c: Crypto, hops: seq<Hop>, associatedData: Option<bytes>, other: Option<bytes>, k: nat, o: Packet)
    requires Constructible(hops) && k < |hops| && IsLayer(c, hops, associatedData, k, o)
    ensures
      var mac := (data: bytes) => (c.hmac)((c.hmac)([0x6d, 0x75], hops[k].secret), o.hopPayloads + data);
      var ours := match associatedData case None => [] case Some(data) => data;
      var theirs := match other case None => [] case Some(data) => data;
      PeelWith(c, o, hops[k].secret, other) == Err(HmacMismatch) <==> mac(theirs) != mac(ours)
  {
    hide Wrapped, Constructible, ParseSphinx, SphinxSize, Extended;
    WrappedMac(c, hops, associatedData, k);
    OtherErrors(c, o, hops[k].secret, other);
  }

  lemma OtherErrors(c: Crypto, o: Packet, secret: bytes, associatedData: Option<bytes>)
    ensures PeelWith(c, o, secret, associatedData) == Err(HmacMismatch) <==>
      (c.hmac)(MuKey(c, secret), o.hopPayloads + AssociatedBytes(associatedData)) != o.nextHmac
  {
    hide ParseSphinx, SphinxSize, Extended;
    var extended := Extended(c, o.hopPayloads, secret);
    if extended.Ok? {
      ParseErrors(extended.value);
    }
    ExtendedErrors(c, o.hopPayloads, secret);
  }

  lemma ExtendedErrors(c: Crypto, hopPayloads: bytes, secret: bytes)
    ensures Extended(c, hopPayloads, secret) != Err(HmacMismatch)
  {
  }

  // ---------- keys

  /** `Peel` needs either the shared secret or the private key that it is derived with, and not both. */
  lemma PeelKeys(c: Crypto, o: Packet, sharedSecret: bytes, hopPrivateKey: bytes, associatedData: Option<bytes>)
    ensures Peel(c, o, Some(sharedSecret), Some(hopPrivateKey), associatedData) == Err(BothKeysGiven)
    ensures Peel(c, o, None, None, associatedData) == Err(NoKeyGiven)
    ensures sharedSecret == (c.sharedSecret)(o.ephemeralPublicKey, hopPrivateKey) ==>
      Peel(c, o, None, Some(hopPrivateKey), associatedData) == Peel(c, o, Some(sharedSecret), None, associatedData)
  {
  }

  /**
   * The first hop, with its secret or with its private key if the sender used the secret that belongs to it: it
   * gets its payload and the next layer, in a packet with the next ephemeral key.
   */
  lemma FirstPeel(c: Crypto, route: seq<Stop>, firstHopPublicKey: bytes, hopPrivateKey: bytes, associatedData: Option<bytes>)
    requires Constructible(SphinxHops(route)) && (|route| == 1 ==> Fits(SphinxHops(route)))
    ensures
      var o := Constructed(c, SphinxHops(route), firstHopPublicKey, associatedData);
      var inner := Wrapped(c, SphinxHops(route), associatedData, 1);
      var next := Packet(0, (c.nextPublicKey)(route[0].secret, firstHopPublicKey), inner.packet, inner.hmac);
      var peeled := Ok(Peeled(Carried(route[0].payload), if inner.hmac == Zeros(HMAC_LENGTH) then None else Some(next)));
      && Peel(c, o, Some(route[0].secret), None, associatedData) == peeled
      && (route[0].secret == (c.sharedSecret)(firstHopPublicKey, hopPrivateKey) ==>
           Peel(c, o, None, Some(hopPrivateKey), associatedData) == peeled)
  {
    hide Wrapped, WrappedOver, SphinxHops, Placeable, PeelWith, Carried;
    var o := Constructed(c, SphinxHops(route), firstHopPublicKey, associatedData);
    FirstLayer(c, SphinxHops(route), firstHopPublicKey, associatedData);
    PeelSphinxHop(c, route, associatedData, 0, o);
  }

  /** Peels with one private key after the other. */
  function RunByKeys(c: Crypto, o: Packet, privateKeys: seq<bytes>, associatedData: Option<bytes>): Trace
    decreases |privateKeys|
  {
    if privateKeys == [] then Trace([], Forwarded(o))
    else
      match Peel(c, o, None, Some(privateKeys[0]), associatedData)
      case Err(e) => Trace([], Failed(e))
      case Ok(Peeled(payload, None)) => Trace([payload], Delivered)
      case Ok(Peeled(payload, Some(next))) =>
        var t := RunByKeys(c, next, privateKeys[1..], associatedData);
        Trace([payload] + t.payloads, t.outcome)
  }

  /** The secrets that the hops derive, each from the ephemeral key that the one before it passes on. */
  function DerivedSecrets(c: Crypto, ephemeralPublicKey: bytes, privateKeys: seq<bytes>): (secrets: seq<bytes>)
    ensures |secrets| == |privateKeys|
    decreases |privateKeys|
  {
    if privateKeys == [] then []
    else
      var secret := (c.sharedSecret)(ephemeralPublicKey, privateKeys[0]);
      [secret] + DerivedSecrets(c, (c.nextPublicKey)(secret, ephemeralPublicKey), privateKeys[1..])
  }

  lemma NextKey(c: Crypto, o: Packet, secret: bytes, associatedData: Option<bytes>)
    ensures var r := PeelWith(c, o, secret, associatedData);
      r.Ok? && r.value.next.Some? ==> r.value.next.value.ephemeralPublicKey == (c.nextPublicKey)(secret, o.ephemeralPublicKey)
  {
    hide ParseSphinx, SphinxSize, Extended;
  }

  /** Hops with private keys do what hops with the derived secrets do. */
  lemma {:induction false} RunByKeysIsRun(c: Crypto, o: Packet, privateKeys: seq<bytes>, associatedData: Option<bytes>)
    ensures RunByKeys(c, o, privateKeys, associatedData)
         == Run(c, o, DerivedSecrets(c, o.ephemeralPublicKey, privateKeys), associatedData)
    decreases |privateKeys|
  {
    hide PeelWith;
    if privateKeys != [] {
      var secret := (c.sharedSecret)(o.ephemeralPublicKey, privateKeys[0]);
      NextKey(c, o, secret, associatedData);
      var secrets := DerivedSecrets(c, o.ephemeralPublicKey, privateKeys);
      assert secrets[1..] == DerivedSecrets(c, (c.nextPublicKey)(secret, o.ephemeralPublicKey), privateKeys[1..]);
      var r := PeelWith(c, o, secret, associatedData);
      if r.Ok? && r.value.next.Some? {
        RunByKeysIsRun(c, r.value.next.value, privateKeys[1..], associatedData);
      }
    }
  }

  /** The whole run with the hops' private keys, when the sender used the secrets that they derive. */
  lemma OnionRoundTripByKeys(c: Crypto, route: seq<Stop>, firstHopPublicKey: bytes, privateKeys: seq<bytes>,
                             associatedData: Option<bytes>)
    requires Fits(SphinxHops(route))
    requires Secrets(route) == DerivedSecrets(c, firstHopPublicKey, privateKeys)
    ensures Constructible(SphinxHops(route))
    ensures RunByKeys(c, Constructed(c, SphinxHops(route), firstHopPublicKey, associatedData), privateKeys, associatedData)
      == Trace(Payloads(route), Delivered)
      <==> Peelable(Payloads(route), Hmacs(c, SphinxHops(route), associatedData), 0)
  {
    hide *;
    OnionRoundTrip(c, route, firstHopPublicKey, associatedData);
    FirstLayer(c, SphinxHops(route), firstHopPublicKey, associatedData);
    RunByKeysIsRun(c, Constructed(c, SphinxHops(route), firstHopPublicKey, associatedData), privateKeys, associatedData);
  }
}
