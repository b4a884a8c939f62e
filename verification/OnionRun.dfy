/** Whole runs over LNBolt/BOLT4/OnionBlob.cs: a constructed onion, peeled once by every hop of its route. */
module OnionRun {
  import opened Wrappers
  import opened Bytes
  import opened CryptoTools
  import opened HopPayloads
  import opened Onion

  datatype RawStop = Stop(secret: bytes, payload: HopPayload)

  /** A hop of a route: its shared secret, and a payload whose channel id fits its data buffer. */
  type Stop = s: RawStop | ToDataBuffer(s.payload).Ok? witness Stop([], EMPTY_TLV)

  /** The hop with the header that `ParseSphinx` reads: the payload behind its length prefix. */
  function SphinxHop(s: Stop): Hop {
    Hop(s.secret, ToSphinxBuffer(s.payload).value, SphinxSize(s.payload) + HMAC_LENGTH)
  }

  /** The hop with the header that `ConstructOnion` writes: the payload without its length prefix. */
  function DataHop(s: Stop): Hop {
    Hop(s.secret, ToDataBuffer(s.payload).value, SphinxSize(s.payload) + HMAC_LENGTH)
  }

  function SphinxHops(route: seq<Stop>): (hops: seq<Hop>)
    ensures |hops| == |route|
  {
    seq(|route|, i requires 0 <= i < |route| => SphinxHop(route[i]))
  }

  function DataHops(route: seq<Stop>): (hops: seq<Hop>)
    ensures |hops| == |route|
  {
    seq(|route|, i requires 0 <= i < |route| => DataHop(route[i]))
  }

  function Secrets(route: seq<Stop>): (s: seq<bytes>)
    ensures |s| == |route|
    ensures forall i :: 0 <= i < |route| ==> s[i] == route[i].secret
  {
    seq(|route|, i requires 0 <= i < |route| => route[i].secret)
  }

  function Payloads(route: seq<Stop>): (p: seq<HopPayload>)
    ensures |p| == |route|
    ensures forall i :: 0 <= i < |route| ==> p[i] == route[i].payload
  {
    seq(|route|, i requires 0 <= i < |route| => route[i].payload)
  }

  datatype Outcome = Delivered | Forwarded(next: Packet) | Failed(error: Error)
  datatype Trace = Trace(payloads: seq<HopPayload>, outcome: Outcome)

  /** Peels with one secret after the other, until a peel throws or returns no next packet. */
  function Run(c: Crypto, o: Packet, secrets: seq<bytes>, associatedData: Option<bytes>): Trace
    decreases |secrets|
  {
    if secrets == [] then Trace([], Forwarded(o))
    else
      match PeelWith(c, o, secrets[0], associatedData)
      case Err(e) => Trace([], Failed(e))
      case Ok(Peeled(payload, None)) => Trace([payload], Delivered)
      case Ok(Peeled(payload, Some(next))) =>
        var t := Run(c, next, secrets[1..], associatedData);
        Trace([payload] + t.payloads, t.outcome)
  }

  lemma RunStops(c: Crypto, o: Packet, secrets: seq<bytes>, associatedData: Option<bytes>, p: HopPayload)
    requires secrets != [] && PeelWith(c, o, secrets[0], associatedData) == Ok(Peeled(p, None))
    ensures Run(c, o, secrets, associatedData) == Trace([p], Delivered)
  {
  }

  lemma RunContinues(c: Crypto, o: Packet, secrets: seq<bytes>, associatedData: Option<bytes>, p: HopPayload, next: Packet)
    requires secrets != [] && PeelWith(c, o, secrets[0], associatedData) == Ok(Peeled(p, Some(next)))
    ensures Run(c, o, secrets, associatedData)
      == Trace([p] + Run(c, next, secrets[1..], associatedData).payloads,
               Run(c, next, secrets[1..], associatedData).outcome)
  {
  }

  /** The packet that hop `k` should receive. */
  ghost predicate IsLayer(c: Crypto, hops: seq<Hop>, associatedData: Option<bytes>, k: nat, o: Packet)
    requires Constructible(hops) && k <= |hops|
  {
    var w := Wrapped(c, hops, associatedData, k);
    o.hopPayloads == w.packet && o.nextHmac == w.hmac
  }

  lemma FirstLayer(c: Crypto, hops: seq<Hop>, firstHopPublicKey: bytes, associatedData: Option<bytes>)
    requires Constructible(hops)
    ensures var o := Constructed(c, hops, firstHopPublicKey, associatedData);
      && o.hopPayloads == Wrapped(c, hops, associatedData, 0).packet
      && o.nextHmac == Wrapped(c, hops, associatedData, 0).hmac
      && o.ephemeralPublicKey == firstHopPublicKey
  {
  }

  /** Every layer carries the HMAC that its own hop computes. */
  lemma HmacMatches(c: Crypto, hops: seq<Hop>, associatedData: Option<bytes>, k: nat, o: Packet)
    requires Constructible(hops) && k < |hops|
    requires IsLayer(c, hops, associatedData, k, o)
    ensures o.hopPayloads == Wrapped(c, hops, associatedData, k).packet
    ensures (c.hmac)(MuKey(c, hops[k].secret), o.hopPayloads + AssociatedBytes(associatedData)) == o.nextHmac
  {
    hide Layer, FillerAfter;
  }

  lemma LastHmacIsZero(c: Crypto, hops: seq<Hop>, associatedData: Option<bytes>)
    requires Constructible(hops)
    ensures Wrapped(c, hops, associatedData, |hops|) == Wrap(Zeros(ONION_PACKET_LENGTH), Zeros(HMAC_LENGTH))
  {
  }

  function NextPacket(c: Crypto, o: Packet, secret: bytes, hopPayloads: bytes, hmac: bytes): Packet {
    Packet(o.version, (c.nextPublicKey)(secret, o.ephemeralPublicKey), hopPayloads, hmac)
  }

  lemma NextFields(c: Crypto, o: Packet, secret: bytes, hopPayloads: bytes, hmac: bytes)
    ensures NextPacket(c, o, secret, hopPayloads, hmac).hopPayloads == hopPayloads
    ensures NextPacket(c, o, secret, hopPayloads, hmac).nextHmac == hmac
  {
  }

  lemma NextIsLayer(c: Crypto, hops: seq<Hop>, associatedData: Option<bytes>, k: nat, o: Packet, secret: bytes)
    requires Constructible(hops) && k <= |hops|
    ensures
      var w := Wrapped(c, hops, associatedData, k);
      IsLayer(c, hops, associatedData, k, NextPacket(c, o, secret, w.packet, w.hmac))
  {
  }

  /** A peel, once the extended payload is known and long enough. */
  lemma PeelExtended(c: Crypto, o: Packet, secret: bytes, associatedData: Option<bytes>, p: HopPayload)
    requires |o.hopPayloads| == ONION_PACKET_LENGTH
    requires (c.hmac)(MuKey(c, secret), o.hopPayloads + AssociatedBytes(associatedData)) == o.nextHmac
    requires ParseSphinx(Extended(c, o.hopPayloads, secret).value) == Ok(p)
    requires SphinxSize(p) + HMAC_LENGTH <= ONION_PACKET_LENGTH
    ensures
      var extended, at := Extended(c, o.hopPayloads, secret).value, SphinxSize(p) + HMAC_LENGTH;
      PeelWith(c, o, secret, associatedData) == Ok(Peeled(p,
        if extended[at - HMAC_LENGTH..at] == Zeros(HMAC_LENGTH) then None
        else Some(NextPacket(c, o, secret, extended[at..at + ONION_PACKET_LENGTH], extended[at - HMAC_LENGTH..at]))))
  {
    hide ParseSphinx, SphinxSize;
  }

  /** Joining one more payload in front of a trace. */
  lemma ConsTrace(p: HopPayload, q: HopPayload, ps: seq<HopPayload>, t: Trace)
    ensures Trace([q] + t.payloads, t.outcome) == Trace([p] + ps, Delivered) <==> q == p && t == Trace(ps, Delivered)
  {
    assert ([q] + t.payloads)[0] == q && ([q] + t.payloads)[1..] == t.payloads;
    assert ([p] + ps)[0] == p && ([p] + ps)[1..] == ps;
  }

  lemma RouteFrom(route: seq<Stop>, k: nat)
    requires k < |route|
    ensures Secrets(route)[k..][0] == route[k].secret
    ensures Secrets(route)[k..][1..] == Secrets(route)[k + 1..]
    ensures Payloads(route)[k..] == [route[k].payload] + Payloads(route)[k + 1..]
    ensures k == |route| - 1 ==> Payloads(route)[k..] == [route[k].payload]
  {
    hide *;
    var secrets, payloads := Secrets(route), Payloads(route);
    assert secrets[k..][1..] == secrets[k + 1..];
    assert payloads[k..] == [payloads[k]] + payloads[k + 1..];
    if k == |route| - 1 {
      assert payloads[k + 1..] == [];
    }
  }

  // ---------- headers with a length prefix

  /** A hop whose extended payload reads as a payload of its header's size: the HMAC behind it is the right one. */
  lemma PeelAtSize(c: Crypto, hops: seq<Hop>, associatedData: Option<bytes>, k: nat, o: Packet, p: HopPayload)
    requires Constructible(hops) && k < |hops| && (k == |hops| - 1 ==> Fits(hops))
    requires IsLayer(c, hops, associatedData, k, o)
    requires |o.hopPayloads| == ONION_PACKET_LENGTH
    requires ParseSphinx(Extended(c, o.hopPayloads, hops[k].secret).value) == Ok(p)
    requires SphinxSize(p) == |hops[k].header| == hops[k].size - HMAC_LENGTH
    ensures
      var inner := Wrapped(c, hops, associatedData, k + 1);
      PeelWith(c, o, hops[k].secret, associatedData) == Ok(Peeled(p,
        if inner.hmac == Zeros(HMAC_LENGTH) then None
        else Some(NextPacket(c, o, hops[k].secret, inner.packet, inner.hmac))))
  {
    hide *;
    Lengths();
    var inner := Wrapped(c, hops, associatedData, k + 1);
    HmacMatches(c, hops, associatedData, k, o);
    PeelRestoresFront(c, hops, associatedData, k);
    FrontParts(Extended(c, o.hopPayloads, hops[k].secret).value, hops[k], inner);
    PeelExtended(c, o, hops[k].secret, associatedData, p);
    if k < |hops| - 1 {
      PeelRestoresInner(c, hops, associatedData, k);
    } else {
      LastHmacIsZero(c, hops, associatedData);
    }
  }

  /**
   * Whatever payload a hop finds in front: the HMAC is looked for right behind it exactly if the payload keeps its
   * size, and then the peel returns the payload and, unless that HMAC is zero, the packet of the next hop.
   */
  lemma PeelHop(c: Crypto, hops: seq<Hop>, associatedData: Option<bytes>, k: nat, o: Packet, p: HopPayload)
    requires Constructible(hops) && k < |hops| && (k == |hops| - 1 ==> Fits(hops))
    requires IsLayer(c, hops, associatedData, k, o)
    requires ParseSphinx(hops[k].header) == Ok(p)
    requires ReadSize(hops[k].header) == |hops[k].header| == hops[k].size - HMAC_LENGTH
    ensures SphinxSize(p) == |hops[k].header| <==> KeepsSize(hops[k].header)
    ensures KeepsSize(hops[k].header) ==>
      var inner := Wrapped(c, hops, associatedData, k + 1);
      PeelWith(c, o, hops[k].secret, associatedData) == Ok(Peeled(p,
        if inner.hmac == Zeros(HMAC_LENGTH) then None
        else Some(NextPacket(c, o, hops[k].secret, inner.packet, inner.hmac))))
  {
    hide *;
    Lengths();
    var header := hops[k].header;
    SizeIsKept(header, p);
    HmacMatches(c, hops, associatedData, k, o);
    PeelRestoresFront(c, hops, associatedData, k);
    var extended := Extended(c, o.hopPayloads, hops[k].secret).value;
    FrontParts(extended, hops[k], Wrapped(c, hops, associatedData, k + 1));
    assert extended == header + extended[|header|..];
    ReadWithRest(header, extended[|header|..]);
    if KeepsSize(header) {
      PeelAtSize(c, hops, associatedData, k, o, p);
    }
  }

  /** One peel returns the hop's payload and, unless the next HMAC is zero, the packet of the next hop. */
  lemma PeelSphinxHop(c: Crypto, route: seq<Stop>, associatedData: Option<bytes>, k: nat, o: Packet)
    requires Constructible(SphinxHops(route)) && k < |route| && (k == |route| - 1 ==> Fits(SphinxHops(route)))
    requires IsLayer(c, SphinxHops(route), associatedData, k, o)
    ensures
      var inner := Wrapped(c, SphinxHops(route), associatedData, k + 1);
      PeelWith(c, o, route[k].secret, associatedData) == Ok(Peeled(Carried(route[k].payload),
        if inner.hmac == Zeros(HMAC_LENGTH) then None
        else Some(NextPacket(c, o, route[k].secret, inner.packet, inner.hmac))))
  {
    hide *;
    Lengths();
    var hops, p := SphinxHops(route), route[k].payload;
    SphinxHopAt(route, k);
    PeelRestoresFront(c, hops, associatedData, k);
    WrittenIsReadWhole(p, hops[k].header);
    CarriedIsSame(p);
    PeelHop(c, hops, associatedData, k, o, Carried(p));
  }

  lemma Lengths()
    ensures ONION_PACKET_LENGTH == 1300 && HMAC_LENGTH == 32 && INT_MAX == 0x7fff_ffff
  {
  }

  lemma SphinxHopAt(route: seq<Stop>, k: nat)
    requires k < |route|
    ensures var hop, p := SphinxHops(route)[k], route[k].payload;
      && hop.secret == route[k].secret
      && ToSphinxBuffer(p) == Ok(hop.header)
      && |hop.header| == SphinxSize(p) && hop.size == SphinxSize(p) + HMAC_LENGTH
  {
  }

  lemma FrontParts(extended: bytes, hop: Hop, inner: Wrap)
    requires hop.size <= |inner.packet| == ONION_PACKET_LENGTH <= |extended|
    requires forall i: nat :: i < hop.size ==> extended[i] == PlainByte(hop, inner, i)
    ensures extended[..|hop.header|] == hop.header
    ensures extended[|hop.header|..|hop.header| + HMAC_LENGTH] == inner.hmac
  {
  }

  /** The HMACs of all layers, ending with the zero that the last hop finds. */
  ghost function Hmacs(c: Crypto, hops: seq<Hop>, associatedData: Option<bytes>): (hs: seq<Digest>)
    requires Constructible(hops)
    ensures |hs| == |hops| + 1
    ensures forall k :: 0 <= k <= |hops| ==> hs[k] == Wrapped(c, hops, associatedData, k).hmac
  {
    seq(|hops| + 1, k requires 0 <= k <= |hops| => Wrapped(c, hops, associatedData, k).hmac)
  }

  /** What the run from hop `k` on depends on: every payload can be encoded, and no HMAC in between is zero. */
  ghost predicate Peelable(payloads: seq<HopPayload>, hmacs: seq<Digest>, k: nat)
    requires |payloads| <= |hmacs|
  {
    && (forall j :: k <= j < |payloads| ==> Encodable(payloads[j]))
    && (forall j :: k < j < |payloads| ==> hmacs[j] != Zeros(HMAC_LENGTH))
  }

  lemma PeelableFrom(payloads: seq<HopPayload>, hmacs: seq<Digest>, k: nat)
    requires k < |payloads| <= |hmacs|
    ensures Peelable(payloads, hmacs, k)
      <==> (Encodable(payloads[k])
            && (k < |payloads| - 1 ==> hmacs[k + 1] != Zeros(HMAC_LENGTH))
            && Peelable(payloads, hmacs, k + 1))
    ensures Peelable(payloads, hmacs, |payloads|)
  {
    hide Encodable;
  }

  /** An HMAC and a packet that are one repetition of the bytes 16, 1, 1. */
  ghost predicate Repeats(w: Wrap) {
    && |w.packet| == ONION_PACKET_LENGTH
    && (forall i :: 0 <= i < HMAC_LENGTH ==> w.hmac[i] == if i % 3 == 0 then 16 else 1)
    && (forall i :: 0 <= i < ONION_PACKET_LENGTH ==> w.packet[i] == if i % 3 == 1 then 16 else 1)
  }

  lemma {:induction false} RepeatsAt(s: bytes, start: nat, n: nat, i: nat)
    requires start + 3 <= n <= |s| && start <= i < n
    requires forall j :: start <= j < n - 3 ==> s[j] == s[j + 3]
    ensures s[i] == s[start + (i - start) % 3]
  {
    if i >= start + 3 {
      RepeatsAt(s, start, n, i - 3);
      assert s[i - 3] == s[i - 3 + 3];
    }
  }

  /** The three bytes before an HMAC and a packet are 16, 1, 1: moving both there changes nothing only for a repetition. */
  lemma EarlyIsSame(extended: bytes, w: Wrap)
    requires |w.packet| == ONION_PACKET_LENGTH && |extended| >= 1340
    requires extended[5..8] == [16, 1, 1] && extended[8..40] == w.hmac && extended[40..1340] == w.packet
    ensures extended[5..37] == w.hmac && extended[37..1337] == w.packet <==> Repeats(w)
  {
    assert forall i :: 0 <= i < 3 ==> extended[5 + i] == [16, 1, 1][i];
    assert forall i :: 0 <= i < 32 ==> extended[8 + i] == w.hmac[i];
    assert forall i :: 0 <= i < 1300 ==> extended[40 + i] == w.packet[i];
    if extended[5..37] == w.hmac && extended[37..1337] == w.packet {
      forall j | 5 <= j < 1337
        ensures extended[j] == extended[j + 3]
      {
        if j < 37 {
          assert extended[5..37][j - 5] == extended[8..40][j - 5];
        } else {
          assert extended[37..1337][j - 37] == extended[40..1340][j - 37];
        }
      }
      forall i | 8 <= i < 1340
        ensures extended[i] == if (i - 5) % 3 == 0 then 16 else 1
      {
        RepeatsAt(extended, 5, 1340, i);
      }
      assert forall i :: 0 <= i < 32 ==> w.hmac[i] == extended[8 + i];
      assert forall i :: 0 <= i < 1300 ==> w.packet[i] == extended[40 + i];
    }
    if Repeats(w) {
      RepetitionIsSame(extended, w);
    }
  }

  lemma RepetitionIsSame(extended: bytes, w: Wrap)
    requires |extended| >= 1340 && extended[5..8] == [16, 1, 1] && Repeats(w)
    requires extended[8..40] == w.hmac && extended[40..1340] == w.packet
    ensures extended[5..37] == w.hmac && extended[37..1337] == w.packet
  {
    forall i | 5 <= i < 1340
      ensures extended[i] == if (i - 5) % 3 == 0 then 16 else 1
    {
      if i < 8 {
        assert extended[i] == extended[5..8][i - 5];
      } else if i < 40 {
        assert extended[i] == extended[8..40][i - 8];
      } else {
        assert extended[i] == extended[40..1340][i - 40];
      }
    }
  }

  /**
   * A well-formed header whose last record, of type 16, is not written again: the HMAC is taken to begin three
   * bytes early, inside the record, and the packet with it. They are the sender's exactly if these repeat 16, 1, 1.
   */
  lemma PeelExtraRecord(c: Crypto, hops: seq<Hop>, associatedData: Option<bytes>, k: nat, o: Packet)
    requires Constructible(hops) && k < |hops| && (k == |hops| - 1 ==> Fits(hops))
    requires IsLayer(c, hops, associatedData, k, o)
    requires hops[k].header == ExtraRecord() && hops[k].size == 40
    ensures var inner := Wrapped(c, hops, associatedData, k + 1);
      var r := PeelWith(c, o, hops[k].secret, associatedData);
      && r.Ok? && r.value.payload == EMPTY_TLV.(paymentMetadata := Some([1]))
      && r.value.next.Some?
      && r.value.next.value.nextHmac == [16, 1, 1] + inner.hmac[..29]
      && (k < |hops| - 1 ==>
           (r.value.next == Some(NextPacket(c, o, hops[k].secret, inner.packet, inner.hmac)) <==> Repeats(inner)))
  {
    hide *;
    Lengths();
    var inner, header := Wrapped(c, hops, associatedData, k + 1), hops[k].header;
    HmacMatches(c, hops, associatedData, k, o);
    PeelRestoresFront(c, hops, associatedData, k);
    var extended := Extended(c, o.hopPayloads, hops[k].secret).value;
    ExtraRecordSize();
    FrontParts(extended, hops[k], inner);
    assert extended == header + extended[8..];
    ExtraRecordIsRead(extended[8..]);
    PeelExtended(c, o, hops[k].secret, associatedData, EMPTY_TLV.(paymentMetadata := Some([1])));
    EarlyHmac(extended, inner.hmac);
    NextFields(c, o, hops[k].secret, extended[37..37 + ONION_PACKET_LENGTH], extended[5..37]);
    NextFields(c, o, hops[k].secret, inner.packet, inner.hmac);
    if k < |hops| - 1 {
      PeelRestoresInner(c, hops, associatedData, k);
      assert extended[5..8] == header[5..];
      EarlyIsSame(extended, inner);
    }
  }

  lemma EarlyHmac(extended: bytes, hmac: bytes)
    requires |extended| >= 40 && |hmac| == 32
    requires extended[..8] == ExtraRecord() && extended[8..40] == hmac
    ensures extended[5..37] == [16, 1, 1] + hmac[..29] != Zeros(32)
  {
    hide *;
    ExtraRecordSize();
    var s := extended[5..37];
    assert extended[..8][5..] == extended[5..8];
    assert extended[8..40][..29] == extended[8..37];
    assert s == extended[5..8] + extended[8..37];
    assert s[0] == 16;
  }

  /** What the hops from `k` to `n` depend on to pass the packet on to hop `n`. */
  ghost predicate Forwardable(payloads: seq<HopPayload>, hmacs: seq<Digest>, k: nat, n: nat)
    requires n < |payloads| <= |hmacs|
  {
    && (forall j :: k <= j < n ==> Encodable(payloads[j]))
    && (forall j :: k < j <= n ==> hmacs[j] != Zeros(HMAC_LENGTH))
  }

  lemma ForwardableFrom(payloads: seq<HopPayload>, hmacs: seq<Digest>, k: nat, n: nat)
    requires k < n < |payloads| <= |hmacs|
    ensures Forwardable(payloads, hmacs, k, n)
      <==> Encodable(payloads[k]) && hmacs[k + 1] != Zeros(HMAC_LENGTH) && Forwardable(payloads, hmacs, k + 1, n)
  {
    hide Encodable;
  }

  /** The packet reaches hop `n` as the layer made for it, with these payloads on its way. */
  ghost predicate Reaches(c: Crypto, hops: seq<Hop>, associatedData: Option<bytes>, n: nat, t: Trace, ps: seq<HopPayload>)
    requires Constructible(hops) && n <= |hops|
  {
    t.payloads == ps && t.outcome.Forwarded? && IsLayer(c, hops, associatedData, n, t.outcome.next)
  }

  lemma ReachesCons(c: Crypto, hops: seq<Hop>, associatedData: Option<bytes>, n: nat, t: Trace,
                    ps: seq<HopPayload>, p: HopPayload, q: HopPayload)
    requires Constructible(hops) && n <= |hops|
    ensures Reaches(c, hops, associatedData, n, Trace([q] + t.payloads, t.outcome), [p] + ps)
      <==> q == p && Reaches(c, hops, associatedData, n, t, ps)
  {
    hide IsLayer;
    assert ([q] + t.payloads)[0] == q && ([q] + t.payloads)[1..] == t.payloads;
    assert ([p] + ps)[0] == p && ([p] + ps)[1..] == ps;
  }

  lemma {:induction false} ForwardFrom(
    c: Crypto, route: seq<Stop>, associatedData: Option<bytes>, k: nat, n: nat, o: Packet)
    requires Constructible(SphinxHops(route)) && k <= n < |route|
    requires IsLayer(c, SphinxHops(route), associatedData, k, o)
    ensures Reaches(c, SphinxHops(route), associatedData, n,
                    Run(c, o, Secrets(route)[k..n], associatedData), Payloads(route)[k..n])
      <==> Forwardable(Payloads(route), Hmacs(c, SphinxHops(route), associatedData), k, n)
    decreases n - k
  {
    hide *;
    if k == n {
      NoneLeft(c, route, associatedData, n, o);
      return;
    }
    var p, secret, secrets := route[k].payload, route[k].secret, Secrets(route)[k..n];
    var inner := Wrapped(c, SphinxHops(route), associatedData, k + 1);
    var next := NextPacket(c, o, secret, inner.packet, inner.hmac);
    NextIsLayer(c, SphinxHops(route), associatedData, k + 1, o, secret);
    PeelSphinxHop(c, route, associatedData, k, o);
    CarriedIsSame(p);
    RouteBetween(route, k, n);
    ForwardableFrom(Payloads(route), Hmacs(c, SphinxHops(route), associatedData), k, n);
    if inner.hmac == Zeros(HMAC_LENGTH) {
      RunStops(c, o, secrets, associatedData, Carried(p));
      StoppedReachesNone(c, SphinxHops(route), associatedData, n, [Carried(p)], Payloads(route)[k..n]);
    } else {
      RunContinues(c, o, secrets, associatedData, Carried(p), next);
      ForwardFrom(c, route, associatedData, k + 1, n, next);
      ReachesCons(c, SphinxHops(route), associatedData, n, Run(c, next, secrets[1..], associatedData),
                  Payloads(route)[k + 1..n], p, Carried(p));
    }
  }

  lemma NoneLeft(c: Crypto, route: seq<Stop>, associatedData: Option<bytes>, n: nat, o: Packet)
    requires Constructible(SphinxHops(route)) && n < |route|
    requires IsLayer(c, SphinxHops(route), associatedData, n, o)
    ensures Reaches(c, SphinxHops(route), associatedData, n,
                    Run(c, o, Secrets(route)[n..n], associatedData), Payloads(route)[n..n])
    ensures Forwardable(Payloads(route), Hmacs(c, SphinxHops(route), associatedData), n, n)
  {
    hide IsLayer, Secrets, Payloads, Hmacs, SphinxHops;
  }

  lemma StoppedReachesNone(c: Crypto, hops: seq<Hop>, associatedData: Option<bytes>, n: nat,
                           stopped: seq<HopPayload>, ps: seq<HopPayload>)
    requires Constructible(hops) && n <= |hops|
    ensures !Reaches(c, hops, associatedData, n, Trace(stopped, Delivered), ps)
  {
  }

  lemma RouteBetween(route: seq<Stop>, k: nat, n: nat)
    requires k < n < |route|
    ensures Secrets(route)[k..n] != [] && Secrets(route)[k..n][0] == route[k].secret
    ensures Secrets(route)[k..n][1..] == Secrets(route)[k + 1..n]
    ensures Payloads(route)[k..n] == [route[k].payload] + Payloads(route)[k + 1..n]
  {
    hide *;
    var secrets, payloads := Secrets(route), Payloads(route);
    assert secrets[k..n][1..] == secrets[k + 1..n];
    assert payloads[k..n] == [payloads[k]] + payloads[k + 1..n];
  }

  /**
   * On every route that can be constructed, also one whose last hop runs into the filler: the first `n` hops
   * recover their payloads and pass on to hop `n` the very layer made for it, exactly when their payloads can be
   * encoded and no HMAC up to there happens to be zero.
   */
  lemma FirstHopsForward(c: Crypto, route: seq<Stop>, firstHopPublicKey: bytes, associatedData: Option<bytes>, n: nat)
    requires Constructible(SphinxHops(route)) && n < |route|
    ensures var o := Constructed(c, SphinxHops(route), firstHopPublicKey, associatedData);
      Reaches(c, SphinxHops(route), associatedData, n,
              Run(c, o, Secrets(route)[..n], associatedData), Payloads(route)[..n])
      <==> Forwardable(Payloads(route), Hmacs(c, SphinxHops(route), associatedData), 0, n)
  {
    hide Wrapped, Constructed, Run, Secrets, Payloads, SphinxHops, Hmacs, Forwardable, Reaches, Constructible;
    FirstLayer(c, SphinxHops(route), firstHopPublicKey, associatedData);
    ForwardFrom(c, route, associatedData, 0, n, Constructed(c, SphinxHops(route), firstHopPublicKey, associatedData));
    assert Secrets(route)[0..n] == Secrets(route)[..n] && Payloads(route)[0..n] == Payloads(route)[..n];
  }

  lemma {:induction false} RunFrom(c: Crypto, route: seq<Stop>, associatedData: Option<bytes>, k: nat, o: Packet)
    requires Fits(SphinxHops(route)) && Constructible(SphinxHops(route)) && k < |route|
    requires IsLayer(c, SphinxHops(route), associatedData, k, o)
    ensures Run(c, o, Secrets(route)[k..], associatedData) == Trace(Payloads(route)[k..], Delivered)
      <==> Peelable(Payloads(route), Hmacs(c, SphinxHops(route), associatedData), k)
    decreases |route| - k
  {
    hide *;
    var p, secret := route[k].payload, route[k].secret;
    var inner := Wrapped(c, SphinxHops(route), associatedData, k + 1);
    var next := NextPacket(c, o, secret, inner.packet, inner.hmac);
    NextIsLayer(c, SphinxHops(route), associatedData, k + 1, o, secret);
    LastHmacIsZero(c, SphinxHops(route), associatedData);
    PeelSphinxHop(c, route, associatedData, k, o);
    CarriedIsSame(p);
    RouteFrom(route, k);
    PeelableFrom(Payloads(route), Hmacs(c, SphinxHops(route), associatedData), k);
    if inner.hmac == Zeros(HMAC_LENGTH) {
      RunStops(c, o, Secrets(route)[k..], associatedData, Carried(p));
    } else {
      RunContinues(c, o, Secrets(route)[k..], associatedData, Carried(p), next);
      RunFrom(c, route, associatedData, k + 1, next);
      ConsTrace(p, Carried(p), Payloads(route)[k + 1..], Run(c, next, Secrets(route)[k + 1..], associatedData));
    }
  }

  /**
   * The whole-run round trip. An onion built with length-prefixed headers and peeled once by each hop passes
   * every HMAC check, yields the payloads in order, and ends with the last hop and no earlier, exactly when
   * all payloads can be encoded and no HMAC between two hops happens to be zero.
   */
  lemma OnionRoundTrip(c: Crypto, route: seq<Stop>, firstHopPublicKey: bytes, associatedData: Option<bytes>)
    requires Fits(SphinxHops(route))
    ensures Constructible(SphinxHops(route))
    ensures Run(c, Constructed(c, SphinxHops(route), firstHopPublicKey, associatedData), Secrets(route), associatedData)
      == Trace(Payloads(route), Delivered)
      <==> Peelable(Payloads(route), Hmacs(c, SphinxHops(route), associatedData), 0)
  {
    FitsIsConstructible(SphinxHops(route));
    hide Wrapped, Run;
    RunFrom(c, route, associatedData, 0, Constructed(c, SphinxHops(route), firstHopPublicKey, associatedData));
    assert Secrets(route)[0..] == Secrets(route) && Payloads(route)[0..] == Payloads(route);
  }
}
