/**
 * The header that LNBolt/BOLT4/OnionBlob.cs:63 writes has no length prefix, although the shift makes room for
 * one and peeling expects one. Which onions built like that can be peeled after all?
 */
module OnionAsWritten {
  import opened Wrappers
  import opened Bytes
  import opened CryptoTools
  import opened HopPayloads
  import opened Onion
  import opened OnionRun

  /** The HMAC that is read one byte too late: the last byte is one the shift left behind. */
  function Seen(inner: Wrap): bytes
    requires |inner.packet| == ONION_PACKET_LENGTH
  {
    inner.hmac[1..] + [inner.packet[64]]
  }

  lemma DataHopAt(route: seq<Stop>, k: nat)
    requires k < |route|
    ensures var hop, p := DataHops(route)[k], route[k].payload;
      && hop.secret == route[k].secret
      && ToDataBuffer(p) == Ok(hop.header)
      && hop.size == SphinxSize(p) + HMAC_LENGTH
      && (p == ZERO_LEGACY ==> hop.header == Zeros(32) && hop.size == 65)
  {
    if route[k].payload == ZERO_LEGACY {
      ZeroLegacyBuffer();
    }
  }

  /** The HMAC of the extended payload is right; what is read from it depends on the payload. */
  lemma PeelDataHop(c: Crypto, route: seq<Stop>, associatedData: Option<bytes>, k: nat, o: Packet)
    requires Constructible(DataHops(route)) && k < |route| && (k == |route| - 1 ==> Fits(DataHops(route)))
    requires IsLayer(c, DataHops(route), associatedData, k, o)
    ensures
      var inner := Wrapped(c, DataHops(route), associatedData, k + 1);
      route[k].payload == ZERO_LEGACY ==>
        PeelWith(c, o, route[k].secret, associatedData) == Ok(Peeled(ZERO_LEGACY,
          if Seen(inner) == Zeros(HMAC_LENGTH) then None
          else Some(NextPacket(c, o, route[k].secret, inner.packet, Seen(inner)))))
    ensures route[k].payload != ZERO_LEGACY ==>
      var r := PeelWith(c, o, route[k].secret, associatedData);
      r.Ok? ==> r.value.payload != route[k].payload
  {
    hide DataHops, Constructible, Fits, IsLayer, Wrapped, Extended, PeelWith, PlainByte;
    hide ParseSphinx, ToSphinxBuffer, ToDataBuffer, SphinxSize;
    var hops, p := DataHops(route), route[k].payload;
    var inner, header := Wrapped(c, hops, associatedData, k + 1), hops[k].header;
    DataHopAt(route, k);
    HmacMatches(c, hops, associatedData, k, o);
    var extended := Extended(c, o.hopPayloads, route[k].secret).value;
    PeelRestoresFront(c, hops, associatedData, k);
    FrontParts(extended, hops[k], inner);
    assert extended == header + extended[|header|..];
    DataBufferReadBack(p, extended[|header|..]);
    if p == ZERO_LEGACY {
      SeenHmac(extended, hops[k], inner);
      assert SphinxSize(p) == 33;
      PeelExtended(c, o, route[k].secret, associatedData, p);
      if k < |route| - 1 {
        PeelRestoresInner(c, hops, associatedData, k);
      } else {
        LastHmacIsZero(c, hops, associatedData);
      }
    } else {
      PeelParses(c, o, route[k].secret, associatedData);
    }
  }

  lemma SeenHmac(extended: bytes, hop: Hop, inner: Wrap)
    requires hop.size == 65 <= |inner.packet| == ONION_PACKET_LENGTH <= |extended|
    requires |hop.header| == 32
    requires forall i: nat :: i < hop.size ==> extended[i] == PlainByte(hop, inner, i)
    ensures extended[33..65] == Seen(inner)
  {
  }

  lemma PeelParses(c: Crypto, o: Packet, secret: bytes, associatedData: Option<bytes>)
    requires |o.hopPayloads| == ONION_PACKET_LENGTH
    ensures
      var r := PeelWith(c, o, secret, associatedData);
      r.Ok? ==> ParseSphinx(Extended(c, o.hopPayloads, secret).value) == Ok(r.value.payload)
  {
  }

  lemma PeelChecksHmac(c: Crypto, hops: seq<Hop>, associatedData: Option<bytes>, k: nat, o: Packet)
    requires Constructible(hops) && k < |hops|
    requires o.hopPayloads == Wrapped(c, hops, associatedData, k).packet
    ensures o.nextHmac == Wrapped(c, hops, associatedData, k).hmac <==> IsLayer(c, hops, associatedData, k, o)
    ensures !IsLayer(c, hops, associatedData, k, o) ==> PeelWith(c, o, hops[k].secret, associatedData) == Err(HmacMismatch)
  {
    hide Layer, FillerAfter;
  }

  ghost function Layers(c: Crypto, hops: seq<Hop>, associatedData: Option<bytes>): (ws: seq<Wrap>)
    requires Constructible(hops)
    ensures |ws| == |hops| + 1
    ensures forall k :: 0 <= k <= |hops| ==> ws[k] == Wrapped(c, hops, associatedData, k)
  {
    seq(|hops| + 1, k requires 0 <= k <= |hops| => Wrapped(c, hops, associatedData, k))
  }

  /** 32 copies of byte 64 of the packet, which is not zero. */
  ghost predicate UniformHmac(w: Wrap) {
    && |w.packet| == ONION_PACKET_LENGTH
    && w.packet[64] != 0
    && forall i :: 0 <= i < HMAC_LENGTH ==> w.hmac[i] == w.packet[64]
  }

  lemma UniformIsSeen(w: Wrap)
    requires |w.packet| == ONION_PACKET_LENGTH
    ensures UniformHmac(w) <==> Seen(w) == w.hmac && Seen(w) != Zeros(HMAC_LENGTH)
  {
    if Seen(w) == w.hmac {
      forall i | 0 <= i < HMAC_LENGTH
        ensures w.hmac[i] == w.packet[64]
      {
        SameToTheEnd(w, HMAC_LENGTH - 1 - i);
      }
      if w.packet[64] == 0 {
        assert w.hmac == Zeros(HMAC_LENGTH);
      }
    }
    if UniformHmac(w) {
      assert Seen(w) == w.hmac;
      assert w.hmac[0] != Zeros(HMAC_LENGTH)[0];
    }
  }

  lemma {:induction false} SameToTheEnd(w: Wrap, n: nat)
    requires |w.packet| == ONION_PACKET_LENGTH && Seen(w) == w.hmac && n < HMAC_LENGTH
    ensures w.hmac[HMAC_LENGTH - 1 - n] == w.packet[64]
  {
    var i := HMAC_LENGTH - 1 - n;
    assert Seen(w)[i] == if i < 31 then w.hmac[i + 1] else w.packet[64];
    if n > 0 {
      SameToTheEnd(w, n - 1);
    }
  }

  /** Everything from hop `k` on is the all-zero legacy payload, and every HMAC in between is uniform. */
  ghost predicate PeelableAnyway(payloads: seq<HopPayload>, layers: seq<Wrap>, k: nat)
    requires |payloads| <= |layers|
  {
    && (forall j :: k <= j < |payloads| ==> payloads[j] == ZERO_LEGACY)
    && (forall j :: k < j < |payloads| ==> UniformHmac(layers[j]))
  }

  lemma PeelableAnywayFrom(payloads: seq<HopPayload>, layers: seq<Wrap>, k: nat)
    requires k < |payloads| <= |layers|
    ensures PeelableAnyway(payloads, layers, k)
      <==> (payloads[k] == ZERO_LEGACY
            && (k < |payloads| - 1 ==> UniformHmac(layers[k + 1]))
            && PeelableAnyway(payloads, layers, k + 1))
    ensures PeelableAnyway(payloads, layers, |payloads|)
  {
    hide UniformHmac;
  }

  lemma {:induction false} RunFromAsWritten(c: Crypto, route: seq<Stop>, associatedData: Option<bytes>, k: nat, o: Packet)
    requires Fits(DataHops(route)) && Constructible(DataHops(route)) && k < |route|
    requires o.hopPayloads == Wrapped(c, DataHops(route), associatedData, k).packet
    ensures Run(c, o, Secrets(route)[k..], associatedData) == Trace(Payloads(route)[k..], Delivered)
      <==> (o.nextHmac == Wrapped(c, DataHops(route), associatedData, k).hmac
            && PeelableAnyway(Payloads(route), Layers(c, DataHops(route), associatedData), k))
    decreases |route| - k
  {
    hide *;
    var p, secret, secrets := route[k].payload, route[k].secret, Secrets(route)[k..];
    var inner := Wrapped(c, DataHops(route), associatedData, k + 1);
    var next := NextPacket(c, o, secret, inner.packet, Seen(inner));
    DataHopAt(route, k);
    RouteFrom(route, k);
    PeelChecksHmac(c, DataHops(route), associatedData, k, o);
    PeelableAnywayFrom(Payloads(route), Layers(c, DataHops(route), associatedData), k);
    if !IsLayer(c, DataHops(route), associatedData, k, o) {
      RunFails(c, o, secrets, associatedData);
      return;
    }
    PeelDataHop(c, route, associatedData, k, o);
    RunStartsWithPeel(c, o, secrets, associatedData);
    if p == ZERO_LEGACY {
      LastSeenIsZero(c, DataHops(route), associatedData);
      UniformIsSeen(inner);
      if Seen(inner) == Zeros(HMAC_LENGTH) {
        RunStops(c, o, secrets, associatedData, p);
      } else {
        NextFields(c, o, secret, inner.packet, Seen(inner));
        RunContinues(c, o, secrets, associatedData, p, next);
        RunFromAsWritten(c, route, associatedData, k + 1, next);
        ConsTrace(p, p, Payloads(route)[k + 1..], Run(c, next, Secrets(route)[k + 1..], associatedData));
      }
    }
  }

  lemma LastSeenIsZero(c: Crypto, hops: seq<Hop>, associatedData: Option<bytes>)
    requires Constructible(hops)
    ensures Seen(Wrapped(c, hops, associatedData, |hops|)) == Zeros(HMAC_LENGTH)
  {
  }

  lemma RunFails(c: Crypto, o: Packet, secrets: seq<bytes>, associatedData: Option<bytes>)
    requires secrets != [] && PeelWith(c, o, secrets[0], associatedData).Err?
    ensures Run(c, o, secrets, associatedData).outcome.Failed?
  {
  }

  lemma RunStartsWithPeel(c: Crypto, o: Packet, secrets: seq<bytes>, associatedData: Option<bytes>)
    requires secrets != []
    ensures var t, r := Run(c, o, secrets, associatedData), PeelWith(c, o, secrets[0], associatedData);
      if r.Err? then t.outcome.Failed? else t.payloads != [] && t.payloads[0] == r.value.payload
  {
  }

  /**
   * The onion that `ConstructOnion` builds is delivered hop by hop exactly when every payload is the all-zero
   * legacy payload and every HMAC between two hops is uniform; over one hop, when its payload is that one.
   */
  lemma AsWrittenRoundTrip(c: Crypto, route: seq<Stop>, firstHopPublicKey: bytes, associatedData: Option<bytes>)
    requires Fits(DataHops(route))
    ensures Constructible(DataHops(route))
    ensures Run(c, Constructed(c, DataHops(route), firstHopPublicKey, associatedData), Secrets(route), associatedData)
      == Trace(Payloads(route), Delivered)
      <==> PeelableAnyway(Payloads(route), Layers(c, DataHops(route), associatedData), 0)
    ensures |route| == 1 ==>
      (Run(c, Constructed(c, DataHops(route), firstHopPublicKey, associatedData), Secrets(route), associatedData)
       == Trace(Payloads(route), Delivered)
       <==> route[0].payload == ZERO_LEGACY)
  {
    hide Wrapped, Run, DataHops, Layers, UniformHmac, Fits, Constructible;
    FitsIsConstructible(DataHops(route));
    FirstLayer(c, DataHops(route), firstHopPublicKey, associatedData);
    RunFromAsWritten(c, route, associatedData, 0, Constructed(c, DataHops(route), firstHopPublicKey, associatedData));
    assert Secrets(route)[0..] == Secrets(route) && Payloads(route)[0..] == Payloads(route);
  }

  // ---------- the first hops

  /** The hops from `k` to `n` carry the all-zero legacy payload, and every HMAC up to hop `n` is uniform. */
  ghost predicate ForwardableAnyway(payloads: seq<HopPayload>, layers: seq<Wrap>, k: nat, n: nat)
    requires n < |payloads| <= |layers|
  {
    && (forall j :: k <= j < n ==> payloads[j] == ZERO_LEGACY)
    && (forall j :: k < j <= n ==> UniformHmac(layers[j]))
  }

  lemma ForwardableAnywayFrom(payloads: seq<HopPayload>, layers: seq<Wrap>, k: nat, n: nat)
    requires k < n < |payloads| <= |layers|
    ensures ForwardableAnyway(payloads, layers, k, n)
      <==> payloads[k] == ZERO_LEGACY && UniformHmac(layers[k + 1]) && ForwardableAnyway(payloads, layers, k + 1, n)
  {
    hide UniformHmac;
  }

  lemma NoneLeftAsWritten(c: Crypto, route: seq<Stop>, associatedData: Option<bytes>, n: nat, o: Packet)
    requires Constructible(DataHops(route)) && n < |route|
    requires o.hopPayloads == Wrapped(c, DataHops(route), associatedData, n).packet
    ensures Reaches(c, DataHops(route), associatedData, n,
                    Run(c, o, Secrets(route)[n..n], associatedData), Payloads(route)[n..n])
      <==> o.nextHmac == Wrapped(c, DataHops(route), associatedData, n).hmac
    ensures ForwardableAnyway(Payloads(route), Layers(c, DataHops(route), associatedData), n, n)
  {
    hide Wrapped, Secrets, Payloads, Layers, DataHops;
  }

  lemma {:induction false} ForwardFromAsWritten(
    c: Crypto, route: seq<Stop>, associatedData: Option<bytes>, k: nat, n: nat, o: Packet)
    requires Constructible(DataHops(route)) && k <= n < |route|
    requires o.hopPayloads == Wrapped(c, DataHops(route), associatedData, k).packet
    ensures Reaches(c, DataHops(route), associatedData, n,
                    Run(c, o, Secrets(route)[k..n], associatedData), Payloads(route)[k..n])
      <==> (o.nextHmac == Wrapped(c, DataHops(route), associatedData, k).hmac
            && ForwardableAnyway(Payloads(route), Layers(c, DataHops(route), associatedData), k, n))
    decreases n - k
  {
    hide *;
    if k == n {
      NoneLeftAsWritten(c, route, associatedData, n, o);
      return;
    }
    var p, secret, secrets := route[k].payload, route[k].secret, Secrets(route)[k..n];
    var inner := Wrapped(c, DataHops(route), associatedData, k + 1);
    var next := NextPacket(c, o, secret, inner.packet, Seen(inner));
    DataHopAt(route, k);
    RouteBetween(route, k, n);
    PeelChecksHmac(c, DataHops(route), associatedData, k, o);
    ForwardableAnywayFrom(Payloads(route), Layers(c, DataHops(route), associatedData), k, n);
    if !IsLayer(c, DataHops(route), associatedData, k, o) {
      RunFails(c, o, secrets, associatedData);
      NeverReaches(c, DataHops(route), associatedData, n, Run(c, o, secrets, associatedData), p, Payloads(route)[k + 1..n]);
      return;
    }
    PeelDataHop(c, route, associatedData, k, o);
    RunStartsWithPeel(c, o, secrets, associatedData);
    if p == ZERO_LEGACY {
      UniformIsSeen(inner);
      if Seen(inner) == Zeros(HMAC_LENGTH) {
        RunStops(c, o, secrets, associatedData, p);
        StoppedReachesNone(c, DataHops(route), associatedData, n, [p], Payloads(route)[k..n]);
      } else {
        NextFields(c, o, secret, inner.packet, Seen(inner));
        RunContinues(c, o, secrets, associatedData, p, next);
        ForwardFromAsWritten(c, route, associatedData, k + 1, n, next);
        ReachesCons(c, DataHops(route), associatedData, n, Run(c, next, secrets[1..], associatedData),
                    Payloads(route)[k + 1..n], p, p);
      }
    } else {
      NeverReaches(c, DataHops(route), associatedData, n, Run(c, o, secrets, associatedData), p, Payloads(route)[k + 1..n]);
    }
  }

  lemma NeverReaches(c: Crypto, hops: seq<Hop>, associatedData: Option<bytes>, n: nat, t: Trace,
                     p: HopPayload, ps: seq<HopPayload>)
    requires Constructible(hops) && n <= |hops|
    requires t.outcome.Failed? || (t.payloads != [] && t.payloads[0] != p)
    ensures !Reaches(c, hops, associatedData, n, t, [p] + ps)
  {
  }

  /**
   * On every route that `ConstructOnion` can build, one that does not fit too: the first `n` hops recover their
   * payloads and pass on the layer made for hop `n`, exactly when they carry the all-zero legacy payload and every
   * HMAC up to there is uniform.
   */
  lemma FirstHopsForwardAsWritten(
    c: Crypto, route: seq<Stop>, firstHopPublicKey: bytes, associatedData: Option<bytes>, n: nat)
    requires Constructible(DataHops(route)) && n < |route|
    ensures var o := Constructed(c, DataHops(route), firstHopPublicKey, associatedData);
      Reaches(c, DataHops(route), associatedData, n,
              Run(c, o, Secrets(route)[..n], associatedData), Payloads(route)[..n])
      <==> ForwardableAnyway(Payloads(route), Layers(c, DataHops(route), associatedData), 0, n)
  {
    hide *;
    FirstLayer(c, DataHops(route), firstHopPublicKey, associatedData);
    ForwardFromAsWritten(
      c, route, associatedData, 0, n, Constructed(c, DataHops(route), firstHopPublicKey, associatedData));
    assert Secrets(route)[0..n] == Secrets(route)[..n] && Payloads(route)[0..n] == Payloads(route)[..n];
  }
}
