/**
 * LNBolt/LNTools.cs: key derivation, key stream and exclusive or. The cryptographic primitives are not
 * modelled: every theorem is about an arbitrary choice of the functions in `Crypto`.
 */
module CryptoTools {
  import opened Wrappers
  import opened Bytes
  import BitStrings

  /** The result of HMAC-SHA256. */
  type Digest = d: bytes | |d| == 32 witness seq(32, _ => 0)

  datatype Crypto = Crypto(
    keyStream: (bytes, nat) -> byte,         // ChaCha20 under the zero nonce: key, position
    hmac: (bytes, bytes) -> Digest,          // key, data
    sharedSecret: (bytes, bytes) -> bytes,   // public key, private key
    nextPublicKey: (bytes, bytes) -> bytes)  // shared secret, ephemeral public key

  const RHO: bytes := [0x72, 0x68, 0x6f]
  const MU: bytes := [0x6d, 0x75]

  function RhoKey(c: Crypto, secret: bytes): bytes {
    (c.hmac)(RHO, secret)
  }

  function MuKey(c: Crypto, secret: bytes): bytes {
    (c.hmac)(MU, secret)
  }

  /** Byte `i` of the key stream for a shared secret. */
  function KeyByte(c: Crypto, secret: bytes, i: nat): byte {
    (c.keyStream)(RhoKey(c, secret), i)
  }

  /** `GenerateCipherStream` over `length` zero bytes, so a shorter stream is a prefix of a longer one. */
  function CipherStream(c: Crypto, secret: bytes, length: nat): (s: bytes)
    ensures |s| == length
    ensures forall i :: 0 <= i < length ==> s[i] == KeyByte(c, secret, i)
  {
    seq<byte>(length, i requires 0 <= i < length => KeyByte(c, secret, i))
  }

  /** `LNTools.Xor`: bytes beyond the second argument stay as they are. */
  function XorPrefix(target: bytes, xorData: bytes): (r: Result<bytes>)
    ensures r.Ok? <==> |xorData| <= |target|
    ensures r.Ok? ==> |r.value| == |target|
    ensures r.Ok? ==> forall i :: 0 <= i < |target| ==>
      r.value[i] == if i < |xorData| then Bytes.Xor(target[i], xorData[i]) else target[i]
  {
    if |xorData| > |target| then Err(ArgumentTooLong)
    else Ok(XorSeq(target[..|xorData|], xorData) + target[|xorData|..])
  }

  /** Bit by bit, that is a sum modulo 2. */
  lemma XorPrefixBit(target: bytes, xorData: bytes, i: nat, k: nat)
    requires i < |target| && |xorData| <= |target| && k < 8
    ensures XorPrefix(target, xorData).value[i] / Pow2(k) % 2
         == (target[i] / Pow2(k) + if i < |xorData| then xorData[i] / Pow2(k) else 0) % 2
  {
    hide Pow2;
    if i < |xorData| {
      BitStrings.XorBit(target[i], xorData[i], k);
    }
  }

  method XorArrays(target: bytes, xorData: bytes) returns (r: Result<bytes>)
    ensures r == XorPrefix(target, xorData)
  {
    var result := new byte[|target|](i requires 0 <= i < |target| => target[i]);
    if |xorData| > |target| {
      return Err(ArgumentTooLong);
    }
    for i := 0 to |xorData|
      invariant forall k :: 0 <= k < |target| ==>
        result[k] == if k < i then Bytes.Xor(target[k], xorData[k]) else target[k]
    {
      result[i] := Bytes.Xor(target[i], xorData[i]);
    }
    r := Ok(result[..]);
    assert result[..] == XorPrefix(target, xorData).value;
  }
}
