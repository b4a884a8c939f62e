# Verified models of the onion, Bech32 and node pool logic

A Dafny model of three parts of the repository, with proofs of what they are for.

- **The BOLT 4 onion** (`LNBolt`). `ConstructOnion` wraps the hops from last to first in one 1300-byte array that it
  shifts, encrypts and overwrites in place; `GenerateFiller` runs over the hops in the other direction to predict the
  bytes the shifts lose; `Peel` undoes one layer. Module `Onion` holds the specification, `OnionBlobs` the class with
  its loops, `OnionRun` and `OnionAsWritten` whole runs over a route, `OnionKeys` runs with private keys. Below them are
  the wire codecs: `BigSize`, `Tlv`, `HopPayloads`, `BigEndian`, `CryptoTools`, and beside them `ChannelIds`.
- **Bech32** (`LNBolt/BOLT11`). `Bech32Checksum` is the BCH checksum on 32-bit words, `Bech32Code` says which code it
  is, `Bech32Squasher` is the regrouping of bits on a 32-bit accumulator that overflows, `Bech32` the encoder and
  decoder, with examples in `Bech32Examples`.
- **The node pool** (`LNUnit.LND`). `NodePool` is the pool's list bookkeeping over runs of ticks, additions and
  removals, `Rebalance` the planner and the run that carries its plan out.
- `Bytes`, `BitStrings`, `Outcomes` and `Wrappers` hold what these share.

The main results hold for every input, every route and every run:

1. The filler theorem, the inversion of one layer, and the round trip of a whole run: `Onion.FillerIsTail`,
   `Onion.PeelRestoresInner`, `OnionRun.OnionRoundTrip`, `OnionKeys.OnionRoundTripByKeys`, for an arbitrary stream
   cipher, MAC and key agreement.
2. The checksum detects every burst of up to six symbols at any length and each prefix has one valid ending:
   `Bech32Checksum.BurstDetected`, `ChecksumIsUnique`; on strings, `Bech32.DamageIsDetected`. It is the code of
   BIP 173: `Bech32Code.StepDivides`.
3. The regrouping loop computes the regrouping of the unbounded bit string, and the two regroupings are inverse
   bijections: `Bech32Squasher.ByteSquasher`, `SquashRoundTrip`, `AcceptedAreSquashed`.
4. Encoding and decoding are inverse, with the exact set of inputs: `Bech32.DecodeEncode`, `Bech32.EncodeDecode`,
   `HopPayloads.SphinxRoundTrip`, `HopPayloads.ReencodingIsRead`, `Tlv.AcceptedStreams`,
   `BigSize.ParseAcceptsExactly`, `ChannelIds.TextRoundTrip`.
5. A tick conserves what the pool knows, exactly up to settings that share an endpoint: `NodePool.TicksConserve`,
   `NodePool.RunKeeps`. A rebalance plan is the first offer for each channel, and no run of it widens the gap in any
   channel, or in the pool, exactly when no listed channel is stuck: `Rebalance.PlanExact`, `Rebalance.NarrowsExactly`,
   `Rebalance.PoolNarrowsExactly`.

Imperative code of the original is a method with its loops and in-place updates, proved equal to a specification
function; the theorems are about those functions. An exception is an `Err` result.

## Where the code differs from what it is for

- `LNBolt/BOLT4/OnionBlob.cs:63` writes the payload without the length prefix that `SphinxSize` counts (line 59) and
  `ParseSphinx` expects. The layer and filler theorems do not depend on the header. The whole-run theorem is stated for
  length-prefixed headers; `OnionAsWritten` proves which onions of the code as written can be peeled: only those of
  all-zero legacy payloads.
- `LNBolt/BOLT4/OnionBlob.cs:162-165` assigns to the fields of the packet being peeled; `PeelLayer` says so.
- `LNBolt/BOLT1/TLV.cs:39` and `LNBolt/BOLT4/HopPayload.cs:106` convert a 64-bit length to `int`. A length of 2^32 is
  read as 0: a record stream is accepted although no records encode to it (`Tlv.TruncatedLengthIsAccepted`), and so is
  a payload (`HopPayloads.TruncatedPayloadIsAccepted`).
- `LNBolt/BOLT4/OnionBlob.cs:153` finds the next HMAC by writing the received payload again, and
  `LNBolt/BOLT4/HopPayload.cs:50-73` writes only three kinds of records, and always the first two. The HMAC is looked
  for in the right place exactly when the announced length is the size of the records that would be written for those
  received: `HopPayloads.SizeIsKept`, `OnionRun.PeelHop`. Writing gives back the very bytes for fewer payloads
  (`HopPayloads.ReencodingIsRead`): records in another order keep their size only
  (`HopPayloads.SwappedRecordsKeepSize`). A well-formed payload with a record of type 16 takes eight bytes and counts
  as five, so that the HMAC is read from inside the record (`HopPayloads.ExtraRecordIsRead`,
  `OnionRun.PeelExtraRecord`); one without a CLTV takes three and counts as five
  (`HopPayloads.MissingRecordIsRead`).
- BIP 173 limits lengths and the characters of the prefix; the code does not. A prefix can complete the checksum
  with fewer than six symbols behind it, and `Decode` then throws where its comment promises null:
  `Bech32.ThrowsExactly` names all these strings, `Bech32.ShortDataThrows` shows one after every beginning.
- `Decode` returns a lower-case prefix, so prefixes with upper-case letters do not survive: `Bech32.DecodeEncode`.
- `LNUnit.LND/LNDNodePool.cs:154-161` lists a node as ready without asking for its state, so that a node that is never
  active goes in and out of the list tick by tick: `NodePool.DeadNodeAlternates`.
- `LNUnit.LND/LNDNodePool.cs:121-122` removes the first pending entry with the endpoint of the connected one, which can
  be another entry: `NodePool.TicksConserve`.
- `LNUnit.LND/LNDNodePool.cs:292` has the check of the payment status commented out, and line 298 returns the hash
  whatever the status. So the statistics hold every task whose payment yields a hash, failed ones included.
- `LNUnit.LND/LNDNodePool.cs:379-380` plans an amount of -1 when both limits are below 1000 msat:
  `Rebalance.TaskExact`, and `Rebalance.NarrowsExactly` for what follows.

## Model

| member | source | states |
|---|---|---|
| Onion.FillerIsTail | LNBolt/BOLT4/OnionBlob.cs:51-124 | For every constructible route and every hop k: after the backward loop has wrapped hop k, the end of the packet is exactly what the forward filler loop held after k rounds |
| Onion.FillerTailByte | LNBolt/BOLT4/OnionBlob.cs:51-124 | The same byte by byte, by induction down the hops |
| Onion.LastPacketEndsInFiller | LNBolt/BOLT4/OnionBlob.cs:76 | The first wrapped packet ends in the whole filler |
| Onion.FillerByte | LNBolt/BOLT4/OnionBlob.cs:107-119 | One filler round applies the key stream from 1300 minus the earlier sizes on, to old filler or zero |
| Onion.WrappedByte | LNBolt/BOLT4/OnionBlob.cs:58-76 | Every wrapped byte is the plaintext byte (header, HMAC, left-over or shifted inner byte) under the key stream, except in the filler |
| Onion.WrappedBit | LNBolt/BOLT4/OnionBlob.cs:56-75 | Bit by bit, a wrapped byte is the sum modulo 2 of its plaintext and of ChaCha20 under the HMAC of the secret with key "rho" |
| Onion.FillerBit | LNBolt/BOLT4/OnionBlob.cs:104-118 | The same of every byte of a filler round |
| Onion.WrappedMac | LNBolt/BOLT4/OnionBlob.cs:57-82 | The HMAC of a layer is that of its packet and the associated data, under the HMAC of the secret with key "mu" |
| BitStrings.XorBit | LNBolt/BOLT4/OnionBlob.cs:75 | Every bit of an exclusive or is the sum of the two bits modulo 2 |
| Onion.PeelRestoresInner | LNBolt/BOLT4/OnionBlob.cs:145-160 | Layer inversion: the 1300 bytes that peeling hop k finds behind its shift are the packet of hop k+1 byte for byte, the lost end included |
| Onion.PeelRestoresFront | LNBolt/BOLT4/OnionBlob.cs:145-156 | Peeling hop k finds the header that was written and the HMAC of the next layer, on every constructible route before the last hop, and there when the route fits |
| Onion.FitsIsConstructible | LNBolt/BOLT4/OnionBlob.cs:43-86 | A route within the 1300 bytes of BOLT 4 is always constructed without an exception |
| OnionRun.PeelHop | LNBolt/BOLT4/OnionBlob.cs:145-165 | Whatever payload a hop finds in front: the HMAC is looked for right behind it exactly if the payload keeps its size, a condition on the received bytes, and then the peel returns the payload and layer k+1, or none when that HMAC is zero |
| OnionRun.PeelAtSize | LNBolt/BOLT4/OnionBlob.cs:145-165 | The same from the size of the payload that was read |
| OnionRun.PeelExtraRecord | LNBolt/BOLT4/OnionBlob.cs:151-165 | A header with a record of type 16: the peel succeeds and takes the last three header bytes for the start of the next HMAC; before the last hop the result is the sender's layer exactly when its HMAC and packet are one repetition of these bytes |
| OnionRun.EarlyIsSame | LNBolt/BOLT4/OnionBlob.cs:153-160 | Reading HMAC and packet three bytes early, from the bytes 16, 1, 1 on, gives the same ones exactly for that repetition |
| OnionRun.PeelSphinxHop | LNBolt/BOLT4/OnionBlob.cs:127-170 | Peeling layer k of a constructed onion passes the HMAC check and returns the carried payload and layer k+1, or none when that HMAC is zero |
| OnionRun.RunFrom | LNBolt/BOLT4/OnionBlob.cs:127-170 | The round trip from any layer on, by induction over the rest of the route |
| OnionRun.OnionRoundTrip | LNBolt/BOLT4/OnionBlob.cs:43-170 | With length-prefixed headers, a route that fits is delivered payload by payload, the last hop alone without a next packet, exactly when all payloads are encodable and no HMAC in between is zero |
| OnionRun.ForwardFrom | LNBolt/BOLT4/OnionBlob.cs:127-170 | The way from any layer to a later one, by induction, without the condition that the route fits |
| OnionRun.FirstHopsForward | LNBolt/BOLT4/OnionBlob.cs:43-170 | On every constructible route, one that does not fit too: the first n hops recover their payloads and hop n receives its own layer, exactly when the payloads before it are encodable and no HMAC up to it is zero |
| OnionAsWritten.PeelDataHop | LNBolt/BOLT4/OnionBlob.cs:63 | Without the length prefix, an all-zero legacy payload reads back with an HMAC read one byte late; every other payload is refused or comes back different; on every constructible route, for the last hop when it fits |
| OnionAsWritten.UniformIsSeen | LNBolt/BOLT4/OnionBlob.cs:153-156 | The HMAC read one byte late is the right one, and not zero, exactly when all its bytes equal byte 64 of the packet, which is not zero |
| OnionAsWritten.RunFromAsWritten | LNBolt/BOLT4/OnionBlob.cs:51-83 | The run over onions as they are written, from any layer on |
| OnionAsWritten.AsWrittenRoundTrip | LNBolt/BOLT4/OnionBlob.cs:43-86 | Exactly the onions of all-zero legacy payloads with uniform HMACs are delivered; a single hop exactly when its payload is that one |
| OnionAsWritten.ForwardFromAsWritten | LNBolt/BOLT4/OnionBlob.cs:51-170 | The way from any layer as written to a later one, without the condition that the route fits |
| OnionAsWritten.FirstHopsForwardAsWritten | LNBolt/BOLT4/OnionBlob.cs:43-170 | On every constructible route as written: the first n hops recover their payloads and hop n receives its own layer exactly when all of them carry the all-zero legacy payload and every HMAC up to it is uniform |
| OnionKeys.OtherDataIsRefused | LNBolt/BOLT4/OnionBlob.cs:137-143 | A layer made for one associated data is refused under another exactly if the MAC tells the two apart |
| OnionKeys.PeelKeys | LNBolt/BOLT4/OnionBlob.cs:130-132 | Both keys and neither key are errors; the private key does what the secret derived with the packet's ephemeral key does |
| OnionKeys.FirstPeel | LNBolt/BOLT4/OnionBlob.cs:43-170 | The first hop of a constructed onion, with its secret or with the private key that belongs to it, gets its payload and the next layer in a packet of version 0 with the next ephemeral key |
| OnionKeys.RunByKeysIsRun | LNBolt/BOLT4/OnionBlob.cs:127-170 | A run with private keys is the run with the secrets that the hops derive one after the other |
| OnionKeys.OnionRoundTripByKeys | LNBolt/BOLT4/OnionBlob.cs:43-170 | The whole-run round trip with the hops' private keys |
| OnionBlobs.GenerateFiller | LNBolt/BOLT4/OnionBlob.cs:88-125 | The loops over the in-place filler throw exactly where a round leaves its key stream, and otherwise compute `FillerAfter`, whatever its length, followed by zeros for payloads without a secret |
| OnionBlobs.EncryptFiller | LNBolt/BOLT4/OnionBlob.cs:113-119 | The inner loop changes exactly the bytes of the window |
| OnionBlobs.FillerRound | LNBolt/BOLT4/OnionBlob.cs:107-121 | One pass of the inner loop takes the array from the filler of k rounds to that of k+1 rounds, zero behind it |
| OnionBlobs.WrapRound | LNBolt/BOLT4/OnionBlob.cs:59-75 | Shift, header and key stream in place are one `Layer` |
| OnionBlobs.OnionBlob.Construct | LNBolt/BOLT4/OnionBlob.cs:43-86 | The in-place loop over the hops throws exactly when the filler is not generated or does not fit or some header does not fit, and otherwise builds the packet of `ConstructedOver` |
| OnionBlobs.ConstructOnion | LNBolt/BOLT4/OnionBlob.cs:43-86 | From any lists of secrets and payloads, with the header as the code writes it: exactly when it throws (no payloads, too few, one that cannot be written, no room), and the packet that is built; for lists of one length that of `Constructed` |
| OnionBlobs.OpenLayer | LNBolt/BOLT4/OnionBlob.cs:134-166 | Check, decryption and parsing equal `PeelWith` |
| OnionBlobs.OnionBlob.PeelLayer | LNBolt/BOLT4/OnionBlob.cs:127-170 | Result, next packet and the new fields of the packet itself, in every case: keys, HMAC mismatch, parse error, last hop, next hop |
| OnionBlobs.OnionBlob.constructor | LNBolt/BOLT4/OnionBlob.cs:10-17 | The fields of a packet |
| OnionBlobs.RawRoundTrip | LNBolt/BOLT4/OnionBlob.cs:19-40 | Serializing and reading back is the identity on exactly the packets whose parts have their wire lengths, whatever follows |
| OnionBlobs.RawIsKept | LNBolt/BOLT4/OnionBlob.cs:19-40 | Reading throws exactly on fewer than 1366 bytes; writing again gives the first 1366 bytes |
| OnionBlobs.RawLayout | LNBolt/BOLT4/OnionBlob.cs:32-40 | The wire layout: version, 33 bytes of the key, 1300 of payloads, 32 of the HMAC |
| CryptoTools.XorPrefix | LNBolt/LNTools.cs:95-104 | Throws exactly when the second argument is longer; otherwise combines a prefix and keeps the rest |
| CryptoTools.XorPrefixBit | LNBolt/LNTools.cs:101 | The combined bytes bit by bit, as sums modulo 2 |
| CryptoTools.XorArrays | LNBolt/LNTools.cs:95-104 | The loop computes `XorPrefix` |
| HopPayloads.SphinxRoundTrip | LNBolt/BOLT4/HopPayload.cs:38-144 | Parsing an encoded payload, with any bytes behind it, returns what the encoding carries, uses up exactly the encoding, and is the identity exactly on encodable payloads |
| HopPayloads.CarriedIsSame | LNBolt/BOLT4/HopPayload.cs:50-81 | Which payloads an encoding carries whole, and that their size stays the same |
| HopPayloads.ToSphinxBuffer | LNBolt/BOLT4/HopPayload.cs:15-48 | Its length is `SphinxSize`, and its first byte is zero exactly for the legacy form |
| HopPayloads.RecordsAscend | LNBolt/BOLT4/HopPayload.cs:57-72 | The records are written in ascending order of their types, as BOLT 1 requires |
| HopPayloads.ParseKeepsKind | LNBolt/BOLT4/HopPayload.cs:83-144 | The first byte decides the form of the parsed payload |
| HopPayloads.LegacyBytes | LNBolt/BOLT4/HopPayload.cs:75-80 | The legacy buffer is channel id, amount and CLTV, big-endian, and twelve zeros |
| HopPayloads.PaymentDataRoundTrip | LNBolt/BOLT4/HopPayload.cs:147-159 | A payment secret followed by a trimmed total is read back, for every 64-bit total |
| HopPayloads.PaymentDataExact | LNBolt/BOLT4/HopPayload.cs:147-159 | Payment data is accepted exactly from 32 to 40 bytes: 32 of the secret, the rest the total |
| HopPayloads.RecordsSet | LNBolt/BOLT4/HopPayload.cs:117-141 | A list of records is accepted exactly if each fits its type, and sets: amount, CLTV, channel id, payment data and metadata from the last records of types 2, 4, 6, 8 and 16, and the records of all other types in order |
| HopPayloads.ParsedFields | LNBolt/BOLT4/HopPayload.cs:83-144 | The same of a whole TLV payload |
| HopPayloads.ReencodingIsRead | LNBolt/BOLT4/HopPayload.cs:15-144 | Writing a payload that was read gives back the bytes exactly when: its announced length and all record lengths fit an `int`, and its records are amount, CLTV and at most one non-empty channel id, in this order and trimmed; or, legacy, its padding is zero. Then `SphinxSize` is what was read |
| HopPayloads.OwnRecordsAreWritten | LNBolt/BOLT4/HopPayload.cs:52-141 | Such records set fields that are written as the same records |
| HopPayloads.SizeIsKept | LNBolt/BOLT4/HopPayload.cs:15-144 | `SphinxSize` of a payload that was read is the size that was read exactly when it is legacy or its announced length is what its records would take when written: the last of each kind without leading zeros, amount and CLTV always |
| HopPayloads.ApplyAllSize | LNBolt/BOLT4/HopPayload.cs:52-141 | The size that is written for the fields that a list of records sets, found from the records |
| HopPayloads.ReadWithRest | LNBolt/BOLT4/HopPayload.cs:83-144 | A payload that is all of a buffer reads the same with any bytes behind it |
| HopPayloads.SwappedRecordsKeepSize | LNBolt/BOLT4/HopPayload.cs:52-141 | CLTV before amount: accepted, not written back, and of the same size |
| HopPayloads.MissingRecordIsRead | LNBolt/BOLT4/HopPayload.cs:52-141 | A payload without a CLTV is accepted and does not keep its size |
| HopPayloads.TruncatedPayloadIsAccepted | LNBolt/BOLT4/HopPayload.cs:105-108 | An announced length of 2^32 is read as 0, whatever follows: nine bytes are read and five would be written |
| HopPayloads.ExtraRecordIsRead | LNBolt/BOLT4/HopPayload.cs:122-141 | A payload with records 2, 4 and 16 is accepted, whatever follows, and neither written back nor of the same size |
| HopPayloads.TlvDataBufferIsRefused | LNBolt/BOLT4/HopPayload.cs:50-81 | A TLV payload without its length prefix never parses |
| HopPayloads.DataBufferReadBack | LNBolt/BOLT4/HopPayload.cs:50-144 | Without a prefix exactly the all-zero legacy payload reads back as itself, when a byte follows |
| HopPayloads.ConcatRecords | LNBolt/BOLT4/HopPayload.cs:52-73 | The TLV branch writes the encoded records of amount, CLTV and channel id |
| HopPayloads.FillLegacyBuffer | LNBolt/BOLT4/HopPayload.cs:75-80 | The buffer filled in place, and the exception for long channel ids |
| HopPayloads.WriteDataBuffer | LNBolt/BOLT4/HopPayload.cs:50-81 | Both branches against `ToDataBuffer` |
| HopPayloads.CollectRecords | LNBolt/BOLT4/HopPayload.cs:108-115 | The record loop ends and computes `Tlv.ParseStream` |
| HopPayloads.ReadSphinx | LNBolt/BOLT4/HopPayload.cs:83-144 | Both branches with the field loop, and every exception, against `ParseSphinx` |
| Tlv.ParseEncode | LNBolt/BOLT1/TLV.cs:26-42 | An encoded record parses to itself, whatever bytes follow |
| Tlv.SmallRecord | LNBolt/BOLT1/TLV.cs:26-31 | A small record is written as type, length, value |
| Tlv.ParseSize | LNBolt/BOLT1/TLV.cs:14-42 | `TLVSize` of a parsed record never passes the end of its buffer |
| Tlv.ParseShape | LNBolt/BOLT1/TLV.cs:14-42 | The re-encoded record is the front of its buffer exactly when its length field fits an `int` |
| Tlv.ParseStreamEncodeAll | LNBolt/BOLT4/HopPayload.cs:108-115 | The loop returns every list of records from its encoding |
| Tlv.ReencodingIsStream | LNBolt/BOLT4/HopPayload.cs:108-115 | Re-encoding what the loop returned gives the stream exactly when no length field was truncated |
| Tlv.AcceptedStreams | LNBolt/BOLT4/HopPayload.cs:108-115 | A stream is a concatenation of encodings exactly when it is accepted with all lengths in range, and then of one list only |
| Tlv.TruncatedLengthIsAccepted | LNBolt/BOLT1/TLV.cs:39 | The accepted stream `01 ff 0000000100000000 00` is not an encoding of any records |
| BigSize.ParseEncoding | LNBolt/BOLT1/BigSize.cs:8-64 | Every 64-bit value is read back from its encoding, whatever bytes follow |
| BigSize.ParseIsEncoding | LNBolt/BOLT1/BigSize.cs:30-64 | An accepted buffer starts with the canonical encoding of the result |
| BigSize.ParseAcceptsExactly | LNBolt/BOLT1/BigSize.cs:30-64 | A buffer is read as v exactly when it starts with the encoding of v |
| BigSize.PrefixFree | LNBolt/BOLT1/BigSize.cs:8-24 | No encoding is a prefix of another |
| BigSize.ShortVectors | LNBolt/BOLT1/BigSize.cs:8-64 | The vectors of BOLT 1 at the ends of the one- and three-byte ranges, with their errors |
| BigSize.FourByteVectors | LNBolt/BOLT1/BigSize.cs:8-64 | Those of the five-byte range |
| BigSize.EightByteVectors | LNBolt/BOLT1/BigSize.cs:8-64 | Those of the nine-byte range |
| BigEndian.TrimZeros | LNBolt/BigEndinessExtentions.cs:38-47 | Removes exactly the leading zeros |
| BigEndian.TrimmedRoundTrip | LNBolt/BigEndinessExtentions.cs:23-36 | Untrimming a trimmed 64-, 32- or 16-bit integer returns it |
| BigEndian.TrimmedIsUnique | LNBolt/BigEndinessExtentions.cs:23-47 | The trimmed form is the shortest form and the one without a leading zero |
| BigEndian.FromTrimmedValue | LNBolt/BigEndinessExtentions.cs:64-91 | Untrimming keeps the value of every shorter buffer and throws exactly on longer ones |
| BigEndian.TrimZerosLoop | LNBolt/BigEndinessExtentions.cs:38-47 | The counting loop computes `TrimZeros` |
| BigEndian.UntrimBuffer | LNBolt/BigEndinessExtentions.cs:64-73 | The copy into a zero buffer computes `Untrim` |
| BigEndian.CopyWithin | LNBolt/BigEndinessExtentions.cs:93-102 | For every target and start, negative ones too: what is moved, what stays, and exactly when it throws |
| BigEndian.MovedIsShifted | LNBolt/BigEndinessExtentions.cs:93-102 | From start 0 it is the right shift of the onion |
| ChannelIds.ChannelIdRoundTrip | LNBolt/LNTools.cs:134-154 | Unpacking and packing returns every 64-bit channel id |
| ChannelIds.ScidRoundTrip | LNBolt/LNTools.cs:134-154 | Packing and unpacking returns the fields exactly when block and transaction have 24 bits |
| ChannelIds.PackInRange | LNBolt/LNTools.cs:140 | Shifts and bitwise or add up fields that are in range |
| ChannelIds.DecimalRoundTrip | LNBolt/LNTools.cs:138-158 | Decimal printing and reading returns every number |
| ChannelIds.SplitCuts | LNBolt/LNTools.cs:136-137 | 'x' and ':' cut any text in two, and nothing else does; empty entries leave nothing |
| ChannelIds.SplitNothing | LNBolt/LNTools.cs:136-137 | Text without either is one entry, or none when it is empty |
| ChannelIds.SplitPrinted | LNBolt/LNTools.cs:136-158 | A printed id splits into its three numbers, at 'x' and at ':' |
| ChannelIds.TextRoundTrip | LNBolt/LNTools.cs:134-159 | Unpacking, printing, splitting, reading and packing returns every 64-bit channel id, with 'x' and with ':' |
| ChannelIds.ChannelIdExample | LNBolt/LNTools.cs:134-159 | 771399766003482624 is 701584x2165x0 |
| ChannelIds.FieldsRoundTrip | LNBolt/LNTools.cs:134-159 | The same from the fields, exactly for 24-bit block and transaction |
| Bech32Checksum.StepLow | LNBolt/BOLT11/Bech32.cs:59-69 | A step is linear in the low 25 bits of the state |
| Bech32Checksum.StepInjective | LNBolt/BOLT11/Bech32.cs:38-69 | A step with a given symbol is injective on 30-bit states; rests on the generator constants |
| Bech32Code.FeedbackIsMultiple | LNBolt/BOLT11/Bech32.cs:38-68 | The generator words are the code of BIP 173: the feedback of a symbol is its multiple of the polynomial with coefficients 29, 22, 20, 21, 29, 18 over the field with x^5 + x^3 + 1 |
| Bech32Code.StepDivides | LNBolt/BOLT11/Bech32.cs:64-68 | A step of the checksum is a step of the division by that polynomial, coefficient by coefficient |
| Bech32Code.TimesIsZero | LNBolt/BOLT11/Bech32.cs:38 | The multiplication has no divisors of zero |
| Bech32Checksum.FoldLow | LNBolt/BOLT11/Bech32.cs:59-72 | Up to six symbols are added to the state of zero symbols unreduced |
| Bech32Checksum.PackInjective | LNBolt/BOLT11/Bech32.cs:59-72 | Six symbols pack into 30 bits without loss |
| Bech32Checksum.FoldInjective | LNBolt/BOLT11/Bech32.cs:59-72 | Any further symbols keep different states different |
| Bech32Checksum.BurstDetected | LNBolt/BOLT11/Bech32.cs:59-72 | Two sequences that differ in a window of at most six symbols have different checksums, at any length and position |
| Bech32Checksum.ChecksumCompletes | LNBolt/BOLT11/Bech32.cs:153-222 | Appending the checksum of any five-bit sequence makes it verify |
| Bech32Checksum.ChecksumIsUnique | LNBolt/BOLT11/Bech32.cs:153-222 | Among all six-symbol endings exactly that one verifies |
| Bech32Checksum.AddGenerators | LNBolt/BOLT11/Bech32.cs:66-68 | The bit loop adds the generators of the bits that are set |
| Bech32Checksum.ShortNeverPasses | LNBolt/BOLT11/Bech32.cs:59-72 | One to five symbols never have checksum 1 |
| Bech32Checksum.ComputePolyMod | LNBolt/BOLT11/Bech32.cs:59-72 | The loops compute `PolyMod` |
| Bech32Checksum.ComputeChecksum | LNBolt/BOLT11/Bech32.cs:208-221 | The six-byte array is `Checksum` |
| Bech32Squasher.ByteSquasher | LNBolt/BOLT11/Bech32.cs:284-322 | With its 32-bit accumulator that is never masked, the loop computes the regrouping of the unbounded bit string in both directions, and null exactly where that is undefined |
| Bech32Squasher.EmitWhole | LNBolt/BOLT11/Bech32.cs:302-306 | The inner loop moves whole symbols from the stash to the output |
| Bech32Squasher.AccumulateWraps | LNBolt/BOLT11/Bech32.cs:300 | The accumulator stays the bit string modulo 2^32, as a signed number |
| Bech32Squasher.FieldWraps | LNBolt/BOLT11/Bech32.cs:305 | The bits taken out of the wrapped accumulator are those of the bit string |
| Bech32Squasher.Emit | LNBolt/BOLT11/Bech32.cs:302-306 | Emitting one symbol keeps output and stash together equal to the bit string |
| Bech32Squasher.PadField | LNBolt/BOLT11/Bech32.cs:309-314 | The padding symbol holds the bits left over, followed by zeros |
| Bech32Squasher.Bytes8to5Value | LNBolt/BOLT11/Bech32.cs:269-272 | The squashed symbols spell the bits of the bytes, followed by zeros to a multiple of five |
| Bech32Squasher.SquashRoundTrip | LNBolt/BOLT11/Bech32.cs:269-277 | To five bits and back is the identity on all byte sequences |
| Bech32Squasher.UnsquashRoundTrip | LNBolt/BOLT11/Bech32.cs:269-277 | To bytes and back is the identity on accepted symbols |
| Bech32Squasher.AcceptedAreSquashed | LNBolt/BOLT11/Bech32.cs:269-319 | Exactly the squashed byte sequences are accepted |
| Bech32.SymbolRoundTrip | LNBolt/BOLT11/Bech32.cs:35-53 | Every character that decodes is, in lower case, the alphabet's at that position |
| Bech32.CharRoundTrip | LNBolt/BOLT11/Bech32.cs:35-53 | Every position is read back from its character, which is no separator and no capital |
| Bech32.ChecksumVerifies | LNBolt/BOLT11/Bech32.cs:153-222 | For every prefix and data exactly one ending passes `VerifyChecksum`, that of `CreateChecksum` |
| Bech32.DecodeEncode | LNBolt/BOLT11/Bech32.cs:76-202 | Decoding an encoding returns prefix and data exactly for prefixes without capitals, separators in the prefix included |
| Bech32.MixedCaseExact | LNBolt/BOLT11/Bech32.cs:136-151 | Mixed case is a lower-case and an upper-case letter in one string |
| Bech32.DecodedPrefix | LNBolt/BOLT11/Bech32.cs:76-133 | No prefix and no data come out for mixed case or without a separator; otherwise the prefix is what stands before the last separator |
| Bech32.EncodeDecode | LNBolt/BOLT11/Bech32.cs:76-202 | A string decodes to a prefix and data exactly when it is not of mixed case and its lower-case form is their encoding |
| Bech32.DamageIsDetected | LNBolt/BOLT11/Bech32.cs:76-202 | Up to six characters in a row behind the separator replaced by any others: the string decodes to data under the same prefix only if nothing but letter case has changed; without a new separator the prefix stays and nothing is thrown, with one the prefix is longer |
| Bech32.ThrowsExactly | LNBolt/BOLT11/Bech32.cs:76-133 | `Decode` throws exactly for strings of one case whose checksum passes with fewer than six symbols behind the last separator |
| Bech32.EndingThrows | LNBolt/BOLT11/Bech32.cs:129-132 | With fewer than six symbols, that is exactly when the last six symbols of expanded prefix and data are the checksum of those before |
| Bech32.ShortDataThrows | LNBolt/BOLT11/Bech32.cs:129-132 | After every stem without capitals and for every number of data symbols below six, exactly one way to complete prefix and data makes `Decode` throw |
| Bech32Examples.Shortest | LNBolt/BOLT11/Bech32.cs:76-202 | "A12UEL5L" decodes to "a" and no data, which is encoded as "a12uel5l" |
| Bech32Examples.Alphabet | LNBolt/BOLT11/Bech32.cs:76-133 | "abcdef1", the whole alphabet and "mqqqxw" decode to "abcdef" and the 32 symbols in order |
| Bech32Examples.LongestData | LNBolt/BOLT11/Bech32.cs:76-133 | "11", 82 times "q" and "c8247j" decode to "1" and 51 zero bytes |
| Bech32.ExpandHrp | LNBolt/BOLT11/Bech32.cs:225-249 | The two loops write the expanded prefix |
| Bech32.ReadSymbols | LNBolt/BOLT11/Bech32.cs:162-180 | The loop reads symbols, null exactly for a character outside the alphabet |
| Bech32.WriteSymbols | LNBolt/BOLT11/Bech32.cs:251-267 | The loop writes characters, null exactly for a byte of more than five bits |
| Bech32.EncodeString | LNBolt/BOLT11/Bech32.cs:183-222 | The calls of the encoder put together are `Encode`, and never null |
| Bech32.DecodeString | LNBolt/BOLT11/Bech32.cs:76-151 | The calls of the decoder put together are `Decode`, in every branch |
| NodePool.TicksConserve | LNUnit.LND/LNDNodePool.cs:107-131 | What a test counts among connected and pending entries is conserved by every tick exactly when pending entries of one endpoint are alike to it |
| NodePool.AwaitedKept | LNUnit.LND/LNDNodePool.cs:113-122 | `First` finds an entry after every successful connection, with duplicate endpoints too |
| NodePool.ConnectFromKeeps | LNUnit.LND/LNDNodePool.cs:107-131 | Whatever connections succeed, the loop over the copy conserves the count |
| NodePool.TickReady | LNUnit.LND/LNDNodePool.cs:142-161 | After a tick exactly those connected nodes are ready that were not ready before or are active; no duplicates, no others |
| NodePool.TickReadyOrder | LNUnit.LND/LNDNodePool.cs:148-161 | The order of the ready list after a tick: what stays keeps its order, new nodes follow in the order of the nodes |
| NodePool.DeadNodeAlternates | LNUnit.LND/LNDNodePool.cs:148-161 | Over every run that does not remove it, a connected node that is never active changes between ready and not ready at every tick |
| NodePool.StepKeeps | LNUnit.LND/LNDNodePool.cs:107-161 | Each step keeps the lists valid and what a test counts up to what was added or removed; a tick, if the test takes pending entries of one endpoint alike |
| NodePool.TickConnects | LNUnit.LND/LNDNodePool.cs:107-131 | A tick connects, in order, exactly the pending entries whose connection succeeds; with different endpoints the others go on waiting, in order |
| NodePool.RunKeeps | LNUnit.LND/LNDNodePool.cs:107-419 | Over every run of ticks, additions and removals: ready nodes are distinct connected nodes, and what a test counts that takes entries of one endpoint alike changes only by additions and removals |
| NodePool.RunKeepsEndpoints | LNUnit.LND/LNDNodePool.cs:107-419 | So the entries of each endpoint do, in every run |
| NodePool.LNDNodePool.constructor | LNUnit.LND/LNDNodePool.cs:47-61 | A new pool is valid, has the configured lists and nothing ready |
| NodePool.LNDNodePool.First | LNUnit.LND/LNDNodePool.cs:122 | The first pending entry with an endpoint, or none |
| NodePool.LNDNodePool.SetupNotYetInitializedNodes | LNUnit.LND/LNDNodePool.cs:107-131 | The loop over the copy with its in-place removals, against `ConnectFrom` |
| NodePool.LNDNodePool.UpdateReadyStates | LNUnit.LND/LNDNodePool.cs:142-161 | One tick, against `Tick`, with the exact new ready list |
| NodePool.LNDNodePool.AddNode | LNUnit.LND/LNDNodePool.cs:416-419 | Appends to the pending entries and changes nothing else |
| NodePool.LNDNodePool.RemoveNode | LNUnit.LND/LNDNodePool.cs:406-410 | Takes the node out of both lists and changes nothing else |
| Rebalance.PlanExact | LNUnit.LND/LNDNodePool.cs:314-387 | The nested loops with their skips plan exactly the first offer for each channel point, and one task for each at most |
| Rebalance.OffersExact | LNUnit.LND/LNDNodePool.cs:319-371 | The offers are the tasks of the channels that a member lists to a member, and no others |
| Rebalance.PlannedMembers | LNUnit.LND/LNDNodePool.cs:235-236 | Both ends of a planned task are members, so that looking them up never fails |
| Rebalance.LimitsInSats | LNUnit.LND/LNDNodePool.cs:375-378 | The limits in satoshi against the millisatoshi that the channel reports, for every amount |
| Rebalance.TaskExact | LNUnit.LND/LNDNodePool.cs:333-384 | Which channels get a task, on the channel's own fields; an amount that neither side lets through is cut to one below the largest that does, others are what one side has over half the capacity; an amount is negative exactly when both limits are below 1000 msat and there is something to move |
| Rebalance.TaskEnds | LNUnit.LND/LNDNodePool.cs:341-368 | The richer side pays the poorer one |
| Rebalance.TaskHalves | LNUnit.LND/LNDNodePool.cs:333-384 | A task leaves the payer half the capacity and the payee at most the other half, the payer exactly half when no limit cut it, and never widens the gap unless its amount is negative |
| Rebalance.AfterExact | LNUnit.LND/LNDNodePool.cs:231-249 | After any set of successful payments each channel has seen its own task or nothing |
| Rebalance.SettledAt | LNUnit.LND/LNDNodePool.cs:233-249 | The recorded tasks by index: one for each payment with a hash, after those before it, and no others |
| Rebalance.RunKeeps | LNUnit.LND/LNDNodePool.cs:231-249 | Whatever succeeds, each channel keeps its ends and its sum, and a payer keeps half of the capacity |
| Rebalance.NarrowsByPlan | LNUnit.LND/LNDNodePool.cs:231-387 | No set of successes widens the gap of any channel, exactly when no planned amount is negative |
| Rebalance.NegativeIsStuck | LNUnit.LND/LNDNodePool.cs:333-384 | An amount is negative exactly when some listed channel is stuck: more than half on one side, an imbalance from the threshold on, and limits below one satoshi |
| Rebalance.NarrowsExactly | LNUnit.LND/LNDNodePool.cs:231-387 | No set of successes widens the gap of any channel, exactly when no listed channel is stuck |
| Rebalance.PoolNarrowsExactly | LNUnit.LND/LNDNodePool.cs:231-387 | No run adds to the gaps of any channels of the pool together, exactly when no listed channel is stuck |
| Rebalance.AdjustLimits | LNUnit.LND/LNDNodePool.cs:373-384 | Changes the task's amount or refuses it |
| Rebalance.ConsiderChannel | LNUnit.LND/LNDNodePool.cs:330-369 | The body of the inner loop against `Consider`; earlier tasks stay as they are |
| Rebalance.GetInteralNodeEvenBalaceTasks | LNUnit.LND/LNDNodePool.cs:314-387 | The nested loops compute `Plan`, with new task objects, one for each channel point |
| Rebalance.SettleTasks | LNUnit.LND/LNDNodePool.cs:233-249 | The loop records exactly the tasks whose payment yields a hash, in order, each with the hash of its own payment |
| Rebalance.RebalanceNodePool | LNUnit.LND/LNDNodePool.cs:224-252 | The statistics hold the tasks of the plan whose payment yields a hash, each with its own; their number and, modulo 2^64, the sum of their amounts are the totals |

## Left out

- ChaCha20, HMAC-SHA256 and the curve functions are parameters without properties; their own exceptions are not modelled, and the shared secret and the next ephemeral key (LNBolt/BOLT4/OnionBlob.cs:172-176) are arbitrary functions, so that nothing relates what a hop derives to what the sender computes: `OnionKeys` assumes that they agree.
- OnionBlobs.ConstructOnion: of onions with fewer secrets than payloads nothing is stated beyond the packet that is built.
- OnionRun.OnionRoundTrip: is about length-prefixed headers, which the code does not write (`OnionAsWritten` is about those it writes), and needs a route that fits; of a route whose last hop runs into the filler `OnionRun.FirstHopsForward` states the way up to the last hop, whose own bytes are overwritten.
- HopPayloads.SphinxRoundTrip: buffers are limited to the lengths of .NET arrays.
- Bech32Squasher.ByteSquasher: only the width pairs 8 to 5 and 5 to 8, the only ones that are called.
- Bech32: strings are ASCII; other characters index outside the inverse table, and case mapping depends on the culture.
- Bech32.DamageIsDetected: a replacement that contains the separator may decode to data under a longer prefix, or throw; the checksum then covers other symbols.
- Two of the five strings that BIP 173 lists as valid, the one with a prefix of 83 characters and the one that starts with "split1"; `Bech32.EncodeDecode` covers them, without their checksums being worked out.
- The four-error guarantee of BIP 173 up to 89 characters, which rests on an exhaustive search over error patterns.
- ChannelIds.TextRoundTrip: parsing covers digits without signs or white space; the trimming of entries is not modelled.
- NodePool: connections are values with an identity number; a tick, an addition and a removal are atomic. Timers, the quick startup mode, `TotalNodes`, logging, remote calls and thread races are not modelled.
- Rebalance.NarrowsExactly: both ends of a channel report the same limits, each as its local and remote ones.
- Rebalance: balances and capacities are amounts from 0 to 2^63-1 as nodes report them; a failing channel listing, a change of the ready list during a run and `SaveRebalanceAction` are not modelled.
- Rebalance.RebalanceNodePool: what payments succeed is an input; that a payment moves its amount over its own channel is the assumption behind `After`.
- `DeriveSharedSecret`, `ECKeyPair`, `PayReq`, the Podcasting decoder, `LNUnitBuilder`, Docker, gRPC and the interceptors.
