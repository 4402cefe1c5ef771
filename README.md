# Yojimbo packet processor and match-token issuer, in Dafny

This project models two pieces of the yojimbo client/server network library.

- **The packet processor** (`PacketProcessor`, yojimbo_packet_processor.cpp). It frames packets for the wire.
  - An unencrypted frame is a zero prefix byte followed by the serialised packet. It is built in the processor's packet buffer.
  - An encrypted frame starts with a prefix byte whose bit 7 (`ENCRYPTED_PACKET_FLAG`) is set. The compressed sequence number follows, then the AEAD ciphertext of the serialised packet. The nonce is the eight bytes of the sequence number. This frame is built in the processor's scratch buffer.
  - Reading dispatches on bit 7 of byte 0. On the encrypted path it checks the key and the minimum length, then decrypts, then deserialises against the encrypted-channel whitelist. The unencrypted path deserialises against the unencrypted-channel whitelist.
  - Every path ends in exactly one `PACKET_PROCESSOR_ERROR_*` code, stored in `m_error`.
- **The match-token issuer** (`Matcher`, client_server.cpp). It rejects client id 0. Otherwise it hands out one server address and the two session keys of a generated connect token. It then encrypts that token under its nonce counter `m_nonce`, and the counter advances only when encryption succeeds.

Both are modelled as classes; their methods change their fields and the caller's buffers in place.

- `PacketProcessing.PacketProcessor` has the two buffers as `array<byte>` fields and `m_error` as a mutable field.
- `ClientServer.Matcher` has the `nonce` field and a ghost history `issued` of the nonces handed out.

The library code the processor and the issuer call, whose bodies are not part of this model, becomes function-valued fields of the datatypes `Collaborators` and `TokenIssuer`:

- the sequence codec (`CompressPacketSequence`, `GetPacketSequenceBytes`, `DecompressPacketSequence`);
- `Encrypt`/`Decrypt`;
- the packet serialiser `yojimbo::WritePacket`/`yojimbo::ReadPacket` (with the packet factory behind it);
- `GenerateConnectToken` and `EncryptConnectToken`.

Their `Valid()` predicates state the only facts the model relies on:

- the codec announces at most 8 sequence bytes, and the announced count and the decompressed sequence survive the prefix byte's bit 7 being set;
- a ciphertext is `MacBytes` longer than its plaintext, and decryption under the same nonce and key inverts encryption;
- the serialiser returns 1 to `bufferSize` bytes with its prefix bytes zero, reads back what it wrote when the type is allowed, rejects what it wrote when the type is not, and never returns a packet whose type the whitelist excludes;
- a generated token carries `KeyBytes`-long keys, and every encrypted token has the same fixed length.

`FrameSizeFinding.WitnessCollaborators` is one collaborator set that meets all of these facts (`WitnessCollaboratorsValid`), so the processor's preconditions can be met.

The pure functions `WriteFrame` and `ReadFrame` describe the frame format and every error path. The methods' postconditions tie each call's result, `m_error` and both buffers to them. The round-trip and whitelist properties are proved about the functions.

## Model

| member | source | states |
|---|---|---|
| `PacketProcessing.RoundUpToMultipleOf4` | yojimbo_packet_processor.cpp:26-29 | `m_maxPacketSize` is the least multiple of 4 that is at least `maxPacketSize`: divisible by 4, at least the input, and less than the input plus 4 |
| `PacketProcessing.AbsoluteMaxPacketSize` | yojimbo_packet_processor.cpp:31-34 | the buffer size is the rounded size plus 9 prefix bytes plus `MacBytes`; it is never below the size line 34 computes, and equals it exactly when `maxPacketSize` is a multiple of 4 |
| `PacketProcessing.PacketProcessor.constructor` | yojimbo_packet_processor.cpp:18-40 | the error starts as NONE, `m_maxPacketSize` is the rounded size, and two distinct fresh buffers are allocated, both of the corrected size `m_maxPacketSize + 9 + MacBytes` (line 34 computes it from the unrounded size; see Findings) |
| `PacketProcessing.WithEncryptedFlag` | yojimbo_packet_processor.cpp:51-67 | `prefix \|= ENCRYPTED_PACKET_FLAG` sets bit 7 and keeps bits 0-6 |
| `PacketProcessing.EncryptedPrefix` | yojimbo_packet_processor.cpp:65-68 | the encrypted prefix is the flagged prefix byte plus the compressed sequence: 1 to 9 bytes, bit 7 set. The reader's `GetPacketSequenceBytes` gives back its length and `DecompressPacketSequence` gives back the sequence |
| `PacketProcessing.WriteFrame` | yojimbo_packet_processor.cpp:53-123 | a write fails with exactly one of KEY_IS_NULL, WRITE_PACKET_FAILED or ENCRYPT_FAILED. KEY_IS_NULL happens exactly when encryption is asked for without a key, and ENCRYPT_FAILED only when encrypting. A frame is non-empty and its bit 7 equals `encrypt`. An unencrypted frame is at most `m_maxPacketSize`; every frame is at most `m_maxPacketSize + 9 + MacBytes`. With a key, an encrypted write succeeds exactly when serialising and `Encrypt` both succeed, and WRITE_PACKET_FAILED is reported exactly when serialising fails (so ENCRYPT_FAILED exactly when `Encrypt` fails). An encrypted frame is the prefix followed by the ciphertext of the serialised packet, `prefixBytes + |packet| + MacBytes` long. An unencrypted write succeeds exactly when serialising succeeds, and its frame is the serialised packet behind a zero prefix byte |
| `PacketProcessing.PacketProcessor.WritePacket` | yojimbo_packet_processor.cpp:53-123 | at the end of a call, `m_error` is NONE with a non-null buffer, or the error `WriteFrame` reports with NULL. On success the buffer is the scratch buffer when encrypting and the packet buffer otherwise; its first `packetBytes` bytes are the frame, and `packetBytes` is at most the buffer size. A missing key leaves both buffers untouched. The serialised packet is left in the packet buffer. An encrypted write leaves the prefix (and, on success, the whole frame) at the front of the scratch buffer |
| `PacketProcessing.ReadFrame` | yojimbo_packet_processor.cpp:125-203 | `encrypted` is bit 7 of byte 0. A read ends in exactly one of NONE, KEY_IS_NULL, PACKET_TOO_SMALL, DECRYPT_FAILED or READ_PACKET_FAILED, and a packet is returned exactly when the error is NONE. KEY_IS_NULL happens exactly for an encrypted frame without a key. PACKET_TOO_SMALL happens exactly for an encrypted frame, with a key, of at most `1 + sequenceBytes + MacBytes` bytes. `sequence` is left untouched exactly on those two errors, and an unencrypted frame reports sequence 0. Past the size check, `sequence` is `DecompressPacketSequence` of the prefix, DECRYPT_FAILED is reported exactly when `Decrypt` fails, and the packet is what `yojimbo::ReadPacket` makes of the plaintext with the encrypted whitelist (so READ_PACKET_FAILED exactly when it returns NULL). An unencrypted frame's packet is what `yojimbo::ReadPacket` makes of the frame with prefix 1 and the unencrypted whitelist. A returned packet's type is in the whitelist of the channel it arrived on |
| `PacketProcessing.PacketProcessor.ReadPacket` | yojimbo_packet_processor.cpp:125-203 | for any non-empty frame, `m_error`, the returned packet, `sequence` and `encrypted` are what `CheckedReadFrame` gives. That is `ReadFrame`'s outcome, except that an encrypted frame longer than `m_absoluteMaxPacketSize + 1 + MacBytes` is rejected before decryption (the corrected line 156, see Findings). The plaintext of a frame that decrypts is left at the front of the scratch buffer, which it always fits; otherwise the scratch buffer is untouched |
| `PacketProcessing.EncryptedRoundTrip` | yojimbo_packet_processor.cpp:65-170 | reading an encrypted `WritePacket(p, s, true, k)` frame with key `k` yields `p`, `encrypted == true`, sequence `s` and no error, provided `p`'s type is on the encrypted whitelist. Both sides use the 8 bytes of `s` as the nonce |
| `PacketProcessing.UnencryptedRoundTrip` | yojimbo_packet_processor.cpp:105-201 | reading an unencrypted frame yields the written packet, `encrypted == false` and sequence 0 with any key, provided the packet's type is on the unencrypted whitelist |
| `PacketProcessing.EncryptedUnlistedTypeRejected` | yojimbo_packet_processor.cpp:162-175 | an encrypted frame whose packet type is not on the encrypted whitelist reads back as READ_PACKET_FAILED with its sequence and no packet |
| `PacketProcessing.UnencryptedUnlistedTypeRejected` | yojimbo_packet_processor.cpp:180-198 | a clear frame whose packet type is not on the unencrypted whitelist reads back as READ_PACKET_FAILED with sequence 0 and no packet, under any key |
| `PacketProcessing.CheckedReadFrame` | yojimbo_packet_processor.cpp:144-156 | with a key, an encrypted frame that passes the size check but is longer than `absoluteMaxPacketSize + 1 + MacBytes` is rejected with DECRYPT_FAILED and its sequence before decryption. Every other frame reads exactly as `ReadFrame` reads it. Whenever the frame is decrypted, with no bound on its length, the plaintext is at most `absoluteMaxPacketSize` bytes |
| `PacketProcessing.PlaintextFitsScratchBuffer` | yojimbo_packet_processor.cpp:144-156 | an encrypted frame at most `m_absoluteMaxPacketSize + 1 + MacBytes` long that decrypts has a plaintext of at most `m_absoluteMaxPacketSize` bytes, so it fits the scratch buffer |
| `Bytes.NonceBytesOf` | yojimbo_packet_processor.cpp:87-91 | the nonce `(uint8_t*) &sequence` is the 8-byte little-endian image of the sequence, and the sequence can be recovered from it |
| `FrameSizeFinding.AsWrittenFrameExceedsBuffer` | yojimbo_packet_processor.cpp:26-99 | with collaborators that meet every contract and `maxPacketSize = 1`, an encrypted write produces a 29-byte frame. The buffer line 34 sizes is only 26 bytes |
| `FrameSizeFinding.AsWrittenFrameFitsWhenPrefixLeavesRoom` | yojimbo_packet_processor.cpp:26-99 | with the buffers sized as line 34 sizes them, every unencrypted frame fits, and an encrypted frame fits when its prefix plus the bytes rounding added (`m_maxPacketSize - maxPacketSize`) is at most 9 |
| `FrameSizeFinding.OversizeFrameOverrunsScratchBuffer` | yojimbo_packet_processor.cpp:144-156 | with collaborators that meet every contract, a 55-byte frame sealed under the reader's key passes the size check and decrypts to a 30-byte plaintext, longer than the 29-byte scratch buffer of a processor configured for 4 bytes. `CheckedReadFrame` rejects the same frame with DECRYPT_FAILED |
| `FrameSizeFinding.FrameFitsAbsoluteMax` | yojimbo_packet_processor.cpp:83-99 | with buffers sized from the rounded size, every frame `WritePacket` builds fits them, as line 99 asserts |
| `ClientServer.Matcher.constructor` | client_server.cpp:45-48 | a new matcher has `m_nonce == 0` and has issued no nonce |
| `ClientServer.Matcher.RequestMatch` | client_server.cpp:50-74 | client id 0 returns false with the nonce and every output untouched. Otherwise `numServerAddresses` becomes 1, `serverAddresses[0]` becomes (`::1`, `ServerPort`), and both keys are copied out of the generated token, whether or not encryption then succeeds. The call returns true exactly when `EncryptConnectToken` succeeds under the pre-call nonce. On failure the nonce, the issued history, `tokenData` and `tokenNonce` are unchanged. On success `tokenData` holds the ciphertext and `tokenNonce` the 8 bytes of the pre-call nonce; the nonce is incremented modulo 2^64 and appended to the issued history |
| `ClientServer.Increment` | client_server.cpp:71 | `m_nonce++` on a `uint64_t` yields the successor modulo 2^64 |
| `ClientServer.NonceAfterCounts` | client_server.cpp:45-71 | starting from 0, fewer than 2^64 increments of the counter give the count itself: the issued nonces are 0, 1, 2, … |
| `ClientServer.NonceRunIsDistinct` | client_server.cpp:64-71 | up to 2^64 successful requests emit strictly increasing, pairwise distinct nonces, and so pairwise distinct nonce bytes |
| `ClientServer.NonceRunWrapsAround` | client_server.cpp:39-71 | the request after 2^64 successful ones reuses nonce 0, because `m_nonce` is a `uint64_t` |

## Left out

- The destructor and `new[]`/`delete[]` (yojimbo_packet_processor.cpp:38-48) are memory management. The buffers are arrays allocated by the constructor.
- The pass-through fields `m_context`, `m_protocolId` and `m_packetFactory` are not modelled; they are only forwarded to the serialiser. The collaborators are one constructor argument instead.
- The bodies of the sequence codec, libsodium's AEAD, the bit-packing serialiser, the packet factory, `GenerateKey`, `GenerateConnectToken` and `EncryptConnectToken` are not part of this model. They appear only through the contracts above. So the codec's exact encoding (minimal byte count, byte order), tamper detection by the tag, and field-wise packet equality are not modelled.
- A collaborator that fails is modelled as writing nothing into the buffer it was given. A real serialiser or AEAD may have partly written that buffer before failing.
- `PacketProcessing.PacketProcessor.WritePacket`: the value left in `packetBytes` on a failure path is not stated. The model returns 0 there, while the source leaves the caller's value or the serialiser's count.
- `PacketProcessing.PacketProcessor.ReadPacket` models the corrected line 156. It rejects an encrypted frame longer than `m_absoluteMaxPacketSize + 1 + MacBytes` before decrypting, so the source's overrun of the scratch buffer (see Findings) is not modelled in place. It is exhibited on the pure `ReadFrame`. The source has no error code for this case, so the model reports DECRYPT_FAILED, which a decryption bounded by the buffer size would give.
- `ReadPacket` takes the frame by value, so a frame that aliases one of the processor's own buffers is not modelled. `ReadPacket` also requires `packetBytes >= 1`, because the source reads byte 0 unconditionally.
- `DecompressPacketSequence` reads from a pointer in the source. The model gives it exactly the `GetPacketSequenceBytes` bytes after the prefix byte.
- Whitelists are sets of packet types, not byte arrays indexed by type. A NULL whitelist (everything allowed) is not modelled. The processor's callers are not part of this model, so whether any of them passes NULL is not known here.
- `maxPacketSize` is a `nat`. A negative size and the signed overflow of `maxPacketSize + 9 + MacBytes` near `INT_MAX` are not modelled.
- Nonce bytes are the little-endian image of the counter, as on the x86 hosts the library targets. A big-endian host is not modelled.
- `ClientServer.Matcher.RequestMatch` requires the four caller byte buffers to be distinct arrays. Overlapping `memcpy` targets are not modelled.
- The randomness of `GenerateConnectToken` is fixed per `TokenIssuer` value. The global `private_key` is the issuer's `privateKey` field.
- `Address( "::1", ServerPort )` is kept as a host string and a port; address parsing is not modelled.
- `MatcherServerData` and `m_serverMap` (client_server.cpp:28-41) are never used by `RequestMatch`.
- `ClientServerNetworkInterface` (client_server.cpp:77-92) and `main()` (client_server.cpp:94-211) are socket setup, the session state machines, time stepping and `printf`: I/O outside this core.
- The nonce counter is not persisted across process restarts, exactly as in the source.

## Findings

| source | as written | input that shows it | evidently intended | confidence | as-written member | corrected member |
|---|---|---|---|---|---|---|
| yojimbo_packet_processor.cpp:34 | `m_absoluteMaxPacketSize = maxPacketSize + 9 + MacBytes` uses the unrounded size. The serialiser may fill the rounded `m_maxPacketSize` (line 76), and the ciphertext is written into the scratch buffer after the prefix (line 89). So the assertion at line 99, and the buffer bound, hold only when `prefixBytes + (m_maxPacketSize - maxPacketSize) <= 9` | `maxPacketSize = 1` (rounded to 4), a sequence whose compressed form takes 8 bytes, and a 4-byte serialised packet. That gives a 1 + 8 + 4 + 16 = 29-byte frame, built in a 26-byte buffer | both buffers sized `m_maxPacketSize + 9 + MacBytes`, from the rounded size | not executed; the overrun needs an unaligned `maxPacketSize` and a compressed sequence of at least `9 - (m_maxPacketSize - maxPacketSize)` bytes | `FrameSizeFinding.AsWrittenFrameExceedsBuffer` | `PacketProcessing.AbsoluteMaxPacketSize` |
| yojimbo_packet_processor.cpp:156 | `Decrypt` writes the plaintext of `packetBytes - prefixBytes` ciphertext bytes into `m_scratchBuffer` with no check of `packetBytes`. The only length check (line 146) is a lower bound | a processor configured for 4 bytes (scratch buffer 29 bytes), and a 55-byte frame whose 46 ciphertext bytes were sealed under the reader's key: it decrypts to 30 bytes | encrypted frames longer than `m_absoluteMaxPacketSize + 1 + MacBytes` are rejected before decrypting, so the plaintext fits the scratch buffer; `PacketProcessor.ReadPacket` reads through this check | not executed; plausible: it needs a peer holding the key and a caller whose receive buffer is larger than the processor's bound, and the callers are not part of this model | `FrameSizeFinding.OversizeFrameOverrunsScratchBuffer` | `PacketProcessing.CheckedReadFrame` |
