/** The framing engine of yojimbo_packet_processor.cpp: it turns a packet into a wire frame,
    either in the clear (a zero prefix byte, then the serialised packet) or encrypted (a prefix
    byte with the encrypted flag, the compressed sequence number, then the AEAD ciphertext), and
    turns wire frames back into packets, against one packet-type whitelist per channel.

    The sequence codec, the AEAD primitive and the packet serialiser are not defined in the
    processor's source; they are the fields of `Collaborators`, and `Collaborators.Valid()`
    collects the only facts the processor relies on. */
module PacketProcessing {
  import opened Wrappers
  import opened Bytes

  // ---------------------------------------------------------------------------------------
  // Constants

  /** Bit 7 of the prefix byte marks an encrypted frame (`ENCRYPTED_PACKET_FLAG = 1<<7`). */
  const ENCRYPTED_PACKET_FLAG: byte := 128

  /** One flag/length byte plus at most eight compressed sequence bytes. */
  const MaxPrefixBytes: nat := 9

  /** Size of the AEAD authentication tag (`MacBytes`, libsodium's ChaCha20-Poly1305 ABYTES). */
  const MacBytes: nat := 16

  type Key = seq<byte>

  // ---------------------------------------------------------------------------------------
  // The prefix byte

  /** `(b & ENCRYPTED_PACKET_FLAG) != 0`: bit 7 of a byte is set exactly when it is at least 128. */
  predicate IsEncryptedPrefix(b: byte) {
    b >= ENCRYPTED_PACKET_FLAG
  }

  /** `b |= ENCRYPTED_PACKET_FLAG`: sets bit 7 and keeps bits 0-6. */
  function WithEncryptedFlag(b: byte): (r: byte)
    ensures IsEncryptedPrefix(r)
    ensures r % ENCRYPTED_PACKET_FLAG == b % ENCRYPTED_PACKET_FLAG
  {
    if IsEncryptedPrefix(b) then b else b + ENCRYPTED_PACKET_FLAG
  }

  // ---------------------------------------------------------------------------------------
  // Collaborators

  /** A packet as the packet factory creates it: its type id and its serialisable content. */
  type PacketType = nat
  datatype Packet = Packet(packetType: PacketType, fields: seq<int>)

  /** What `CompressPacketSequence` produces: the prefix byte it writes and the sequence
      bytes it writes after it. */
  datatype CompressedSequence = CompressedSequence(prefixByte: byte, sequenceBytes: seq<byte>)

  /** `CompressPacketSequence`, `GetPacketSequenceBytes` and `DecompressPacketSequence`. */
  datatype SequenceCodec = SequenceCodec(
    compress: uint64 -> CompressedSequence,
    getSequenceBytes: byte -> nat,
    decompress: (byte, seq<byte>) -> uint64)
  {
    ghost predicate Valid() {
      // the count and the value of a compressed sequence survive the flag being set
      && (forall s: uint64 {:trigger compress(s)} ::
            var c := compress(s);
            && |c.sequenceBytes| <= MaxPrefixBytes - 1
            && getSequenceBytes(WithEncryptedFlag(c.prefixByte)) == |c.sequenceBytes|
            && decompress(WithEncryptedFlag(c.prefixByte), c.sequenceBytes) == s)
      // any prefix byte, even one from an attacker, announces at most eight bytes
      && (forall p: byte :: getSequenceBytes(p) <= MaxPrefixBytes - 1)
    }
  }

  /** `Encrypt(message, nonce, key)` and `Decrypt(ciphertext, nonce, key)`; `None` is a false return. */
  datatype Aead = Aead(
    encrypt: (seq<byte>, seq<byte>, Key) -> Option<seq<byte>>,
    decrypt: (seq<byte>, seq<byte>, Key) -> Option<seq<byte>>)
  {
    ghost predicate Valid() {
      && (forall m: seq<byte>, n: seq<byte>, k: Key :: encrypt(m, n, k).Some? ==>
            && |encrypt(m, n, k).value| == |m| + MacBytes
            && decrypt(encrypt(m, n, k).value, n, k) == Some(m))
      && (forall c: seq<byte>, n: seq<byte>, k: Key :: decrypt(c, n, k).Some? ==> |decrypt(c, n, k).value| + MacBytes == |c|)
    }
  }

  /** `yojimbo::WritePacket(info, packet, buffer, bufferSize)` with `info.prefixBytes` zero bytes
      reserved in front (`None`: it returned a count <= 0), and `yojimbo::ReadPacket(info,
      data, bytes)` with `info.allowedPacketTypes` the whitelist (`None`: it returned NULL). */
  datatype PacketSerializer = PacketSerializer(
    write: (Packet, nat, nat) -> Option<seq<byte>>,
    read: (seq<byte>, nat, set<PacketType>) -> Option<Packet>)
  {
    ghost predicate Valid() {
      && (forall p: Packet, prefixBytes: nat, bufferSize: nat :: write(p, prefixBytes, bufferSize).Some? ==>
            var b := write(p, prefixBytes, bufferSize).value;
            && 1 <= |b| <= bufferSize
            && prefixBytes <= |b|
            && (forall i :: 0 <= i < prefixBytes ==> b[i] == 0))
      && (forall p: Packet, prefixBytes: nat, bufferSize: nat, allowed: set<PacketType> ::
            write(p, prefixBytes, bufferSize).Some? && p.packetType in allowed ==>
            read(write(p, prefixBytes, bufferSize).value, prefixBytes, allowed) == Some(p))
      && (forall b: seq<byte>, prefixBytes: nat, allowed: set<PacketType> :: read(b, prefixBytes, allowed).Some? ==>
            read(b, prefixBytes, allowed).value.packetType in allowed)
      // the bytes of a packet whose type is not allowed are rejected, not read as another packet
      && (forall p: Packet, prefixBytes: nat, bufferSize: nat, allowed: set<PacketType> ::
            write(p, prefixBytes, bufferSize).Some? && p.packetType !in allowed ==>
            read(write(p, prefixBytes, bufferSize).value, prefixBytes, allowed).None?)
    }
  }

  datatype Collaborators = Collaborators(codec: SequenceCodec, aead: Aead, serializer: PacketSerializer)
  {
    ghost predicate Valid() {
      codec.Valid() && aead.Valid() && serializer.Valid()
    }
  }

  // ---------------------------------------------------------------------------------------
  // Errors and sizes

  /** `PACKET_PROCESSOR_ERROR_*` */
  datatype PacketProcessorError =
    | NoError
    | KeyIsNull
    | WritePacketFailed
    | EncryptFailed
    | PacketTooSmall
    | DecryptFailed
    | ReadPacketFailed

  /** The constructor's `m_maxPacketSize`: `maxPacketSize` rounded up to a multiple of 4. */
  function RoundUpToMultipleOf4(maxPacketSize: nat): (r: nat)
    ensures r % 4 == 0
    ensures maxPacketSize <= r < maxPacketSize + 4
  {
    maxPacketSize + (if maxPacketSize % 4 != 0 then 4 - maxPacketSize % 4 else 0)
  }

  /** `m_absoluteMaxPacketSize` as the constructor computes it: from the UNROUNDED size. */
  function AsWrittenAbsoluteMaxPacketSize(maxPacketSize: nat): nat {
    maxPacketSize + MaxPrefixBytes + MacBytes
  }

  /** The size of both buffers, computed from the rounded size that the serialiser may fill:
      the bound the frame layout actually needs. */
  function AbsoluteMaxPacketSize(maxPacketSize: nat): (r: nat)
    ensures r >= AsWrittenAbsoluteMaxPacketSize(maxPacketSize)
    ensures r == AsWrittenAbsoluteMaxPacketSize(maxPacketSize) <==> maxPacketSize % 4 == 0
  {
    RoundUpToMultipleOf4(maxPacketSize) + MaxPrefixBytes + MacBytes
  }

  // ---------------------------------------------------------------------------------------
  // The frame format, as functions

  /** The prefix of an encrypted frame: the flagged prefix byte, then the compressed sequence. */
  function EncryptedPrefix(env: Collaborators, sequence: uint64): (r: seq<byte>)
    requires env.Valid()
    ensures 1 <= |r| <= MaxPrefixBytes
    ensures IsEncryptedPrefix(r[0])
    ensures |r| == 1 + env.codec.getSequenceBytes(r[0])
    ensures env.codec.decompress(r[0], r[1..]) == sequence
  {
    var c := env.codec.compress(sequence);
    [WithEncryptedFlag(c.prefixByte)] + c.sequenceBytes
  }

  /** The frame `WritePacket(packet, sequence, packetBytes, encrypt, key)` returns, or its error.
      `maxPacketSize` is the processor's rounded `m_maxPacketSize`. */
  function WriteFrame(env: Collaborators, maxPacketSize: nat, packet: Packet, sequence: uint64,
                      encrypt: bool, key: Option<Key>): (r: Result<seq<byte>, PacketProcessorError>)
    requires env.Valid()
    ensures r.Failure? ==> r.error in {KeyIsNull, WritePacketFailed, EncryptFailed}
    ensures (r.Failure? && r.error == KeyIsNull) <==> (encrypt && key.None?)
    ensures r.Failure? && r.error == EncryptFailed ==> encrypt
    ensures r.Success? ==> 1 <= |r.value| && IsEncryptedPrefix(r.value[0]) == encrypt
    ensures r.Success? && !encrypt ==> |r.value| <= maxPacketSize
    ensures r.Success? ==> |r.value| <= maxPacketSize + MaxPrefixBytes + MacBytes
    // with a key, the write succeeds exactly when serialising and encrypting both succeed,
    // and fails with WRITE_PACKET_FAILED exactly when serialising fails
    ensures encrypt && key.Some? ==>
      var plain := env.serializer.write(packet, 0, maxPacketSize);
      && (r.Success? <==> plain.Some? && env.aead.encrypt(plain.value, NonceBytesOf(sequence), key.value).Some?)
      && (r.Failure? && r.error == WritePacketFailed <==> plain.None?)
    // an encrypted frame is the prefix, then the ciphertext of the serialised packet
    ensures encrypt && r.Success? ==>
      var prefix := EncryptedPrefix(env, sequence);
      var plain := env.serializer.write(packet, 0, maxPacketSize).value;
      && |r.value| == |prefix| + |plain| + MacBytes
      && r.value[..|prefix|] == prefix
      && Some(r.value[|prefix|..]) == env.aead.encrypt(plain, NonceBytesOf(sequence), key.value)
    // an unencrypted frame is the serialised packet behind its zero prefix byte
    ensures !encrypt ==>
      var frame := env.serializer.write(packet, 1, maxPacketSize);
      && (r.Success? <==> frame.Some?)
      && (r.Success? ==> r.value == frame.value && r.value[0] == 0)
  {
    if encrypt then
      if key.None? then Failure(KeyIsNull)
      else
        var prefix := EncryptedPrefix(env, sequence);
        match env.serializer.write(packet, 0, maxPacketSize)
        case None => Failure(WritePacketFailed)
        case Some(plain) =>
          match env.aead.encrypt(plain, NonceBytesOf(sequence), key.value)
          case None => Failure(EncryptFailed)
          case Some(cipher) => Success(prefix + cipher)
    else
      match env.serializer.write(packet, 1, maxPacketSize)
      case None => Failure(WritePacketFailed)
      case Some(frame) =>
        assert frame[0] == 0;
        Success(frame)
  }

  /** What `ReadPacket` reports: its error, the `encrypted` flag, the `sequence` out-parameter
      (`None` where it is left untouched) and the packet (`None` for a NULL return). */
  datatype ReadOutcome = ReadOutcome(
    error: PacketProcessorError,
    encrypted: bool,
    sequence: Option<uint64>,
    packet: Option<Packet>)

  /** `packetData` with `packetBytes == |packetData|`. */
  function ReadFrame(env: Collaborators, packetData: seq<byte>, key: Option<Key>,
                     encryptedPacketTypes: set<PacketType>,
                     unencryptedPacketTypes: set<PacketType>): (r: ReadOutcome)
    requires env.Valid()
    requires |packetData| >= 1
    ensures r.encrypted == IsEncryptedPrefix(packetData[0])
    ensures r.error in {NoError, KeyIsNull, PacketTooSmall, DecryptFailed, ReadPacketFailed}
    ensures r.packet.Some? <==> r.error == NoError
    // the whitelist of the channel the frame arrived on decides which types are accepted
    ensures r.packet.Some? && r.encrypted ==> r.packet.value.packetType in encryptedPacketTypes
    ensures r.packet.Some? && !r.encrypted ==> r.packet.value.packetType in unencryptedPacketTypes
    ensures !r.encrypted ==> r.sequence == Some(0) && r.error in {NoError, ReadPacketFailed}
    ensures r.error == KeyIsNull <==> r.encrypted && key.None?
    ensures r.error == PacketTooSmall <==>
              r.encrypted && key.Some? &&
              |packetData| <= 1 + env.codec.getSequenceBytes(packetData[0]) + MacBytes
    ensures r.sequence.None? <==> r.error in {KeyIsNull, PacketTooSmall}
    // past the size check, the sequence is decompressed from the prefix, DECRYPT_FAILED is
    // reported exactly when decryption fails, and the packet is what the deserialiser makes
    // of the plaintext
    ensures r.encrypted && key.Some? && |packetData| > 1 + env.codec.getSequenceBytes(packetData[0]) + MacBytes ==>
      var prefixBytes := 1 + env.codec.getSequenceBytes(packetData[0]);
      var sequence := env.codec.decompress(packetData[0], packetData[1..prefixBytes]);
      var plain := env.aead.decrypt(packetData[prefixBytes..], NonceBytesOf(sequence), key.value);
      && r.sequence == Some(sequence)
      && (r.error == DecryptFailed <==> plain.None?)
      && (plain.Some? ==> r.packet == env.serializer.read(plain.value, 0, encryptedPacketTypes))
    // an unencrypted frame is what the deserialiser makes of it, prefix byte skipped
    ensures !r.encrypted ==> r.packet == env.serializer.read(packetData, 1, unencryptedPacketTypes)
  {
    var prefixByte := packetData[0];
    if IsEncryptedPrefix(prefixByte) then
      if key.None? then ReadOutcome(KeyIsNull, true, None, None)
      else
        var prefixBytes := 1 + env.codec.getSequenceBytes(prefixByte);
        if |packetData| <= prefixBytes + MacBytes then ReadOutcome(PacketTooSmall, true, None, None)
        else
          var sequence := env.codec.decompress(prefixByte, packetData[1..prefixBytes]);
          match env.aead.decrypt(packetData[prefixBytes..], NonceBytesOf(sequence), key.value)
          case None => ReadOutcome(DecryptFailed, true, Some(sequence), None)
          case Some(plain) =>
            match env.serializer.read(plain, 0, encryptedPacketTypes)
            case None => ReadOutcome(ReadPacketFailed, true, Some(sequence), None)
            case Some(p) => ReadOutcome(NoError, true, Some(sequence), Some(p))
    else
      match env.serializer.read(packetData, 1, unencryptedPacketTypes)
      case None => ReadOutcome(ReadPacketFailed, false, Some(0), None)
      case Some(p) => ReadOutcome(NoError, false, Some(0), Some(p))
  }

  // ---------------------------------------------------------------------------------------
  // Round trips

  /** An encrypted frame read back with the same key yields the packet, its sequence number
      and `encrypted == true`, provided the packet's type is allowed on the encrypted channel. */
  lemma EncryptedRoundTrip(env: Collaborators, maxPacketSize: nat, packet: Packet, sequence: uint64,
                           key: Key, encryptedPacketTypes: set<PacketType>,
                           unencryptedPacketTypes: set<PacketType>)
    requires env.Valid()
    requires WriteFrame(env, maxPacketSize, packet, sequence, true, Some(key)).Success?
    requires packet.packetType in encryptedPacketTypes
    ensures ReadFrame(env, WriteFrame(env, maxPacketSize, packet, sequence, true, Some(key)).value,
                      Some(key), encryptedPacketTypes, unencryptedPacketTypes)
            == ReadOutcome(NoError, true, Some(sequence), Some(packet))
  {
  }

  /** A frame written in the clear is read back as the same packet with sequence 0, provided
      its type is allowed on the unencrypted channel; the key plays no part. */
  lemma UnencryptedRoundTrip(env: Collaborators, maxPacketSize: nat, packet: Packet, sequence: uint64,
                             writeKey: Option<Key>, readKey: Option<Key>,
                             encryptedPacketTypes: set<PacketType>,
                             unencryptedPacketTypes: set<PacketType>)
    requires env.Valid()
    requires WriteFrame(env, maxPacketSize, packet, sequence, false, writeKey).Success?
    requires packet.packetType in unencryptedPacketTypes
    ensures ReadFrame(env, WriteFrame(env, maxPacketSize, packet, sequence, false, writeKey).value,
                      readKey, encryptedPacketTypes, unencryptedPacketTypes)
            == ReadOutcome(NoError, false, Some(0), Some(packet))
  {
  }

  /** An encrypted frame whose packet type is not on the encrypted whitelist is rejected with
      READ_PACKET_FAILED once it has been decrypted. */
  lemma EncryptedUnlistedTypeRejected(env: Collaborators, maxPacketSize: nat, packet: Packet, sequence: uint64,
                                      key: Key, encryptedPacketTypes: set<PacketType>,
                                      unencryptedPacketTypes: set<PacketType>)
    requires env.Valid()
    requires WriteFrame(env, maxPacketSize, packet, sequence, true, Some(key)).Success?
    requires packet.packetType !in encryptedPacketTypes
    ensures ReadFrame(env, WriteFrame(env, maxPacketSize, packet, sequence, true, Some(key)).value,
                      Some(key), encryptedPacketTypes, unencryptedPacketTypes)
            == ReadOutcome(ReadPacketFailed, true, Some(sequence), None)
  {
  }

  /** A frame sent in the clear whose packet type is not on the unencrypted whitelist is
      rejected with READ_PACKET_FAILED, whatever key the reader holds. */
  lemma UnencryptedUnlistedTypeRejected(env: Collaborators, maxPacketSize: nat, packet: Packet, sequence: uint64,
                                        writeKey: Option<Key>, readKey: Option<Key>,
                                        encryptedPacketTypes: set<PacketType>,
                                        unencryptedPacketTypes: set<PacketType>)
    requires env.Valid()
    requires WriteFrame(env, maxPacketSize, packet, sequence, false, writeKey).Success?
    requires packet.packetType !in unencryptedPacketTypes
    ensures ReadFrame(env, WriteFrame(env, maxPacketSize, packet, sequence, false, writeKey).value,
                      readKey, encryptedPacketTypes, unencryptedPacketTypes)
            == ReadOutcome(ReadPacketFailed, false, Some(0), None)
  {
  }

  /** A frame that passes `ReadPacket`'s length bound decrypts into at most
      `m_absoluteMaxPacketSize` bytes, so its plaintext fits the scratch buffer. */
  lemma PlaintextFitsScratchBuffer(env: Collaborators, maxPacketSize: nat, packetData: seq<byte>, key: Option<Key>)
    requires env.Valid()
    requires |packetData| >= 1
    requires IsEncryptedPrefix(packetData[0]) && key.Some? ==>
               |packetData| <= AbsoluteMaxPacketSize(maxPacketSize) + 1 + MacBytes
    ensures var prefixBytes := 1 + env.codec.getSequenceBytes(packetData[0]);
      IsEncryptedPrefix(packetData[0]) && key.Some? && |packetData| > prefixBytes + MacBytes ==>
      var sequence := env.codec.decompress(packetData[0], packetData[1..prefixBytes]);
      var plain := env.aead.decrypt(packetData[prefixBytes..], NonceBytesOf(sequence), key.value);
      plain.Some? ==> |plain.value| <= AbsoluteMaxPacketSize(maxPacketSize)
  {
  }

  /** `ReadFrame` with the length check that `ReadPacket` lacks: an encrypted frame read with a
      key that is too long for its plaintext to fit a scratch buffer of `absoluteMaxPacketSize`
      bytes is rejected before it is decrypted. DECRYPT_FAILED is reported, since the source has
      no error code of its own for it; every other frame is read exactly as `ReadFrame` reads it. */
  function CheckedReadFrame(env: Collaborators, absoluteMaxPacketSize: nat, packetData: seq<byte>,
                            key: Option<Key>, encryptedPacketTypes: set<PacketType>,
                            unencryptedPacketTypes: set<PacketType>): (r: ReadOutcome)
    requires env.Valid()
    requires |packetData| >= 1
    ensures var unchecked := ReadFrame(env, packetData, key, encryptedPacketTypes, unencryptedPacketTypes);
      if unchecked.sequence.Some? && unchecked.encrypted && |packetData| > absoluteMaxPacketSize + 1 + MacBytes
      then r == ReadOutcome(DecryptFailed, true, unchecked.sequence, None)
      else r == unchecked
    // whenever the frame is decrypted, its plaintext fits the scratch buffer
    ensures r.encrypted && r.sequence.Some? && r.error != DecryptFailed ==>
      var prefixBytes := 1 + env.codec.getSequenceBytes(packetData[0]);
      var plain := env.aead.decrypt(packetData[prefixBytes..], NonceBytesOf(r.sequence.value), key.value);
      plain.Some? && |plain.value| <= absoluteMaxPacketSize
  {
    var prefixBytes := 1 + env.codec.getSequenceBytes(packetData[0]);
    if IsEncryptedPrefix(packetData[0]) && key.Some? && |packetData| > prefixBytes + MacBytes
       && |packetData| > absoluteMaxPacketSize + 1 + MacBytes
    then
      ReadOutcome(DecryptFailed, true, Some(env.codec.decompress(packetData[0], packetData[1..prefixBytes])), None)
    else
      ReadFrame(env, packetData, key, encryptedPacketTypes, unencryptedPacketTypes)
  }

  // ---------------------------------------------------------------------------------------
  // The processor object

  class PacketProcessor {
    /** The codec, AEAD and serialiser the processor calls (the packet factory among them). */
    const env: Collaborators
    /** `m_maxPacketSize`, rounded up to a multiple of 4 */
    const maxPacketSize: nat
    /** `m_absoluteMaxPacketSize`, the size of both buffers */
    const absoluteMaxPacketSize: nat
    const packetBuffer: array<byte>
    const scratchBuffer: array<byte>
    /** `m_error`: the error of the last call */
    var error: PacketProcessorError

    ghost predicate Valid()
      reads this
    {
      && env.Valid()
      && maxPacketSize % 4 == 0
      && absoluteMaxPacketSize == maxPacketSize + MaxPrefixBytes + MacBytes
      && packetBuffer.Length == absoluteMaxPacketSize
      && scratchBuffer.Length == absoluteMaxPacketSize
      && packetBuffer != scratchBuffer
    }

    constructor (env: Collaborators, maxPacketSize: nat)
      requires env.Valid()
      ensures Valid()
      ensures this.env == env
      ensures this.maxPacketSize == RoundUpToMultipleOf4(maxPacketSize)
      ensures absoluteMaxPacketSize == AbsoluteMaxPacketSize(maxPacketSize)
      ensures error == NoError
      ensures fresh(packetBuffer) && fresh(scratchBuffer)
    {
      this.env := env;
      error := NoError;
      var rounded := RoundUpToMultipleOf4(maxPacketSize);
      assert rounded % 4 == 0;
      assert rounded >= maxPacketSize;
      this.maxPacketSize := rounded;
      var absoluteMax := AbsoluteMaxPacketSize(maxPacketSize);
      absoluteMaxPacketSize := absoluteMax;
      packetBuffer := new byte[absoluteMax];
      scratchBuffer := new byte[absoluteMax];
    }

    /** `WritePacket`: the returned buffer is NULL on failure; on success its first
        `packetBytes` bytes are the frame. */
    method WritePacket(packet: Packet, sequence: uint64, encrypt: bool, key: Option<Key>)
      returns (buffer: array?<byte>, packetBytes: int)
      requires Valid()
      modifies this`error, packetBuffer, scratchBuffer
      ensures Valid()
      ensures var r := WriteFrame(env, maxPacketSize, packet, sequence, encrypt, key);
        && (r.Success? ==>
              && error == NoError
              && buffer == (if encrypt then scratchBuffer else packetBuffer)
              && packetBytes == |r.value| <= absoluteMaxPacketSize
              && buffer[..packetBytes] == r.value)
        && (r.Failure? ==> error == r.error && buffer == null)
      // a missing key is reported before either buffer is touched
      ensures encrypt && key.None? ==> unchanged(packetBuffer) && unchanged(scratchBuffer)
      // the serialised packet is left in the packet buffer
      ensures var written := env.serializer.write(packet, if encrypt then 0 else 1, maxPacketSize);
        if written.Some? && !(encrypt && key.None?)
        then packetBuffer[..] == Overwrite(old(packetBuffer[..]), 0, written.value)
        else unchanged(packetBuffer)
      // the encrypted path builds its frame in the scratch buffer, prefix first
      ensures encrypt && key.Some? ==>
        var r := WriteFrame(env, maxPacketSize, packet, sequence, encrypt, key);
        scratchBuffer[..] == Overwrite(old(scratchBuffer[..]), 0,
                                       if r.Success? then r.value else EncryptedPrefix(env, sequence))
      ensures !encrypt ==> unchanged(scratchBuffer)
    {
      error := NoError;
      if encrypt {
        if key.None? {
          error := KeyIsNull;
          return null, 0;
        }
        var compressed := env.codec.compress(sequence);
        scratchBuffer[0] := compressed.prefixByte;
        CopyInto(scratchBuffer, 1, compressed.sequenceBytes);
        scratchBuffer[0] := WithEncryptedFlag(scratchBuffer[0]);
        var prefixBytes := |compressed.sequenceBytes| + 1;
        ghost var prefix := EncryptedPrefix(env, sequence);
        assert scratchBuffer[..] == Overwrite(old(scratchBuffer[..]), 0, prefix);

        var written := env.serializer.write(packet, 0, maxPacketSize);
        if written.None? {
          error := WritePacketFailed;
          return null, 0;
        }
        CopyInto(packetBuffer, 0, written.value);
        packetBytes := |written.value|;
        assert packetBytes <= maxPacketSize;

        var encrypted := env.aead.encrypt(packetBuffer[..packetBytes], NonceBytesOf(sequence), key.value);
        if encrypted.None? {
          error := EncryptFailed;
          return null, 0;
        }
        CopyInto(scratchBuffer, prefixBytes, encrypted.value);
        packetBytes := prefixBytes + |encrypted.value|;
        assert packetBytes <= absoluteMaxPacketSize;
        assert scratchBuffer[..] == Overwrite(old(scratchBuffer[..]), 0, prefix + encrypted.value);
        return scratchBuffer, packetBytes;
      } else {
        var written := env.serializer.write(packet, 1, maxPacketSize);
        if written.None? {
          error := WritePacketFailed;
          return null, 0;
        }
        CopyInto(packetBuffer, 0, written.value);
        packetBytes := |written.value|;
        assert packetBytes <= maxPacketSize;
        return packetBuffer, packetBytes;
      }
    }

    /** `ReadPacket` on the `packetBytes == |packetData|` bytes of `packetData`, with the length
        check of `CheckedReadFrame` before decrypting into the scratch buffer. */
    method ReadPacket(packetData: seq<byte>, key: Option<Key>,
                      encryptedPacketTypes: set<PacketType>, unencryptedPacketTypes: set<PacketType>)
      returns (packet: Option<Packet>, sequence: Option<uint64>, encrypted: bool)
      requires Valid()
      requires |packetData| >= 1
      modifies this`error, scratchBuffer
      ensures Valid()
      ensures var r := CheckedReadFrame(env, absoluteMaxPacketSize, packetData, key,
                                        encryptedPacketTypes, unencryptedPacketTypes);
        && error == r.error
        && encrypted == r.encrypted
        && sequence == r.sequence
        && packet == r.packet
      // the plaintext of an authentic encrypted frame is left in the scratch buffer
      ensures var prefixBytes := 1 + env.codec.getSequenceBytes(packetData[0]);
        if encrypted && key.Some? && prefixBytes + MacBytes < |packetData| <= absoluteMaxPacketSize + 1 + MacBytes
           && env.aead.decrypt(packetData[prefixBytes..], NonceBytesOf(sequence.value), key.value).Some?
        then scratchBuffer[..] == Overwrite(old(scratchBuffer[..]), 0,
               env.aead.decrypt(packetData[prefixBytes..], NonceBytesOf(sequence.value), key.value).value)
        else unchanged(scratchBuffer)
    {
      error := NoError;
      var prefixByte := packetData[0];
      encrypted := IsEncryptedPrefix(prefixByte);
      if encrypted {
        if key.None? {
          error := KeyIsNull;
          return None, None, encrypted;
        }
        var sequenceBytes := env.codec.getSequenceBytes(prefixByte);
        var prefixBytes := 1 + sequenceBytes;
        if |packetData| <= prefixBytes + MacBytes {
          error := PacketTooSmall;
          return None, None, encrypted;
        }
        var s := env.codec.decompress(prefixByte, packetData[1..prefixBytes]);
        sequence := Some(s);
        if |packetData| > absoluteMaxPacketSize + 1 + MacBytes {
          error := DecryptFailed;
          return None, sequence, encrypted;
        }
        var decrypted := env.aead.decrypt(packetData[prefixBytes..], NonceBytesOf(s), key.value);
        if decrypted.None? {
          error := DecryptFailed;
          return None, sequence, encrypted;
        }
        CopyInto(scratchBuffer, 0, decrypted.value);
        packet := env.serializer.read(scratchBuffer[..|decrypted.value|], 0, encryptedPacketTypes);
        if packet.None? {
          error := ReadPacketFailed;
        }
      } else {
        sequence := Some(0);
        packet := env.serializer.read(packetData, 1, unencryptedPacketTypes);
        if packet.None? {
          error := ReadPacketFailed;
        }
      }
    }
  }
}
