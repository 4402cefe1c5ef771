/** The buffer-size bound of the processor's constructor, as written and as the frame layout
    needs it.

    The constructor rounds the configured size up to a multiple of 4 and lets the serialiser
    fill that rounded size, but sizes the two buffers from the unrounded size plus 9 prefix
    bytes plus the tag. An encrypted frame with an 8-byte compressed sequence and a serialised
    packet of the full rounded size is then longer than the buffer it is built in. The witness
    collaborators below satisfy every contract the processor relies on, so the overrun is not an
    artefact of a collaborator misbehaving. */
module FrameSizeFinding {
  import opened Wrappers
  import opened Bytes
  import opened PacketProcessing

  function Zeros(n: nat): (r: seq<byte>)
    ensures |r| == n
    ensures forall i :: 0 <= i < n ==> r[i] == 0
  {
    seq(n, i => 0)
  }

  /** A codec that always writes all eight sequence bytes, as a minimal-length codec does for
      sequences of 2^56 and above. */
  function WitnessCompress(s: uint64): CompressedSequence {
    CompressedSequence(8, NonceBytesOf(s))
  }

  function WitnessSequenceBytes(prefixByte: byte): nat {
    8
  }

  function WitnessDecompress(prefixByte: byte, sequenceBytes: seq<byte>): uint64 {
    var n := FromLittleEndian(sequenceBytes);
    if n < TWO_TO_THE_64 then n else 0
  }

  /** An AEAD that appends an all-zero tag. */
  function WitnessEncrypt(message: seq<byte>, nonce: seq<byte>, key: Key): Option<seq<byte>> {
    Some(message + Zeros(MacBytes))
  }

  function WitnessDecrypt(ciphertext: seq<byte>, nonce: seq<byte>, key: Key): Option<seq<byte>> {
    if |ciphertext| >= MacBytes then Some(ciphertext[..|ciphertext| - MacBytes]) else None
  }

  /** A serialiser that writes a packet without fields as its type byte and three zero bytes. */
  function WitnessWrite(p: Packet, prefixBytes: nat, bufferSize: nat): Option<seq<byte>> {
    if p.fields == [] && p.packetType < 256 && prefixBytes + 4 <= bufferSize
    then Some(Zeros(prefixBytes) + [p.packetType as byte, 0, 0, 0])
    else None
  }

  function WitnessRead(b: seq<byte>, prefixBytes: nat, allowed: set<PacketType>): Option<Packet> {
    if |b| == prefixBytes + 4 && b == Zeros(prefixBytes) + [b[prefixBytes], 0, 0, 0]
       && b[prefixBytes] in allowed
    then Some(Packet(b[prefixBytes], []))
    else None
  }

  function WitnessCollaborators(): Collaborators {
    Collaborators(
      SequenceCodec(WitnessCompress, WitnessSequenceBytes, WitnessDecompress),
      Aead(WitnessEncrypt, WitnessDecrypt),
      PacketSerializer(WitnessWrite, WitnessRead))
  }

  lemma WitnessCollaboratorsValid()
    ensures WitnessCollaborators().Valid()
  {
  }

  /** With a configured size of 1 (rounded to 4), an encrypted frame of 1 + 8 + 4 + 16 = 29
      bytes is produced, while the constructor as written allocates 1 + 9 + 16 = 26. */
  lemma AsWrittenFrameExceedsBuffer()
    ensures WitnessCollaborators().Valid()
    ensures var frame := WriteFrame(WitnessCollaborators(), RoundUpToMultipleOf4(1), Packet(0, []),
                                    0, true, Some(Zeros(32)));
            && frame.Success?
            && |frame.value| == 29
            && |frame.value| > AsWrittenAbsoluteMaxPacketSize(1)
  {
    WitnessCollaboratorsValid();
    var env := WitnessCollaborators();
    assert RoundUpToMultipleOf4(1) == 4;
    var written := WitnessWrite(Packet(0, []), 0, 4);
    assert Zeros(0) == [];
    assert written.Some? && |written.value| == 4;
  }

  /** The general condition behind the counterexample: with the buffers sized as written, a
      frame fits whenever its prefix leaves room for the bytes that rounding adds. */
  lemma AsWrittenFrameFitsWhenPrefixLeavesRoom(env: Collaborators, maxPacketSize: nat, packet: Packet,
                                               sequence: uint64, encrypt: bool, key: Option<Key>)
    requires env.Valid()
    requires encrypt ==>
      |EncryptedPrefix(env, sequence)| + (RoundUpToMultipleOf4(maxPacketSize) - maxPacketSize) <= MaxPrefixBytes
    ensures var frame := WriteFrame(env, RoundUpToMultipleOf4(maxPacketSize), packet, sequence, encrypt, key);
            frame.Success? ==> |frame.value| <= AsWrittenAbsoluteMaxPacketSize(maxPacketSize)
  {
  }

  /** `ReadPacket` decrypts into the scratch buffer without bounding the frame's length. A peer
      holding the key can seal a 30-byte plaintext; the 55-byte frame decrypts, and its plaintext
      is longer than the 29-byte scratch buffer of a processor configured for 4 bytes. The checked
      read rejects the same frame. */
  lemma OversizeFrameOverrunsScratchBuffer()
    ensures WitnessCollaborators().Valid()
    ensures var env := WitnessCollaborators();
            var sealed := env.aead.encrypt(Zeros(30), NonceBytesOf(0), Zeros(32));
            && sealed.Some?
            && var frame := EncryptedPrefix(env, 0) + sealed.value;
            && |frame| == 55
            && var outcome := ReadFrame(env, frame, Some(Zeros(32)), {}, {});
            && outcome.sequence == Some(0)
            && outcome.error != DecryptFailed
            && env.aead.decrypt(frame[9..], NonceBytesOf(0), Zeros(32)) == Some(Zeros(30))
            && 30 > AbsoluteMaxPacketSize(4)
            // the checked read rejects the frame before decrypting it
            && CheckedReadFrame(env, AbsoluteMaxPacketSize(4), frame, Some(Zeros(32)), {}, {})
               == ReadOutcome(DecryptFailed, true, Some(0), None)
  {
    WitnessCollaboratorsValid();
  }

  /** With the buffers sized from the rounded size, every frame fits them. */
  lemma FrameFitsAbsoluteMax(env: Collaborators, maxPacketSize: nat, packet: Packet, sequence: uint64,
                             encrypt: bool, key: Option<Key>)
    requires env.Valid()
    ensures var frame := WriteFrame(env, RoundUpToMultipleOf4(maxPacketSize), packet, sequence, encrypt, key);
            frame.Success? ==> |frame.value| <= AbsoluteMaxPacketSize(maxPacketSize)
  {
  }
}
