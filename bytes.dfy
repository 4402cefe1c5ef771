/** Fixed-width integers and the in-memory byte image of a 64-bit integer. */
module Bytes {

  const TWO_TO_THE_64: int := 0x1_0000_0000_0000_0000

  type byte = b: int | 0 <= b < 256
  type uint32 = n: int | 0 <= n < 0x1_0000_0000
  type uint64 = n: int | 0 <= n < TWO_TO_THE_64

  /** 256 to the power k. */
  function Pow256(k: nat): (r: nat)
    ensures r >= 1
  {
    if k == 0 then 1 else 256 * Pow256(k - 1)
  }

  lemma Pow256Of8()
    ensures Pow256(8) == TWO_TO_THE_64
  {
  }

  /** The `width` low-order bytes of `n`, least significant first. */
  function LittleEndian(n: nat, width: nat): (r: seq<byte>)
    ensures |r| == width
  {
    if width == 0 then [] else [n % 256] + LittleEndian(n / 256, width - 1)
  }

  /** The number whose little-endian image is `bs`. */
  function FromLittleEndian(bs: seq<byte>): (n: nat)
    ensures n < Pow256(|bs|)
  {
    if bs == [] then 0
    else
      var rest := FromLittleEndian(bs[1..]);
      assert rest <= Pow256(|bs| - 1) - 1;
      bs[0] + 256 * rest
  }

  lemma {:induction false} FromLittleEndianInverts(n: nat, width: nat)
    requires n < Pow256(width)
    ensures FromLittleEndian(LittleEndian(n, width)) == n
  {
    if width > 0 {
      var bs := LittleEndian(n, width);
      assert bs[1..] == LittleEndian(n / 256, width - 1);
      FromLittleEndianInverts(n / 256, width - 1);
    }
  }

  /** The eight bytes that `(uint8_t*) &x` points at for a `uint64_t x` on a little-endian
      host: what the packet processor and the token issuer hand over as an AEAD nonce. */
  function NonceBytesOf(x: uint64): (r: seq<byte>)
    ensures |r| == 8
    ensures FromLittleEndian(r) == x
  {
    Pow256Of8();
    FromLittleEndianInverts(x, 8);
    LittleEndian(x, 8)
  }

  /** `s` with `data` written over it from index `at` on. */
  function Overwrite(s: seq<byte>, at: nat, data: seq<byte>): (r: seq<byte>)
    requires at + |data| <= |s|
    ensures |r| == |s|
    ensures r[..at] == s[..at] && r[at..at + |data|] == data && r[at + |data|..] == s[at + |data|..]
  {
    s[..at] + data + s[at + |data|..]
  }

  /** A `memcpy` of `data` into `dst` at offset `at`, or a collaborator filling that region. */
  method CopyInto(dst: array<byte>, at: nat, data: seq<byte>)
    requires at + |data| <= dst.Length
    modifies dst
    ensures dst[..] == Overwrite(old(dst[..]), at, data)
  {
    forall i | at <= i < at + |data| {
      dst[i] := data[i - at];
    }
    assert dst[..] == Overwrite(old(dst[..]), at, data);
  }
}
