/** The connect-token issuer of client_server.cpp: a `Matcher` hands a client one server
    address, the two session keys of a freshly generated connect token, and that token encrypted
    under the issuer's private key with the issuer's nonce counter, which advances only when the
    encryption succeeds.

    `GenerateConnectToken` and `EncryptConnectToken` are library calls whose bodies are not part
    of this model; they, the private key and the library's `ConnectTokenBytes` are the fields of
    `TokenIssuer`, and `TokenIssuer.Valid()` collects what `RequestMatch` relies on. */
module ClientServer {
  import opened Wrappers
  import opened Bytes

  const ProtocolId: uint32 := 0x12341651
  const ServerPort: nat := 50000

  /** Size of a symmetric key (`KeyBytes`). */
  const KeyBytes: nat := 32
  /** Size of a nonce (`NonceBytes`): the eight bytes of a `uint64_t`. */
  const NonceBytes: nat := 8

  datatype Address = Address(host: string, port: nat)

  /** The server's own address, `Address( "::1", ServerPort )`. */
  const LocalServerAddress: Address := Address("::1", ServerPort)

  datatype ConnectToken = ConnectToken(
    protocolId: uint32,
    clientId: uint64,
    serverAddresses: seq<Address>,
    clientToServerKey: seq<byte>,
    serverToClientKey: seq<byte>)

  /** `GenerateConnectToken( token, clientId, numServerAddresses, serverAddresses, protocolId )`
      (its fresh random keys included), `EncryptConnectToken( token, tokenData, NULL, 0, nonce,
      key )` (`None`: a false return), the size of the ciphertext it writes, and `private_key`. */
  datatype TokenIssuer = TokenIssuer(
    generateConnectToken: (uint64, seq<Address>, uint32) -> ConnectToken,
    encryptConnectToken: (ConnectToken, seq<byte>, seq<byte>) -> Option<seq<byte>>,
    connectTokenBytes: nat,
    privateKey: seq<byte>)
  {
    ghost predicate Valid() {
      && (forall clientId: uint64, addresses: seq<Address>, protocolId: uint32 ::
            var token := generateConnectToken(clientId, addresses, protocolId);
            && |token.clientToServerKey| == KeyBytes
            && |token.serverToClientKey| == KeyBytes)
      && (forall token: ConnectToken, nonce: seq<byte>, key: seq<byte> ::
            encryptConnectToken(token, nonce, key).Some? ==>
            |encryptConnectToken(token, nonce, key).value| == connectTokenBytes)
    }
  }

  /** `x++` on a `uint64_t`. */
  function Increment(x: uint64): (r: uint64)
    ensures r == (x + 1) % TWO_TO_THE_64
  {
    if x == TWO_TO_THE_64 - 1 then 0 else x + 1
  }

  /** The counter after `k` increments from 0. */
  ghost function NonceAfter(k: nat): uint64 {
    if k == 0 then 0 else Increment(NonceAfter(k - 1))
  }

  /** The nonces a matcher has handed out after `|run|` successful requests, in order. */
  ghost predicate IsNonceRun(run: seq<uint64>) {
    forall i :: 0 <= i < |run| ==> run[i] == NonceAfter(i)
  }

  class Matcher {
    /** `m_nonce`: increments with each successful match request */
    var nonce: uint64
    /** The nonces of all successful requests so far, in order. */
    ghost var issued: seq<uint64>

    ghost predicate Valid()
      reads this
    {
      && IsNonceRun(issued)
      && nonce == NonceAfter(|issued|)
    }

    constructor ()
      ensures Valid()
      ensures nonce == 0 && issued == []
    {
      nonce := 0;
      issued := [];
    }

    /** `RequestMatch`: the `ok` result is the boolean return; `numServerAddresses` is `None`
        where the caller's variable is left untouched. */
    method RequestMatch(issuer: TokenIssuer, clientId: uint64, tokenData: array<byte>, tokenNonce: array<byte>,
                        clientToServerKey: array<byte>, serverToClientKey: array<byte>,
                        serverAddresses: array<Address>)
      returns (ok: bool, numServerAddresses: Option<nat>)
      requires Valid() && issuer.Valid()
      requires tokenData.Length >= issuer.connectTokenBytes
      requires tokenNonce.Length >= NonceBytes
      requires clientToServerKey.Length >= KeyBytes && serverToClientKey.Length >= KeyBytes
      requires serverAddresses.Length >= 1
      requires tokenData != tokenNonce && tokenData != clientToServerKey && tokenData != serverToClientKey
      requires tokenNonce != clientToServerKey && tokenNonce != serverToClientKey
      requires clientToServerKey != serverToClientKey
      modifies this, tokenData, tokenNonce, clientToServerKey, serverToClientKey, serverAddresses
      ensures Valid()
      // client id 0 is rejected with nothing written
      ensures clientId == 0 ==>
        && !ok && numServerAddresses.None?
        && nonce == old(nonce) && issued == old(issued)
        && unchanged(tokenData, tokenNonce, clientToServerKey, serverToClientKey, serverAddresses)
      // otherwise the address and both keys are written, whether or not encryption succeeds
      ensures clientId != 0 ==>
        var token := issuer.generateConnectToken(clientId, [LocalServerAddress], ProtocolId);
        && numServerAddresses == Some(1)
        && serverAddresses[..] == old(serverAddresses[..])[0 := LocalServerAddress]
        && clientToServerKey[..] == Overwrite(old(clientToServerKey[..]), 0, token.clientToServerKey)
        && serverToClientKey[..] == Overwrite(old(serverToClientKey[..]), 0, token.serverToClientKey)
      // the token is encrypted under the current nonce, which advances only on success
      ensures clientId != 0 ==>
        var token := issuer.generateConnectToken(clientId, [LocalServerAddress], ProtocolId);
        var sealed := issuer.encryptConnectToken(token, NonceBytesOf(old(nonce)), issuer.privateKey);
        && ok == sealed.Some?
        && (sealed.None? ==>
              && nonce == old(nonce) && issued == old(issued)
              && unchanged(tokenData, tokenNonce))
        && (sealed.Some? ==>
              && tokenData[..] == Overwrite(old(tokenData[..]), 0, sealed.value)
              && tokenNonce[..] == Overwrite(old(tokenNonce[..]), 0, NonceBytesOf(old(nonce)))
              && nonce == (old(nonce) + 1) % TWO_TO_THE_64
              && issued == old(issued) + [old(nonce)])
    {
      if clientId == 0 {
        return false, None;
      }

      numServerAddresses := Some(1);
      serverAddresses[0] := LocalServerAddress;
      assert serverAddresses[..1] == [LocalServerAddress];

      var token := issuer.generateConnectToken(clientId, serverAddresses[..1], ProtocolId);

      CopyInto(clientToServerKey, 0, token.clientToServerKey);
      CopyInto(serverToClientKey, 0, token.serverToClientKey);

      var sealed := issuer.encryptConnectToken(token, NonceBytesOf(nonce), issuer.privateKey);
      if sealed.None? {
        return false, numServerAddresses;
      }
      CopyInto(tokenData, 0, sealed.value);
      CopyInto(tokenNonce, 0, NonceBytesOf(nonce));

      issued := issued + [nonce];
      nonce := Increment(nonce);

      return true, numServerAddresses;
    }
  }

  /** Before the counter wraps, the k-th increment from 0 yields k. */
  lemma {:induction false} NonceAfterCounts(k: nat)
    requires k < TWO_TO_THE_64
    ensures NonceAfter(k) == k
  {
    if k > 0 {
      NonceAfterCounts(k - 1);
    }
  }

  /** Fewer than 2^64 successful requests emit strictly increasing, pairwise distinct nonces,
      and so pairwise distinct nonce bytes. */
  lemma NonceRunIsDistinct(run: seq<uint64>)
    requires IsNonceRun(run)
    requires |run| <= TWO_TO_THE_64
    ensures forall i, j :: 0 <= i < j < |run| ==> run[i] < run[j]
    ensures forall i, j :: 0 <= i < j < |run| ==> NonceBytesOf(run[i]) != NonceBytesOf(run[j])
  {
    forall i, j | 0 <= i < j < |run| ensures run[i] < run[j] {
      NonceAfterCounts(i);
      NonceAfterCounts(j);
    }
  }

  /** The 2^64 + 1-st successful request reuses the first nonce: the counter wraps around. */
  lemma NonceRunWrapsAround(run: seq<uint64>)
    requires IsNonceRun(run)
    requires |run| > TWO_TO_THE_64
    ensures run[TWO_TO_THE_64] == run[0]
  {
    NonceAfterCounts(TWO_TO_THE_64 - 1);
  }
}
