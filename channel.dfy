/** Two encryptors used together, as the two ends of one connection: a server and
    a client swap public keys, then the client sends messages the server opens.
    The transport between them is not modelled; it hands each end the other's
    bytes unchanged. */
module SecureChannel {
  import opened Wrappers
  import opened Bytes
  import opened Sodium
  import opened NonceCounter
  import opened Encryptor

  /** The transport hands `key` to the receiver in a buffer of its own, and the
      receiver sets it as the peer's public key; the other end is not touched. */
  method DeliverKey(lib: Sodium, receiver: EncryptorSodium, other: EncryptorSodium, key: seq<uint8>)
    returns (ok: bool)
    requires receiver.Valid() && other.Valid() && receiver.Repr !! other.Repr
    modifies receiver.decryptBlock, receiver.encryptBlock
    ensures receiver.Valid() && other.Valid()
    ensures ok <==> (|key| == KxPublicKeyBytes &&
      SessionKeys(receiver.mode, lib, receiver.PublicKey(), receiver.SecretKey(), key).Some?)
    ensures ok ==>
      var keys := SessionKeys(receiver.mode, lib, receiver.PublicKey(), receiver.SecretKey(), key).value;
      receiver.DecryptKey() == keys.0 && receiver.EncryptKey() == keys.1
    ensures receiver.PublicKey() == old(receiver.PublicKey()) &&
            receiver.SecretKey() == old(receiver.SecretKey()) &&
            receiver.Nonce() == old(receiver.Nonce())
    ensures other.PublicKey() == old(other.PublicKey()) && other.SecretKey() == old(other.SecretKey()) &&
            other.DecryptKey() == old(other.DecryptKey()) && other.EncryptKey() == old(other.EncryptKey()) &&
            other.Nonce() == old(other.Nonce())
  {
    var peer := new uint8[|key|](i requires 0 <= i < |key| => key[i]);
    assert peer[..] == key;
    ok := receiver.SetRemotePublicKey(lib, peer);
  }

  /** Each end sets the other's public key. With keypairs made by the library,
      both ends succeed or both fail, and on success each end's encrypt key is
      the other end's decrypt key. */
  method ExchangeKeys(lib: Sodium, server: EncryptorSodium, client: EncryptorSodium)
    returns (ok: bool)
    requires Lawful(lib)
    requires server.Valid() && client.Valid() && server.Repr !! client.Repr
    requires server.mode == Server && client.mode == Client
    requires lib.kxPublicKey(server.SecretKey()) == Some(server.PublicKey())
    requires lib.kxPublicKey(client.SecretKey()) == Some(client.PublicKey())
    modifies server.decryptBlock, server.encryptBlock, client.decryptBlock, client.encryptBlock
    ensures server.Valid() && client.Valid()
    ensures ok <==> SessionKeys(Server, lib, server.PublicKey(), server.SecretKey(), client.PublicKey()).Some?
    ensures ok ==> server.EncryptKey() == client.DecryptKey() && server.DecryptKey() == client.EncryptKey()
    ensures server.Nonce() == old(server.Nonce()) && client.Nonce() == old(client.Nonce())
  {
    var serverPublic := server.GetLocalPublicKey();
    var clientPublic := client.GetLocalPublicKey();
    var serverOk := DeliverKey(lib, server, client, clientPublic);
    var clientOk := DeliverKey(lib, client, server, serverPublic);
    SessionKeysSwapped(lib, server.SecretKey(), client.SecretKey());
    ok := serverOk && clientOk;
  }

  /** The sender encrypts, and the receiver decrypts what arrives. When the
      sender's encrypt key is the receiver's decrypt key, a message that was
      sealed opens to the plaintext, and it carries the sender's new nonce. */
  method Transmit(lib: Sodium, sender: EncryptorSodium, receiver: EncryptorSodium, plaintext: seq<uint8>)
    returns (message: seq<uint8>, received: seq<uint8>)
    requires Lawful(lib)
    requires sender.Valid() && receiver.Valid() && sender.Repr !! receiver.Repr
    requires sender.EncryptKey() == receiver.DecryptKey()
    modifies sender.nonceBlock
    ensures sender.Valid() && receiver.Valid()
    ensures sender.Nonce() == Increment(old(sender.Nonce()))
    ensures sender.EncryptKey() == receiver.DecryptKey()
    ensures message != [] ==>
      |message| == |plaintext| + SecretboxNonceBytes + SecretboxMacBytes &&
      message[..SecretboxNonceBytes] == sender.Nonce() &&
      received == plaintext
  {
    message := sender.Encrypt(lib, plaintext);
    SealedMessageLayout(lib, sender.Nonce(), sender.EncryptKey(), plaintext);
    if |message| >= SecretboxNonceBytes + SecretboxMacBytes {
      OpenSealed(lib, sender.Nonce(), sender.EncryptKey(), plaintext);
      received := receiver.Decrypt(lib, message);
    } else {
      received := [];
    }
  }

  /** The whole exchange: create a server and a client, swap public keys, and
      send two messages from the client to the server. The session is
      established exactly when both ends were created and the key exchange
      succeeded. Each message that was sealed is received as sent, and the
      second carries the nonce of the first plus one, modulo 2^192. */
  method Session(lib: Sodium, serverInit: int, clientInit: int,
                 serverSecret: seq<uint8>, clientSecret: seq<uint8>,
                 serverSeed: seq<uint8>, clientSeed: seq<uint8>,
                 first: seq<uint8>, second: seq<uint8>)
    returns (established: bool, sent1: seq<uint8>, sent2: seq<uint8>,
             received1: seq<uint8>, received2: seq<uint8>)
    requires Lawful(lib)
    requires |serverSecret| == KxSecretKeyBytes && |clientSecret| == KxSecretKeyBytes
    requires |serverSeed| == SecretboxNonceBytes && |clientSeed| == SecretboxNonceBytes
    ensures established <==>
      serverInit != -1 && clientInit != -1 &&
      lib.kxPublicKey(serverSecret).Some? && lib.kxPublicKey(clientSecret).Some? &&
      SessionKeys(Server, lib, lib.kxPublicKey(serverSecret).value, serverSecret,
                  lib.kxPublicKey(clientSecret).value).Some?
    ensures established && sent1 != [] ==>
      |sent1| == |first| + SecretboxNonceBytes + SecretboxMacBytes &&
      sent1[..SecretboxNonceBytes] == Increment(clientSeed) && received1 == first
    ensures established && sent2 != [] ==>
      |sent2| == |second| + SecretboxNonceBytes + SecretboxMacBytes && received2 == second
    ensures established && sent1 != [] && sent2 != [] ==>
      LeValue(sent2[..SecretboxNonceBytes]) ==
        (LeValue(sent1[..SecretboxNonceBytes]) + 1) % Pow256(SecretboxNonceBytes)
  {
    established, sent1, sent2, received1, received2 := false, [], [], [], [];
    var server := EncryptorSodium.Create(Server, lib, serverInit, serverSecret, serverSeed);
    var client := EncryptorSodium.Create(Client, lib, clientInit, clientSecret, clientSeed);
    if server == null || client == null {
      return;
    }
    established := ExchangeKeys(lib, server, client);
    if !established {
      return;
    }
    sent1, received1 := Transmit(lib, client, server, first);
    ghost var firstNonce := client.Nonce();
    sent2, received2 := Transmit(lib, client, server, second);
    IncrementValue(firstNonce);
  }
}
