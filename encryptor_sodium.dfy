/** EncryptorSodium: one end of the secure channel.

    Each end owns a key-exchange keypair, two directional session keys and a
    24-byte nonce counter, and has a fixed role. After the peers swap public
    keys, each derives its session keys with its role's formula. Every message
    is then sealed under the encrypt key and a freshly incremented nonce, and
    sent as `nonce || box`. The receiver opens the box under its decrypt key and
    the nonce carried in the message. */
module Encryptor {
  import opened Wrappers
  import opened Bytes
  import opened Sodium
  import opened NonceCounter
  import opened SecureBuffers

  /** Mode::SERVER or Mode::CLIENT: which key-exchange formula this end applies. */
  datatype Mode = Server | Client

  /** The keys a role derives: (rx, tx) from its role's formula, where rx becomes
      the decrypt key and tx the encrypt key. */
  function SessionKeys(mode: Mode, lib: Sodium, localPublic: seq<uint8>, localSecret: seq<uint8>,
                       peerPublic: seq<uint8>): Option<(Key, Key)>
  {
    match mode
    case Server => lib.kxServerSessionKeys(localPublic, localSecret, peerPublic)
    case Client => lib.kxClientSessionKeys(localPublic, localSecret, peerPublic)
  }

  /** A server and a client whose keypairs were both made by the library derive
      matching keys or fail together. When they succeed, the server's encrypt key
      is the client's decrypt key, and the server's decrypt key the client's
      encrypt key. */
  lemma SessionKeysSwapped(lib: Sodium, serverSecret: seq<uint8>, clientSecret: seq<uint8>)
    requires Lawful(lib)
    requires lib.kxPublicKey(serverSecret).Some? && lib.kxPublicKey(clientSecret).Some?
    ensures
      var serverPublic := lib.kxPublicKey(serverSecret).value;
      var clientPublic := lib.kxPublicKey(clientSecret).value;
      var s := SessionKeys(Server, lib, serverPublic, serverSecret, clientPublic);
      var c := SessionKeys(Client, lib, clientPublic, clientSecret, serverPublic);
      s.Some? == c.Some? &&
      (s.Some? ==> s.value.1 == c.value.0 && s.value.0 == c.value.1)
  {
  }

  /** The wire form of a message: the nonce followed by the sealed box. */
  function SealedMessage(lib: Sodium, nonce: seq<uint8>, key: seq<uint8>, plaintext: seq<uint8>)
    : Option<seq<uint8>>
  {
    match lib.secretboxEasy(plaintext, nonce, key)
    case Some(box) => Some(nonce + box)
    case None => None
  }

  /** Opening a wire message: the nonce is its first 24 bytes and the box the rest. */
  function OpenedMessage(lib: Sodium, key: seq<uint8>, message: seq<uint8>): Option<seq<uint8>>
    requires |message| >= SecretboxNonceBytes + SecretboxMacBytes
  {
    lib.secretboxOpenEasy(message[SecretboxNonceBytes..], message[..SecretboxNonceBytes], key)
  }

  /** IOBuffer() on failure: an outcome as the byte buffer the source returns. */
  function OrEmpty(o: Option<seq<uint8>>): seq<uint8>
  {
    match o
    case Some(bytes) => bytes
    case None => []
  }

  /** A sealed message is 40 bytes longer than its plaintext and starts with its nonce. */
  lemma SealedMessageLayout(lib: Sodium, nonce: seq<uint8>, key: seq<uint8>, plaintext: seq<uint8>)
    requires Lawful(lib) && |nonce| == SecretboxNonceBytes && |key| == SecretboxKeyBytes
    ensures SealedMessage(lib, nonce, key, plaintext).Some? ==>
      var message := SealedMessage(lib, nonce, key, plaintext).value;
      |message| == |plaintext| + SecretboxNonceBytes + SecretboxMacBytes &&
      message[..SecretboxNonceBytes] == nonce
  {
  }

  /** An opened message is 40 bytes shorter than the wire message. */
  lemma OpenedMessageSize(lib: Sodium, key: seq<uint8>, message: seq<uint8>)
    requires Lawful(lib) && |message| >= SecretboxNonceBytes + SecretboxMacBytes
    ensures OpenedMessage(lib, key, message).Some? ==>
      |OpenedMessage(lib, key, message).value| == |message| - SecretboxNonceBytes - SecretboxMacBytes
  {
  }

  /** Round trip: opening a sealed message under the same key gives back the plaintext. */
  lemma OpenSealed(lib: Sodium, nonce: seq<uint8>, key: seq<uint8>, plaintext: seq<uint8>)
    requires Lawful(lib) && |nonce| == SecretboxNonceBytes && |key| == SecretboxKeyBytes
    requires SealedMessage(lib, nonce, key, plaintext).Some?
    ensures
      var message := SealedMessage(lib, nonce, key, plaintext).value;
      |message| >= SecretboxNonceBytes + SecretboxMacBytes &&
      OpenedMessage(lib, key, message) == Some(plaintext)
  {
    var box := lib.secretboxEasy(plaintext, nonce, key).value;
    var message := nonce + box;
    assert message[SecretboxNonceBytes..] == box && message[..SecretboxNonceBytes] == nonce;
  }

  class EncryptorSodium {
    const mode: Mode                     // mode_
    const localPublicKey: SecureBuffer   // local_public_key_
    const localSecretKey: SecureBuffer   // local_secret_key_
    const decryptKey: SecureBuffer       // decrypt_key_
    const encryptKey: SecureBuffer       // encrypt_key_
    const nonce: SecureBuffer            // nonce_
    // the heap blocks the five buffers own for the encryptor's whole life
    ghost const publicBlock: array<uint8>
    ghost const secretBlock: array<uint8>
    ghost const decryptBlock: array<uint8>
    ghost const encryptBlock: array<uint8>
    ghost const nonceBlock: array<uint8>
    ghost const Repr: set<object>

    /** Repr is this encryptor, its five buffers and their five blocks; each
        buffer owns its own block and is valid; both session keys hold 32 bytes
        and the nonce 24. */
    ghost predicate Valid()
      reads this, Repr
    {
      Repr == {this, localPublicKey, localSecretKey, decryptKey, encryptKey, nonce,
               publicBlock, secretBlock, decryptBlock, encryptBlock, nonceBlock} &&
      BuffersOwnBlocks() && BlocksDistinct()
    }

    ghost predicate BuffersOwnBlocks()
      reads this, localPublicKey, localSecretKey, decryptKey, encryptKey, nonce
    {
      localPublicKey.data == publicBlock && localSecretKey.data == secretBlock &&
      decryptKey.data == decryptBlock && encryptKey.data == encryptBlock &&
      nonce.data == nonceBlock &&
      localPublicKey.Valid() && localSecretKey.Valid() && decryptKey.Valid() &&
      encryptKey.Valid() && nonce.Valid() &&
      decryptKey.size == KxSessionKeyBytes && encryptKey.size == KxSessionKeyBytes &&
      nonce.size == SecretboxNonceBytes
    }

    /** No two buffers share a block, so writing one key leaves the others as they were. */
    ghost predicate BlocksDistinct()
      reads this
    {
      publicBlock != secretBlock && publicBlock != decryptBlock &&
      publicBlock != encryptBlock && publicBlock != nonceBlock &&
      secretBlock != decryptBlock && secretBlock != encryptBlock && secretBlock != nonceBlock &&
      decryptBlock != encryptBlock && decryptBlock != nonceBlock && encryptBlock != nonceBlock
    }

    ghost function PublicKey(): seq<uint8>
      reads this, Repr
      requires Valid()
    {
      localPublicKey.Contents()
    }

    ghost function SecretKey(): seq<uint8>
      reads this, Repr
      requires Valid()
    {
      localSecretKey.Contents()
    }

    ghost function DecryptKey(): seq<uint8>
      reads this, Repr
      requires Valid()
    {
      decryptKey.Contents()
    }

    ghost function EncryptKey(): seq<uint8>
      reads this, Repr
      requires Valid()
    {
      encryptKey.Contents()
    }

    ghost function Nonce(): seq<uint8>
      reads this, Repr
      requires Valid()
    {
      nonce.Contents()
    }

    /** EncryptorSodium(mode, public_key, secret_key): take over the keypair, allocate
        zeroed 32-byte session keys and a 24-byte nonce, and fill the nonce from the
        random source (randombytes_buf, here the bytes `random`). */
    constructor (mode: Mode, publicKey: SecureBuffer, secretKey: SecureBuffer, random: seq<uint8>)
      requires publicKey.Valid() && secretKey.Valid() && publicKey != secretKey
      requires publicKey.data != null && secretKey.data != null && publicKey.data != secretKey.data
      requires |random| == SecretboxNonceBytes
      modifies publicKey, secretKey
      ensures Valid()
      ensures publicBlock == old(publicKey.data) && secretBlock == old(secretKey.data)
      ensures Repr == {this, localPublicKey, localSecretKey, decryptKey, encryptKey, nonce,
                       publicBlock, secretBlock, decryptBlock, encryptBlock, nonceBlock}
      ensures fresh(localPublicKey) && fresh(localSecretKey) && fresh(decryptKey) &&
              fresh(encryptKey) && fresh(nonce)
      ensures fresh(decryptBlock) && fresh(encryptBlock) && fresh(nonceBlock)
      ensures this.mode == mode
      ensures PublicKey() == old(publicKey.Contents()) && SecretKey() == old(secretKey.Contents())
      ensures DecryptKey() == Zeros(KxSessionKeyBytes) && EncryptKey() == Zeros(KxSessionKeyBytes)
      ensures Nonce() == random
      ensures publicKey.Valid() && publicKey.data == null && publicKey.IsEmpty()
      ensures secretKey.Valid() && secretKey.data == null && secretKey.IsEmpty()
    {
      var pkBlock: array<uint8>, skBlock: array<uint8> := publicKey.data, secretKey.data;
      var pk := new SecureBuffer.MoveFrom(publicKey);
      var sk := new SecureBuffer.MoveFrom(secretKey);
      var rx := new SecureBuffer.Allocate(KxSessionKeyBytes);
      var tx := new SecureBuffer.Allocate(KxSessionKeyBytes);
      var n := new SecureBuffer.Allocate(SecretboxNonceBytes);
      var rxBlock: array<uint8>, txBlock: array<uint8>, nBlock: array<uint8> := rx.data, tx.data, n.data;
      // fill the nonce from the random source
      CopyInto(nBlock, random);
      this.mode := mode;
      localPublicKey, localSecretKey, decryptKey, encryptKey, nonce := pk, sk, rx, tx, n;
      publicBlock, secretBlock, decryptBlock, encryptBlock, nonceBlock :=
        pkBlock, skBlock, rxBlock, txBlock, nBlock;
      Repr := {this, pk, sk, rx, tx, n, pkBlock, skBlock, rxBlock, txBlock, nBlock};
    }

    /** Create(mode): fails (null) when sodium_init reports -1, or when
        crypto_kx_keypair fails to make the public key for the secret key it drew
        (`randomSecret`); otherwise an encryptor with that keypair, zeroed session
        keys and the random nonce `randomNonce`. */
    static method Create(mode: Mode, lib: Sodium, initStatus: int,
                         randomSecret: seq<uint8>, randomNonce: seq<uint8>)
      returns (e: EncryptorSodium?)
      requires |randomSecret| == KxSecretKeyBytes && |randomNonce| == SecretboxNonceBytes
      ensures e == null <==> initStatus == -1 || lib.kxPublicKey(randomSecret).None?
      ensures e != null ==>
        fresh(e.Repr) && e.Valid() && e.mode == mode &&
        e.PublicKey() == lib.kxPublicKey(randomSecret).value &&
        |e.PublicKey()| == KxPublicKeyBytes &&
        e.SecretKey() == randomSecret &&
        e.DecryptKey() == Zeros(KxSessionKeyBytes) && e.EncryptKey() == Zeros(KxSessionKeyBytes) &&
        e.Nonce() == randomNonce
    {
      if initStatus == -1 {
        return null;
      }
      var publicKey := new SecureBuffer.Allocate(KxPublicKeyBytes);
      var secretKey := new SecureBuffer.Allocate(KxSecretKeyBytes);
      var status := KxKeypair(lib, publicKey.data, secretKey.data, randomSecret);
      if status != 0 {
        // leaving the scope destroys both buffers, zeroing the drawn secret
        publicKey.Destroy();
        secretKey.Destroy();
        return null;
      }
      e := new EncryptorSodium(mode, publicKey, secretKey, randomNonce);
      // publicKey and secretKey are now moved-from and empty: their destructors do nothing
    }

    /** SetRemotePublicKey(public_key): reject an empty key or one that is not
        32 bytes; otherwise derive (rx, tx) with this end's role formula into the
        decrypt and encrypt keys and, only if that succeeded, zero the caller's
        copy of the peer key. Nothing prevents a second call, which derives the
        keys afresh and overwrites both. */
    method SetRemotePublicKey(lib: Sodium, peer: array<uint8>) returns (ok: bool)
      requires Valid() && peer !in Repr
      modifies decryptBlock, encryptBlock, peer
      ensures Valid()
      ensures ok <==> peer.Length == KxPublicKeyBytes &&
                      SessionKeys(mode, lib, PublicKey(), SecretKey(), old(peer[..])).Some?
      ensures ok ==>
        var keys := SessionKeys(mode, lib, PublicKey(), SecretKey(), old(peer[..])).value;
        DecryptKey() == keys.0 && EncryptKey() == keys.1 && peer[..] == Zeros(peer.Length)
      ensures !ok ==>
        DecryptKey() == old(DecryptKey()) && EncryptKey() == old(EncryptKey()) &&
        peer[..] == old(peer[..])
      ensures PublicKey() == old(PublicKey()) && SecretKey() == old(SecretKey()) &&
              Nonce() == old(Nonce())
    {
      if peer.Length == 0 {
        return false;  // empty public key
      }
      if peer.Length != KxPublicKeyBytes {
        return false;  // wrong public key size
      }
      var localPublic := localPublicKey.Contents();
      var localSecret := localSecretKey.Contents();
      var keys;
      if mode == Server {
        keys := lib.kxServerSessionKeys(localPublic, localSecret, peer[..]);
      } else {
        keys := lib.kxClientSessionKeys(localPublic, localSecret, peer[..]);
      }
      if keys.None? {
        return false;  // derivation failed
      }
      CopyInto(decryptKey.data, keys.value.0);
      CopyInto(encryptKey.data, keys.value.1);
      MemZero(peer, peer.Length);
      return true;
    }

    /** GetLocalPublicKey(): a copy of the local public key, or an empty buffer
        when that key is empty. */
    method GetLocalPublicKey() returns (key: seq<uint8>)
      requires Valid()
      ensures key == PublicKey()
      ensures localPublicKey.IsEmpty() ==> key == []
    {
      if localPublicKey.IsEmpty() {
        return [];
      }
      key := localPublicKey.data[..localPublicKey.size];
    }

    /** Encrypt(source): advance the nonce by one, then emit the nonce followed by
        the box sealed under the encrypt key, or an empty buffer when sealing
        fails. The nonce stays advanced either way. */
    method Encrypt(lib: Sodium, plaintext: seq<uint8>) returns (message: seq<uint8>)
      requires Valid()
      modifies nonceBlock
      ensures Valid()
      ensures Nonce() == Increment(old(Nonce()))
      ensures message == OrEmpty(SealedMessage(lib, Nonce(), EncryptKey(), plaintext))
      ensures PublicKey() == old(PublicKey()) && SecretKey() == old(SecretKey()) &&
              DecryptKey() == old(DecryptKey()) && EncryptKey() == old(EncryptKey())
    {
      // advance the nonce by one, in place
      var next := Increment(nonce.Contents());
      CopyInto(nonce.data, next);
      var current := nonce.Contents();
      assert current == next;
      var box := lib.secretboxEasy(plaintext, current, encryptKey.Contents());
      if box.None? {
        return [];
      }
      message := current + box.value;
    }

    /** Decrypt(source): open everything after the first 24 bytes under the decrypt
        key and the nonce in those 24 bytes; an empty buffer when the tag does not
        verify. Changes nothing. */
    method Decrypt(lib: Sodium, message: seq<uint8>) returns (plaintext: seq<uint8>)
      requires Valid()
      requires |message| >= SecretboxNonceBytes + SecretboxMacBytes
      ensures plaintext == OrEmpty(OpenedMessage(lib, DecryptKey(), message))
    {
      var result := lib.secretboxOpenEasy(message[SecretboxNonceBytes..],
                                          message[..SecretboxNonceBytes],
                                          decryptKey.Contents());
      if result.None? {
        return [];
      }
      plaintext := result.value;
    }
  }
}
