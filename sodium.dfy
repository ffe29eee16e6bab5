/** Option, for the outcomes of primitives that can fail. */
module Wrappers {
  datatype Option<+T> = None | Some(value: T)
}

/** The C type uint8_t, the element type of every buffer in the model. */
module Bytes {
  newtype uint8 = x: int | 0 <= x < 256
}

/** The libsodium primitives the encryptor calls, as uninterpreted functions.

    The library itself (X25519 and BLAKE2b key exchange, XSalsa20-Poly1305
    secretbox) is foreign code. It is represented by a record of total
    functions, handed to every operation that calls into it; `Lawful` states
    the only facts about those functions that the model relies on. */
module Sodium {
  import opened Wrappers
  import opened Bytes

  const KxPublicKeyBytes: nat := 32     // crypto_kx_PUBLICKEYBYTES
  const KxSecretKeyBytes: nat := 32     // crypto_kx_SECRETKEYBYTES
  const KxSessionKeyBytes: nat := 32    // crypto_kx_SESSIONKEYBYTES
  const SecretboxKeyBytes: nat := 32    // crypto_secretbox_KEYBYTES
  const SecretboxNonceBytes: nat := 24  // crypto_secretbox_NONCEBYTES
  const SecretboxMacBytes: nat := 16    // crypto_secretbox_MACBYTES

  /** A 32-byte key: the fixed-size output of the key-exchange functions. */
  type Key = s: seq<uint8> | |s| == 32 witness seq(32, _ => 0)

  datatype Sodium = Sodium(
    /** crypto_kx_keypair, given the secret key it draws at random:
        the matching public key, or None when the call reports failure. */
    kxPublicKey: seq<uint8> -> Option<Key>,
    /** crypto_kx_server_session_keys(pk, sk, peer_pk): Some((rx, tx)) or failure. */
    kxServerSessionKeys: (seq<uint8>, seq<uint8>, seq<uint8>) -> Option<(Key, Key)>,
    /** crypto_kx_client_session_keys(pk, sk, peer_pk): Some((rx, tx)) or failure. */
    kxClientSessionKeys: (seq<uint8>, seq<uint8>, seq<uint8>) -> Option<(Key, Key)>,
    /** crypto_secretbox_easy(message, nonce, key): the sealed box (tag and ciphertext). */
    secretboxEasy: (seq<uint8>, seq<uint8>, seq<uint8>) -> Option<seq<uint8>>,
    /** crypto_secretbox_open_easy(box, nonce, key): the message, or None on a bad tag. */
    secretboxOpenEasy: (seq<uint8>, seq<uint8>, seq<uint8>) -> Option<seq<uint8>>
  )

  /** Opening what was sealed under the same key and nonce gives back the message,
      and a sealed box is exactly one tag longer than its message. */
  ghost predicate SecretboxCorrect(lib: Sodium)
  {
    forall m: seq<uint8>, n: seq<uint8>, k: seq<uint8> ::
      |n| == SecretboxNonceBytes && |k| == SecretboxKeyBytes && lib.secretboxEasy(m, n, k).Some? ==>
        |lib.secretboxEasy(m, n, k).value| == |m| + SecretboxMacBytes &&
        lib.secretboxOpenEasy(lib.secretboxEasy(m, n, k).value, n, k) == Some(m)
  }

  /** An opened message is exactly one tag shorter than the box it came from. */
  ghost predicate SecretboxOpenSize(lib: Sodium)
  {
    forall c: seq<uint8>, n: seq<uint8>, k: seq<uint8> ::
      lib.secretboxOpenEasy(c, n, k).Some? ==>
        |lib.secretboxOpenEasy(c, n, k).value| + SecretboxMacBytes == |c|
  }

  /** For two keypairs made by crypto_kx_keypair, the server formula (run with the
      server's keypair and the client's public key) and the client formula (run the
      other way round) succeed together, and the server's rx is the client's tx and
      the server's tx the client's rx. */
  ghost predicate KxSymmetric(lib: Sodium)
  {
    forall serverSecret: seq<uint8>, clientSecret: seq<uint8> ::
      lib.kxPublicKey(serverSecret).Some? && lib.kxPublicKey(clientSecret).Some? ==>
        var serverPublic := lib.kxPublicKey(serverSecret).value;
        var clientPublic := lib.kxPublicKey(clientSecret).value;
        var s := lib.kxServerSessionKeys(serverPublic, serverSecret, clientPublic);
        var c := lib.kxClientSessionKeys(clientPublic, clientSecret, serverPublic);
        s.Some? == c.Some? &&
        (s.Some? ==> s.value.0 == c.value.1 && s.value.1 == c.value.0)
  }

  /** Everything the model assumes about the library. */
  ghost predicate Lawful(lib: Sodium)
  {
    SecretboxCorrect(lib) && SecretboxOpenSize(lib) && KxSymmetric(lib)
  }

  /** crypto_kx_keypair(pk, sk) as called on two 32-byte buffers: write the secret
      key drawn from the random source (`randomSecret`) into sk, then its public key
      into pk; 0 on success, -1 when no public key could be made, in which case pk
      is left as it was. */
  method KxKeypair(lib: Sodium, pk: array<uint8>, sk: array<uint8>, randomSecret: seq<uint8>)
    returns (status: int)
    requires pk.Length == KxPublicKeyBytes && sk.Length == KxSecretKeyBytes && pk != sk
    requires |randomSecret| == KxSecretKeyBytes
    modifies pk, sk
    ensures sk[..] == randomSecret
    ensures status == 0 <==> lib.kxPublicKey(randomSecret).Some?
    ensures status == 0 ==> pk[..] == lib.kxPublicKey(randomSecret).value
    ensures status != 0 ==> status == -1 && pk[..] == old(pk[..])
  {
    forall i | 0 <= i < sk.Length {
      sk[i] := randomSecret[i];
    }
    var result := lib.kxPublicKey(randomSecret);
    if result.None? {
      return -1;
    }
    forall i | 0 <= i < pk.Length {
      pk[i] := result.value[i];
    }
    return 0;
  }
}
