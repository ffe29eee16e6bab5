# Aspia secure channel: EncryptorSodium and SecureBuffer in Dafny

This project models the cryptographic core of the Aspia remote-desktop program.

- `EncryptorSodium` is one end of the encrypted connection between a client and a host.
  - Each end owns a key-exchange keypair, a decrypt key, an encrypt key and a 24-byte nonce counter.
  - It has a fixed role: server or client.
  - After the two ends swap public keys, each derives its session keys with its role's libsodium formula.
  - Every message goes out as `nonce || secretbox(plaintext)`, sealed under the encrypt key with a freshly incremented nonce.
  - The receiver opens it with its decrypt key and the nonce carried in the message.
- `SecureBuffer` is the move-only byte buffer that holds all of this secret material. It is zero-filled when allocated and zeroed by its destructor when non-empty. Two paths release a block without zeroing it: move assignment drops the target's previous block as it stands, and the destructor skips a block recorded with size 0, the state a self-move leaves behind.

Files:

- `sodium.dfy`
  - `Option`, and the byte type `uint8`.
  - The libsodium primitives, as a record `Sodium` of functions that every operation calling the library receives as a parameter.
  - `Lawful(lib)`: the facts about those primitives that the proofs rely on.
    - Opening a sealed box under the same key and nonce gives back the message.
    - The box is 16 bytes longer than the message.
    - An opened message is 16 bytes shorter than the box it came from.
    - For two library-made keypairs, the server formula and the client formula succeed together, with the server's rx equal to the client's tx and the server's tx equal to the client's rx.
  - `KxKeypair`, the keypair call as it writes into two buffers.
- `nonce_counter.dfy`
  - `sodium_increment`, modelled concretely as a little-endian, fixed-width counter with carry.
  - Its value semantics: adding one modulo 256^width.
  - A proof that an n-byte nonce does not repeat within 256^n increments.
- `secure_buffer.dfy`: class `SecureBuffer`.
  - The fields are the owned block (`array?`, null for an empty `unique_ptr`) and the recorded size.
  - Constructors, move construction, move assignment, the destructor (`Destroy`) and the queries.
- `encryptor_sodium.dfy`: class `EncryptorSodium`.
  - Five `SecureBuffer` fields, each owning its own block.
  - The wire format, given by the functions `SealedMessage` and `OpenedMessage`.
  - Lemmas about the wire format: its layout, the size of an opened message, and the round trip.
- `channel.dfy`: two encryptors used as the two ends of one connection.
  - The key swap.
  - The transmission of a message.
  - A whole session: create both ends, exchange keys, send two messages.
  - Its contract states the properties that only show up across calls:
    - both ends agree on keys;
    - each message sent arrives as sent;
    - consecutive messages carry nonces that differ by exactly one.

The model follows the code as written, and the code does less than a strict design of this channel would:

- There is no state guard. `Encrypt` and `Decrypt` work before any key exchange, using the all-zero keys that allocation leaves behind.
- `SetRemotePublicKey` can be called again, and then it silently re-derives and overwrites both keys. There is no "already exchanged" error.
- Failures are not told apart by kind: `Encrypt` and `Decrypt` report failure as an empty buffer, `SetRemotePublicKey` as `false`, and `Create` as a null result.
- `Decrypt` performs no length check.

## Model

| member | source | states |
|---|---|---|
| Sodium.KxKeypair | crypto/encryptor_sodium.cc:39-46 | The secret buffer receives the drawn secret key. The status is 0 exactly when the library can make its public key, and then the public buffer holds that key. Otherwise the status is -1 and the public buffer is untouched. |
| NonceCounter.IncrementValue | crypto/encryptor_sodium.cc:115 | sodium_increment adds one to the little-endian value modulo 256^width: the carry ripples upward and wraps to zero past the top. |
| NonceCounter.AdvanceValue | crypto/encryptor_sodium.cc:115 | k increments add k to the counter's value modulo 256^width. |
| NonceCounter.NoncesNeverRepeat | crypto/encryptor_sodium.cc:113-115 | Two nonces fewer than 256^width increments apart differ, so a 24-byte nonce does not repeat within 2^192 encryptions. |
| NonceCounter.LeValueBound | crypto/encryptor_sodium.cc:115 | An n-byte counter denotes a value below 256^n. |
| NonceCounter.IncrementUnique | crypto/encryptor_sodium.cc:115 | Any counter of the same width whose value is the old value plus one, modulo 256^width, is the result of sodium_increment, so its value determines it. |
| NonceCounter.LeValueInjective | crypto/encryptor_sodium.cc:115 | Two counters of one width with the same value are the same bytes. |
| SecureBuffers.MemZero | crypto/secure_buffer.h:31 | sodium_memzero sets the first n bytes to zero and leaves the rest of the block as it was. |
| SecureBuffers.CopyInto | crypto/encryptor_sodium.cc:121 | memcpy makes the first bytes of the destination equal to the source and leaves the rest as it was. |
| SecureBuffers.SecureBuffer.Default | crypto/secure_buffer.h:25 | A default buffer has no block and size 0, is empty and holds no bytes. |
| SecureBuffers.SecureBuffer.Allocate | crypto/secure_buffer.h:27-32 | A sized buffer owns a new block of exactly n bytes, all zero. It is empty exactly when n is 0, although a block was allocated. |
| SecureBuffers.SecureBuffer.MoveFrom | crypto/secure_buffer.h:34-39 | Move construction takes the other buffer's block, size and bytes, and leaves the other buffer with no block and size 0. |
| SecureBuffers.SecureBuffer.MoveAssign | crypto/secure_buffer.h:50-56 | Move assignment takes the other buffer's block, size and bytes and empties the other buffer. The target's previous block is released with its bytes unchanged, not zeroed. Moving a buffer onto itself keeps the block but records size 0. |
| SecureBuffers.SecureBuffer.Destroy | crypto/secure_buffer.h:41-48 | The destructor releases the block. If the buffer was not empty, every byte is zeroed first. A block recorded with size 0 is released with its bytes unchanged. |
| SecureBuffers.SecureBuffer.Size | crypto/secure_buffer.h:58-61 | size() is the number of bytes the buffer holds. |
| SecureBuffers.SecureBuffer.Data | crypto/secure_buffer.h:62-65 | data() of a non-empty buffer is a block holding exactly the buffer's bytes. |
| SecureBuffers.SecureBuffer.EmptyIffNoContents | crypto/secure_buffer.h:67-70 | IsEmpty() holds exactly when the buffer holds no bytes. |
| Encryptor.SessionKeysSwapped | crypto/encryptor_sodium.cc:68-93 | For library-made keypairs, the server and the client derive keys or fail together. On success the server's tx (its encrypt key) is the client's rx (its decrypt key), and the other way round. |
| Encryptor.SealedMessageLayout | crypto/encryptor_sodium.cc:117-134 | A sealed message is the plaintext length plus 24 plus 16 bytes, and its first 24 bytes are the nonce used. |
| Encryptor.OpenedMessageSize | crypto/encryptor_sodium.cc:139-148 | An opened message is 40 bytes shorter than the wire message it came from. |
| Encryptor.OpenSealed | crypto/encryptor_sodium.cc:117-148 | Opening a sealed message under the key it was sealed with gives back the plaintext. |
| Encryptor.EncryptorSodium.constructor | crypto/encryptor_sodium.cc:13-23 | The encryptor takes over the keypair's blocks and leaves the caller's buffers empty. It allocates zeroed 32-byte decrypt and encrypt keys and a 24-byte nonce filled from the random source. All blocks are fresh and distinct. |
| Encryptor.EncryptorSodium.Create | crypto/encryptor_sodium.cc:31-52 | Create fails exactly when sodium_init reports -1 or keypair generation fails. Otherwise it returns a new encryptor holding the drawn secret key and its 32-byte public key, zeroed session keys and the random nonce. |
| Encryptor.EncryptorSodium.SetRemotePublicKey | crypto/encryptor_sodium.cc:54-98 | It succeeds exactly when the peer key is 32 bytes and the role's formula derives keys. On success rx becomes the decrypt key, tx the encrypt key, and the peer buffer is zeroed. On failure the keys and the peer buffer are unchanged. The keypair and the nonce never change. |
| Encryptor.EncryptorSodium.GetLocalPublicKey | crypto/encryptor_sodium.cc:100-109 | Returns a copy of the local public key, or nothing when that key is empty. Nothing changes. |
| Encryptor.EncryptorSodium.Encrypt | crypto/encryptor_sodium.cc:111-135 | The nonce advances by one first, and stays advanced even when sealing fails. The result is the new nonce followed by the box sealed under the encrypt key, or empty on failure. The keys are unchanged. |
| Encryptor.EncryptorSodium.Decrypt | crypto/encryptor_sodium.cc:137-155 | Opens everything after the first 24 bytes under the decrypt key and the nonce in those 24 bytes, or returns empty when opening fails. Nothing changes. |
| SecureChannel.DeliverKey | crypto/encryptor_sodium.cc:54-98 | One end receives a key in its own buffer and sets it as the peer's public key. The same outcome and keys as SetRemotePublicKey, and the other end is untouched. |
| SecureChannel.ExchangeKeys | crypto/encryptor_sodium.cc:68-93 | After the swap of public keys, both ends succeed or fail together. On success the server's encrypt key is the client's decrypt key and the other way round. Nonces are unchanged. |
| SecureChannel.Transmit | crypto/encryptor_sodium.cc:111-155 | When the sender's encrypt key is the receiver's decrypt key, a sealed message carries the sender's newly incremented nonce and decrypts at the receiver to the plaintext sent. |
| SecureChannel.Session | crypto/encryptor_sodium.cc:31-155 | A session is established exactly when both ends are created and key derivation succeeds. Each sealed message is received as sent. The first message carries the client's nonce plus one, and the second carries the first's nonce plus one, modulo 2^192. |

## Left out

- The libsodium mathematics (X25519 and BLAKE2b key exchange, XSalsa20-Poly1305 secretbox) is foreign code. Its functions are parameters, and only the facts in `Lawful` are assumed about them.
- Failure of authentication is left out: a tampered or wrongly keyed message is rejected by libsodium. Nothing in the functional facts above implies this, so no contract claims it.
- `randombytes_buf` is modelled by parameters: the 24 nonce bytes and the secret key that keypair generation draws.
- `sodium_init` is process-wide library state. Only its return value is modelled, as the parameter `initStatus` of `Create`.
- `LOG(ERROR)` and `DCHECK` are logging and debug checks with no effect on results.
- `IOBuffer` is a value sequence of bytes, where empty means length 0.
  - The one exception is the peer key given to `SetRemotePublicKey`. It is zeroed in place, so it is an array.
  - An empty result on failure cannot be told apart from a successful empty plaintext, as in the code.
- Encryptor.EncryptorSodium.Decrypt: requires the message to be at least 24 + 16 bytes. The code performs no length check, and on shorter input its `size_t` subtraction wraps around. What follows depends on how `IOBuffer` handles the wrapped size and how libsodium handles the wrapped length, neither of which is part of this model, so the model excludes that input.
- Encryptor.EncryptorSodium.SetRemotePublicKey: on a failed derivation the model keeps both keys as they were. This assumes the libsodium calls write nothing on failure, which the library's code does but nothing here proves.
- `size_t` and integer widths are unbounded naturals. No buffer size arithmetic other than `Decrypt`'s can overflow for the sizes involved.
- The copy prohibition (`DISALLOW_COPY_AND_ASSIGN`) has no counterpart. Dafny objects are references and are never implicitly copied, so the model cannot copy a buffer anyway.
- SecureBuffers.SecureBuffer.Destroy: destructors run implicitly at scope exit in the code. In the model they are explicit calls, made where `Create` leaves scope on failure.
  - The moved-from buffers after a successful `Create` own nothing, so their destructors do nothing and are not called.
  - When an encryptor is destroyed, its five buffers are destroyed too. That destructor is empty and is not modelled.
- `source/client/ui/file_manager_window.h` and `desktop_capture/capturer.h` are not part of this model: a widget declaration and an abstract capture interface, with no logic that touches this core.
