# eitherbox, modelled in Dafny

eitherbox seals a payload so that either of two key holders can open it. `Encrypt`
draws a fresh 32-byte content key and a 24-byte nonce. It seals the payload with
NaCl secretbox under that key and nonce. It then seals the content key anonymously
(NaCl `box.SealAnonymous`) once for each recipient's public key. The envelope is

    [ key sealed for k1 (80 bytes) | key sealed for k2 (80 bytes) | nonce (24) ‖ secretbox ]

`keyBoxSize` is 32 + `box.AnonymousOverhead` = 32 + 48 = 80. `Box.Decrypt` rejects
an envelope of at most 160 bytes. It then splits the envelope at bytes 80 and 160.
`tryDecryptAnonymous` opens the two key boxes in order with the caller's key pair
and stops at the first that opens. Decrypt then checks that the ciphertext can hold
a nonce, copies its first 24 bytes as the nonce and opens the rest with secretbox.

The files:

- `bytes.dfy` (module `Bytes`): bytes, the 32-byte `Key` and 24-byte `Nonce`, and
  Go's `copy` into a zero-filled fixed-size array (`Copy`, specified by `Padded`).
- `wrappers.dfy` (module `Wrappers`): `Option` and `Result`.
- `nacl.dfy` (module `NaCl`): the NaCl primitives as a datatype `Primitives` of
  function values. The predicate `Lawful` states what the envelope relies on:
  - a sealed box is 48 bytes longer than its message;
  - the matching private key opens it to the message;
  - an opened box is 48 bytes shorter than the box;
  - a secretbox is 16 bytes longer than its message;
  - a secretbox opens under its own nonce and key.

  Every theorem that needs the primitives to behave assumes `Lawful(p)`, so it
  holds for every implementation with those properties. The tamper theorem also
  assumes `DetectsOneByteChange(p)`: changing any one byte of a nonce ‖ secretbox
  makes secretbox.Open reject it. `Symbolic` is a toy implementation whose
  secretbox tag is a checksum over nonce and message. `SymbolicIsLawful` and
  `SymbolicDetectsOneByteChange` prove that it satisfies both predicates, so
  neither set of assumptions is contradictory.
- `eitherbox.dfy` (module `EitherBox`): the contents of box.go.
  - `Encrypt` is a function.
  - `tryDecryptAnonymous` is a method with a loop, specified by the recursive
    function `FirstOpened`.
  - `Box.Decrypt` is a method, because it allocates and fills fixed arrays. It is
    specified by the function `Decryption`.
  - The lemmas relate them.

Randomness is an input. `Entropy` holds the content key, the nonce, and the bytes
each `SealAnonymous` call would read from `rand.Reader`.

tryDecryptAnonymous returns at the first key box that opens (box.go:75-78), and
reports failure only after trying every key box (box.go:81).
`TryDecryptAnonymous` records, in a ghost sequence `tried`, the positions it
hands to box.OpenAnonymous. That sequence is 0, 1, ... up to the first key box
that opened, or every position when none opened.

## Model

| member | source | states |
|---|---|---|
| `EitherBox.Encrypt` | box.go:20-38 | Encrypt produces no envelope at all exactly when one of the two anonymous seals fails (the panic paths); otherwise it produces one |
| `EitherBox.EncryptLayout` | box.go:22-37 | the envelope is seal-for-k1, then seal-for-k2, then nonce ‖ secretbox; the slices at 0..80, 80..160 and 160.. give back exactly those three segments; bytes 160..184 are the nonce; the length is 2·80 + 24 + payload + 16 |
| `EitherBox.FirstOpened` | box.go:72-82 | a result names a position inside the candidate list, and the candidate at that position opens to the returned bytes |
| `EitherBox.FirstOpenedIsFirst` | box.go:73-81 | success at position i with bytes m holds iff candidate i opens to m and every earlier candidate fails; failure holds iff every candidate fails |
| `EitherBox.KeyBoxSizeIsSealedKeyLength` | box.go:70 | keyBoxSize is 80, and a content key sealed for any recipient is exactly keyBoxSize bytes long |
| `EitherBox.ContentKey` | box.go:76-77 | the key handed back is the first 32 opened bytes, or, when fewer were opened, those bytes followed by zeros, as `new([32]byte)` and `copy` leave it |
| `EitherBox.TryDecryptAnonymous` | box.go:72-82 | succeeds iff some candidate opens; it returns a freshly allocated 32-byte array holding the first opened bytes as `copy` leaves them; the candidates it tries are, in order, 0 up to the first that opened and none after it, so candidate 2 is never tried after candidate 1 opens; on failure it returns null after trying every candidate in order |
| `EitherBox.Candidates` | box.go:47-48 | the two key boxes of an envelope are each exactly keyBoxSize bytes |
| `EitherBox.Decryption` | box.go:41-68 | an envelope of at most 2·keyBoxSize bytes is rejected as invalid whatever the primitives do; the too-small-ciphertext error arises only for lengths 161..183; a success implies the ciphertext held a whole nonce; every failure carries an error kind and no plaintext |
| `EitherBox.Decrypt` | box.go:41-68 | the method returns exactly the result of `Decryption` on the same envelope and key pair |
| `EitherBox.UnwrapRecoversContentKey` | box.go:47-52 | for either recipient of an envelope, the key unwrap succeeds and yields the content key Encrypt drew |
| `EitherBox.RoundTrip` | box.go:41-68 | decrypting an envelope produced by Encrypt, with either recipient's key pair, returns the payload |
| `EitherBox.RoundTripRecipient1` | box_test.go:21-25 | the holder of k1's private key always gets the payload back |
| `EitherBox.RoundTripRecipient2` | box_test.go:27-31 | the holder of k2's private key gets the payload back when key box 1 does not open for them to a different key |
| `EitherBox.IdenticalRecipientsHarmless` | box.go:73-79 | when both public keys are the same, key box 1 opens for recipient 2 to the content key, so the condition of `RoundTripRecipient2` holds |
| `EitherBox.TamperedCiphertextRejected` | box_test.go:41-47 | changing any byte at or after offset 160 (nonce or secretbox) makes Decrypt fail with an authentication error for either recipient, given that secretbox.Open rejects every one-byte change of a nonce ‖ secretbox |
| `EitherBox.UndecryptableIffNoSegmentOpens` | box.go:51-55 | Decrypt reports that no key box opens exactly when the envelope is long enough and neither key box opens under the caller's key pair |
| `EitherBox.DecryptedOnlyIfAuthentic` | box.go:57-67 | a plaintext comes back only if some key box opened (and no earlier one did) and secretbox.Open, on the bytes after offset 184 with bytes 160..184 as nonce and the opened key, produced that plaintext |
| `Bytes.Padded` | box.go:76-77 | a fresh n-byte array after `copy` holds the source's bytes where the source reaches and zero elsewhere |
| `Bytes.PaddedExact` | box.go:76-77 | copying exactly 32 opened bytes into a new 32-byte array keeps them all |
| `Bytes.Copy` | box.go:61-62 | Go's `copy` writes min(len(dst), len(src)) bytes of the source into the array and leaves the rest as it was |

## Left out

- `randomKey` and `randomNonce` (box.go:84-106) read the operating system's random source. The model takes the key and nonce as inputs (`Entropy`). Their panics on a short read are not modelled.
- The randomness `box.SealAnonymous` reads from `rand.Reader` is an input too. A failed read, and the panic it causes in Encrypt, is the single outcome `None`.
- The NaCl primitives (secretbox, anonymous sealed boxes, `box.GenerateKey`) are foreign code. They are the abstract `Primitives` with the `Lawful` properties, and nothing about X25519, XSalsa20 or Poly1305 is modelled.
- Exclusivity against a third key pair (box_test.go:33-39) and the non-determinism of Encrypt are probabilistic claims and are not proved. `UndecryptableIffNoSegmentOpens` gives the deterministic part: a key pair for which neither key box opens gets an error.
- RoundTripRecipient2: assumes that key box 1 either does not open under recipient 2's key pair or opens to the content key. The `Lawful` properties cannot rule out that it opens to other bytes. The real primitives make that negligibly unlikely.
- TamperedCiphertextRejected: covers changes to the ciphertext segment only, the case box_test.go:41-47 exercises. Changes inside a key box are not covered. The lemma also assumes `DetectsOneByteChange`, that secretbox.Open rejects every one-byte change of a nonce ‖ secretbox. This is a deterministic stand-in for Poly1305's probabilistic unforgeability.
- The text of the `fmt.Errorf` messages and the `%w` wrapping of tryDecryptAnonymous's error are not modelled. The four failure sites are the four `DecryptError` kinds.
- Keys are `*[32]byte` pointers in the source and values here. The sub-slices Decrypt takes share memory with the envelope; nothing writes through them, so the model treats them as values.
- Timing behaviour (the early return in tryDecryptAnonymous) is modelled only as the order and number of open attempts.
- Go's distinction between a nil and an empty plaintext slice is not modelled.
