# Ascon v1.2 in C, modelled in Dafny

This project models the core of `maralosil/ascon`, a C implementation of the
Ascon v1.2 family:
- the authenticated ciphers Ascon-128 and Ascon-128a;
- the hash function Ascon-Hash;
- the extendable-output function Ascon-XOF.

The state is five 64-bit words. The C code updates it in place: the
permutation, absorption, the duplexing of plaintext and ciphertext, and
squeezing.

## How the model is built

The modules follow the C files:

| module | source | content |
|---|---|---|
| `Endian` | `c/endian.h` | the little-endian host's byte swap |
| `Util` | `c/util.h` | `mask`, `load`, `store`, `clear`, `pad`, `rotr` and `notzero` on `bv64` words and byte strings |
| `Permutation` | `c/ascon.c` | `ascon_permutate`, on a five-word array |
| `Config` | `c/ascon.h`, `c/ascon.c` | the variants, their parameters, and the setup of `struct ascon_aead` and `struct ascon_hash` (classes whose fields setup assigns) |
| `Sponge` | `c/ascon.c` | absorption, shared by the associated data and the hash |
| `Aead` | `c/ascon.c` | the AEAD phases, encryption and decryption |
| `Hash` | `c/ascon.c` | hash init, absorb, squeeze and the two outputs |
| `AeadProperties` | `c/ascon.c` | what the AEAD promises |

The word helpers of c/util.h and c/endian.h (`mask`, `load`, `clear`, `pad`,
`rotr`, `notzero`, `force_big_endian`) compute values, so they become Dafny
functions on `bv64` words and byte strings. `store` and every function of
c/ascon.c change memory, so they become Dafny `method`s on arrays:
- the state is an `array<bv64>` of length 5;
- output buffers are `array<bv8>`;
- input buffers are `seq<bv8>`.

Each method is proved against a pure function of the old state. The functions
carry the properties:
- decryption inverts encryption, at every level from one word to the whole message, in both directions;
- the tag check returns 0 exactly when the tag matches;
- encryption absorbs the plaintext exactly as the sponge absorbs data;
- XOF outputs of one message are prefixes of each other;
- the permutation runs the global rounds 12 - nr .. 11;
- the S-box and the linear layer match the Ascon v1.2 tables and rotation amounts.

Every output method also proves that it writes only the bytes it is meant to
write.

Where the code departs from Ascon v1.2 or from its own header, the model
follows the code:
- **No domain separation without associated data.** `ascon_aead_proc_adata`
  returns early when `adlen == 0` (c/ascon.c:130-131). It therefore skips the
  domain-separation XOR into x4 that Ascon v1.2 (section 2.4.2 of the
  submission) applies in every case.
  `AeadProperties.EmptyAdSkipsDomainSeparation` states both sides.
- **Decryption fails with -1.** On a failed tag check `ascon_aead_decrypt`
  returns `notzero`'s value, -1. The comment in c/ascon.h:118 says it returns 1.
- **The reported ciphertext length wraps.** `*clen = plen + ASCON_TAG_SIZE` is
  computed in `uint32_t` and wraps modulo 2^32.
- **The tag size is taken as 16.** `ASCON_TAG_SIZE` is not defined in any of
  the files modelled. The model takes it as 16, the size of the two tag
  stores.
- **Short ciphertexts are excluded.** With `clen < 16`, `*plen = clen - 16`
  wraps to a huge length. The model requires a ciphertext of at least 16 bytes
  (see Left out).
- **The round counter is a byte.** `ascon_permutate`'s counter is `uint8_t`.
  A round count of 0 or above 12 runs no round at all
  (`Permutation.PermuteWithoutRounds`).

## Model

| member | source | states |
|---|---|---|
| Endian.ForceBigEndianBytes | c/endian.h:13-24 | byte k of the swapped word, most significant first, is byte 7 - k of the input word |
| Endian.ForceBigEndianInvolution | c/endian.h:14-24 | swapping twice gives the word back |
| Endian.ForceBigEndianAnd | c/endian.h:14-24 | the swap moves whole bytes, so it commutes with masking |
| Endian.ForceBigEndian | c/endian.h:13-24 | no contract of its own: the little-endian branch, eight masked byte moves; Endian.ForceBigEndianBytes states that byte k of the result is byte 7 - k of the input |
| Util.Mask | c/util.h:13-16 | no contract of its own: all ones shifted right by 64 - 8n, for 1 <= n <= 8 (n = 0 would shift by 64); Util.MaskLowBits gives its value as the low 8n bits |
| Util.Load | c/util.h:18-22 | no contract of its own: the memory word at `p` as a little-endian host reads it, masked to its first `n` bytes, then swapped. Util.StoreOfLoad, Util.LoadOfStore and Util.LoadLowBytesZero show it is the `n` bytes as the top of a big-endian word |
| Util.Clear | c/util.h:30-34 | no contract of its own: `x` ANDed with all ones shifted right by 8n, for n <= 7; Util.ClearKeepsLowBytes states that it zeroes exactly the top `n` bytes |
| Util.Pad | c/util.h:47-50 | no contract of its own: 0x80 shifted left by 56 - 8n, for n <= 7; Util.PadSingleBit places that bit |
| Util.Rotr | c/util.h:52-55 | no contract of its own: `x >> n` ORed with `x << (64 - n)`, for 1 <= n <= 63; the Util.RotrIsRotation lemmas equate it with the right rotation for the ten amounts used |
| Util.MaskLowBits | c/util.h:13-16 | `mask(n)` has exactly the low 8n bits set; `mask(8)` is all ones |
| Util.StoreOfLoad | c/util.h:18-28 | storing the word `load(p, n)` returned writes back the `n` bytes that were loaded |
| Util.StoreOfLoadAll | c/util.h:18-28 | the same, for a buffer of 1 to 8 bytes loaded and stored whole |
| Util.LoadOfStore | c/util.h:18-28 | loading the `n` bytes a store of `x` wrote gives `x` with all but its top `n` bytes zero |
| Util.LoadOfStoredWord | c/util.h:18-28 | loading the 8 bytes a word was stored to gives the word back |
| Util.LoadLowBytesZero | c/util.h:18-22 | a load of `n` bytes leaves the low 8 - n bytes of the word zero |
| Util.Store | c/util.h:24-28 | the bytes `c[off..off+n]` become the top `n` bytes of `x`, most significant first; every other byte of `c` is unchanged |
| Util.StoreAsWrittenFull | c/util.h:24-28 | with `n = 8`, the store as written overwrites the 8 bytes with the word's bytes |
| Util.StoreAsWrittenOverwritesRest | c/util.h:24-28 | with `n < 8`, the store as written changes memory past the `n` bytes: one byte of 0xff stored into zeroed memory sets the eighth byte |
| Util.ClearKeepsLowBytes | c/util.h:30-34 | big-endian bytes 0 .. n - 1 of `clear(x, n)` are zero, and bytes n .. 7 are those of `x` |
| Util.PadSingleBit | c/util.h:47-50 | `pad(n)` is the single bit 63 - 8n: outside the top `n` bytes, inside the top n + 1, and kept by `clear(_, n)` |
| Util.RotrIsRotation1 | c/util.h:52-55 | `rotr(x, 1)` is the right rotation by 1 |
| Util.RotrIsRotation6 | c/util.h:52-55 | `rotr(x, 6)` is the right rotation by 6 |
| Util.RotrIsRotation7 | c/util.h:52-55 | `rotr(x, 7)` is the right rotation by 7 |
| Util.RotrIsRotation10 | c/util.h:52-55 | `rotr(x, 10)` is the right rotation by 10 |
| Util.RotrIsRotation17 | c/util.h:52-55 | `rotr(x, 17)` is the right rotation by 17 |
| Util.RotrIsRotation19 | c/util.h:52-55 | `rotr(x, 19)` is the right rotation by 19 |
| Util.RotrIsRotation28 | c/util.h:52-55 | `rotr(x, 28)` is the right rotation by 28 |
| Util.RotrIsRotation39 | c/util.h:52-55 | `rotr(x, 39)` is the right rotation by 39 |
| Util.RotrIsRotation41 | c/util.h:52-55 | `rotr(x, 41)` is the right rotation by 41 |
| Util.RotrIsRotation61 | c/util.h:52-55 | `rotr(x, 61)` is the right rotation by 61 |
| Util.NotZero | c/util.h:36-45 | `notzero(a, b)` is 0 exactly when both words are zero, and -1 otherwise |
| Util.ReloadedWord | c/ascon.c:257-267 | clearing the loaded bytes and XORing the ciphertext back in rebuilds the word encryption left |
| Util.ReencryptedWord | c/ascon.c:257-267 | re-encrypting the decrypted bytes yields the word the decryption tail leaves |
| Permutation.RoundConstantTable | c/ascon.c:50 | the constant of round i < 12, 0xf - i in the high nibble and i in the low one, is the Ascon v1.2 constant 0xf0, 0xe1, ..., 0x4b |
| Permutation.SboxTable0 | c/ascon.c:53-79 | the bitsliced layer maps the columns 0x00..0x07 to the Ascon v1.2 S-box values |
| Permutation.SboxTable1 | c/ascon.c:53-79 | the same for the columns 0x08..0x0f |
| Permutation.SboxTable2 | c/ascon.c:53-79 | the same for the columns 0x10..0x17 |
| Permutation.SboxTable3 | c/ascon.c:53-79 | the same for the columns 0x18..0x1f |
| Permutation.LinearLayerRotations | c/ascon.c:82-86 | each word is XORed with its right rotations by (19, 28), (61, 39), (1, 6), (10, 17) and (7, 41) |
| Permutation.Permute | c/ascon.c:44-88 | no contract of its own: the rounds from 12 - nr (byte arithmetic) up to 11; Permutation.PermuteRuns and Permutation.PermuteWithoutRounds say which rounds run |
| Permutation.PermuteRuns | c/ascon.c:48 | with nr <= 12, the permutation applies exactly nr rounds, the global rounds 12 - nr .. 11 in order |
| Permutation.PermuteWithoutRounds | c/ascon.c:48 | with nr = 0 or nr > 12, the byte counter starts at 12 or more and the state is unchanged |
| Permutation.AddConstantInPlace | c/ascon.c:50 | only x2 changes, by the round constant |
| Permutation.SubstituteInPlace | c/ascon.c:53-79 | the statement sequence computes the substitution layer of the old state |
| Permutation.DiffuseInPlace | c/ascon.c:82-86 | the array holds the linear layer of the old state |
| Permutation.ApplyRound | c/ascon.c:49-86 | one round in place is the three layers in order |
| Permutation.Permutate | c/ascon.c:44-88 | the array holds the nr-round permutation of the old state |
| Config.AeadVariantOf | c/ascon.c:304-317 | the setup selects Ascon-128a exactly for its enumerator; every other value gives Ascon-128 |
| Config.HashVariantOf | c/ascon.c:327-340 | the setup selects Ascon-Hash exactly for its enumerator; every other value gives Ascon-XOF |
| Config.VariantCodesRoundTrip | c/ascon.h:16-27 | the setup of an enumerator selects that variant |
| Config.VariantParams | c/ascon.c:304-340 | the variants' rates are 8 (Ascon-128, the hashes) and 16 (Ascon-128a); a is 12 everywhere; the IVs of each pair differ |
| Config.AsconAead.Prep | c/ascon.c:295-302 | the four fields hold the given r, a, b and IV |
| Config.AsconAead.Setup | c/ascon.c:304-317 | the fields hold the selected variant's parameters, whose rate is valid |
| Config.AsconHash.Prep | c/ascon.c:319-325 | the three fields hold the given r, a and IV |
| Config.AsconHash.Setup | c/ascon.c:327-340 | the fields hold the selected variant's parameters, whose rate is valid |
| Sponge.Absorb | c/ascon.c:398-422 | no contract of its own: every full block XORed into the rate and permuted, then the padded last block and one more permutation; AeadProperties.EncryptAbsorbs ties encryption to it |
| Sponge.AbsorbBlockInPlace | c/ascon.c:133-137 | the block's first word is XORed into x0, and its second into x1 when r = 16 |
| Sponge.AbsorbLastInPlace | c/ascon.c:144-155 | the padded last block goes into x0, or into x0 and then x1 when r = 16 and 8 or more bytes remain |
| Aead.Encrypt | c/ascon.c:342-359 | the output is the ciphertext followed by the 16-byte tag, `plen + 16` bytes in all |
| Aead.Decrypt | c/ascon.c:361-381 | the plaintext has `clen - 16` bytes and the return value is 0 or -1 |
| Aead.ProcessAd | c/ascon.c:127-161 | no contract of its own: the state after associated data; AeadProperties.EmptyAdSkipsDomainSeparation compares it with Ascon v1.2 |
| Aead.EncryptText | c/ascon.c:174-208 | the ciphertext is as long as the plaintext; AeadProperties.TextRoundTrip and AeadProperties.TextConverse make it the inverse of Aead.DecryptText |
| Aead.DecryptText | c/ascon.c:221-268 | the plaintext is as long as the ciphertext; it inverts Aead.EncryptText by the same two lemmas |
| Aead.Finalize | c/ascon.c:279-293 | no contract of its own: the key into x1, x2 or x2, x3 by rate, a rounds, the key into x3, x4; Aead.AeadFinal is proved against it |
| Aead.Tag | c/ascon.c:357-358 | the tag has 16 bytes; AeadProperties.TagWords and AeadProperties.WordMatchesTag state that its halves are x3 and x4, big-endian |
| Aead.EncryptStep | c/ascon.c:177-190 | one plaintext loop iteration: the bytes written so far, followed by what the permuted state encrypts for the rest, equal the whole ciphertext; the final state is the same; later bytes are unchanged |
| Aead.EncryptWordInPlace | c/ascon.c:178-179 | a plaintext word is XORed into rate word j, and the new word is stored as 8 ciphertext bytes |
| Aead.EncryptLastWide | c/ascon.c:192-206 | with rate 16 and 8 to 15 bytes left, x0 takes a full word, its ciphertext is stored, and the padded tail goes into x1 and out |
| Aead.DecryptStep | c/ascon.c:226-243 | one ciphertext loop iteration: the bytes written so far, followed by what the permuted state decrypts for the rest, equal the whole plaintext; the final state is the same; later bytes are unchanged |
| Aead.DecryptWordInPlace | c/ascon.c:227-230 | the plaintext word is the rate word XOR the ciphertext word, which then replaces the rate word |
| Aead.DecryptLastWide | c/ascon.c:245-266 | with rate 16 and 8 to 15 bytes left, x0's plaintext is stored and x0 becomes the ciphertext word; the tail goes through x1 |
| Aead.AeadInit | c/ascon.c:101-115 | returns the key as two big-endian words; the state is IV, key and nonce permuted with a rounds, with the key XORed into x3 and x4 |
| Aead.ProcessAssociatedData | c/ascon.c:127-161 | empty data leaves the state unchanged; otherwise the data is absorbed with b rounds and 1 is XORed into x4 |
| Aead.ProcessPlaintext | c/ascon.c:174-208 | the state and `c[..plen]` are the plaintext duplexed; the rest of `c` is unchanged |
| Aead.EncryptBlockInPlace | c/ascon.c:177-185 | a full block is XORed into the rate, and the new rate words are stored as the ciphertext block |
| Aead.EncryptLastInPlace | c/ascon.c:192-207 | the last block goes into the rate with its padding, and its ciphertext bytes are stored |
| Aead.EncryptTailInPlace | c/ascon.c:202-207 | the padding and the last bytes go into the addressed word, and its top bytes are stored |
| Aead.ProcessCiphertext | c/ascon.c:221-268 | the state and `p[..clen]` are the ciphertext duplexed back; the rest of `p` is unchanged |
| Aead.DecryptBlockInPlace | c/ascon.c:226-238 | each word's plaintext is the rate XOR the ciphertext, and the ciphertext word replaces the rate word |
| Aead.DecryptLastInPlace | c/ascon.c:245-267 | the last block's plaintext is stored, and the rate keeps the ciphertext bytes and the padded word below them |
| Aead.DecryptTailInPlace | c/ascon.c:257-267 | the tail with its `clear`: the plaintext bytes are stored, and the word holds the ciphertext bytes on top of the padded word |
| Aead.AeadFinal | c/ascon.c:279-293 | the key goes into x1, x2 (r = 8) or x2, x3 (r = 16); then a rounds; then the key goes into x3 and x4 |
| Aead.StoreTag | c/ascon.c:357-358 | x3 and x4 are stored big-endian after the ciphertext |
| Aead.AeadEncrypt | c/ascon.c:342-359 | `c[..plen + 16]` is the ciphertext and the tag; the reported length is `plen + 16` modulo 2^32; later bytes are unchanged |
| Aead.AeadDecrypt | c/ascon.c:361-381 | the plaintext is written to `p[..clen - 16]` whatever the outcome, and the return value is the tag comparison |
| AeadProperties.BlockRoundTrip | c/ascon.c:177-185 | decrypting a full ciphertext block gives the plaintext block and the state encryption left |
| AeadProperties.BlockConverse | c/ascon.c:226-238 | encrypting the plaintext of a full ciphertext block gives that block and the state decryption left |
| AeadProperties.WordRoundTrip | c/ascon.c:178-179 | one word: the stored ciphertext reloads to itself, and XORing it with the rate gives the plaintext bytes back |
| AeadProperties.WordConverse | c/ascon.c:227-230 | one word: re-encrypting the decrypted bytes gives the ciphertext word |
| AeadProperties.TailRoundTrip | c/ascon.c:257-267 | for the last bytes, decryption gives the plaintext back, and the word it rebuilds is the one encryption left |
| AeadProperties.TailConverse | c/ascon.c:202-207 | for the last bytes, re-encryption gives the ciphertext back, and the word it leaves is the one decryption rebuilt |
| AeadProperties.LastRoundTrip | c/ascon.c:245-267 | decrypting the last block's ciphertext gives the plaintext and the same state |
| AeadProperties.LastConverse | c/ascon.c:192-207 | encrypting the last block's decryption gives the ciphertext and the same state |
| AeadProperties.TextRoundTrip | c/ascon.c:221-268 | processing the ciphertext that plaintext processing produced gives back the plaintext and the same state |
| AeadProperties.TextConverse | c/ascon.c:174-208 | processing the plaintext that ciphertext processing produced gives back the ciphertext and the same state |
| AeadProperties.DecryptOfEncrypt | c/ascon.c:342-381 | with the same key, nonce and associated data, decryption of an encryption returns 0 and the plaintext |
| AeadProperties.TagWords | c/ascon.c:357-358 | loading the tag's first 8 bytes gives x3, and loading its last 8 bytes gives x4 |
| AeadProperties.DecryptChecksTag | c/ascon.c:377-380 | decryption returns 0 exactly when the last 16 bytes equal the tag finalisation computes, and -1 otherwise |
| AeadProperties.WordMatchesTag | c/ascon.c:377-378 | 8 bytes load as a word exactly when they are that word's stored bytes |
| AeadProperties.EncryptAbsorbs | c/ascon.c:174-208 | the state plaintext processing leaves, permuted, is the state absorbing the plaintext gives |
| AeadProperties.EmptyAdSkipsDomainSeparation | c/ascon.c:130-160 | with associated data the code matches Ascon v1.2; without it the state is unchanged, where Ascon v1.2 would flip a bit of x4 |
| AeadProperties.KeyWordsHoldKey | c/ascon.c:105-106 | the two key words hold the 16 key bytes in order |
| AeadProperties.CiphertextLengthWraps | c/ascon.c:350 | the reported length is `plen + 16` below 2^32, and 0 for `plen = 0xfffffff0` |
| Hash.LastBytesCases | c/ascon.c:439-448 | the output for the last bytes in the shapes the stores take: all of x0 and the top of x1, all of x0, the top of x0, or nothing |
| Hash.LastBytesArePrefix | c/ascon.c:439-448 | the output for the last `n < r` bytes is the first `n` bytes of a full block |
| Hash.Squeeze | c/ascon.c:425-449 | exactly `outlen` bytes come out; Hash.SqueezePrefix makes shorter outputs prefixes of longer ones |
| Hash.Xof | c/ascon.c:457-465 | exactly `outlen` bytes come out; Hash.XofPrefix makes shorter outputs prefixes of longer ones |
| Hash.SqueezeStep | c/ascon.c:428-437 | one squeezing loop iteration: the bytes written so far, followed by what the permuted state squeezes for the rest, equal the whole output; the final state is the same |
| Hash.HashInit | c/ascon.c:383-393 | the state is the IV in x0 and zeros elsewhere, permuted with a rounds |
| Hash.HashAbsorb | c/ascon.c:395-423 | the state absorbs the whole message with a-round permutations |
| Hash.HashSqueeze | c/ascon.c:425-449 | `out[..outlen]` holds the squeezed bytes and the state is the squeezed state; the rest of `out` is unchanged |
| Hash.SqueezeBlock | c/ascon.c:429-432 | one block of output is the rate words, big-endian |
| Hash.SqueezeLast | c/ascon.c:439-448 | the last `n < r` output bytes are stored from x0, or from x0 and x1 |
| Hash.SqueezePrefix | c/ascon.c:425-449 | squeezing fewer bytes from a state gives a prefix of squeezing more |
| Hash.XofPrefix | c/ascon.c:457-465 | for one message, the XOF output of length n is a prefix of the output of any length m >= n |
| Hash.XofOutput | c/ascon.c:457-465 | `out[..outlen]` is the XOF of the message; the rest of `out` is unchanged |
| Hash.HashOutput | c/ascon.c:451-455 | `out[..32]` is the 32-byte XOF output under the hash parameters |

## Left out

- Big-endian hosts: `force_big_endian` is the identity there (c/endian.h:25-26). The model covers the little-endian branch only.
- The raw 8-byte memory accesses of `load` and `store`: the model has no memory past a buffer. `load` reads bytes past the buffer as zero and masks them off. `store` writes exactly `n` bytes (see Findings).
- Aliasing between the input and output buffers: inputs are values and outputs are arrays, so they never overlap.
- Timing and constant-time behaviour, and all security claims (confidentiality, forgery resistance).
- `main.c`, the demonstration program: it is not part of this model.
- Parameters not produced by the setup functions: `Config.ValidAead` and `Config.ValidHash` keep the rate at 8 or 16 bytes, as `ascon_aead_setup`, `ascon_hash_setup` and the prep functions set it. `struct ascon_aead` and `struct ascon_hash` are public, though. A hand-filled `r = 0` makes the loops at c/ascon.c:133, 177, 226, 398 and 428 run forever, and such structs are not modelled.
- Util.NotZero: `notzero` shifts a negative `int` right by 8, which C leaves implementation-defined. The model takes the arithmetic shift (floor division by 256) of common compilers. A compiler with a logical shift would give a different value.
- Util.RotrIsRotation1: `rotr` is proved a rotation only for the ten amounts the linear layer uses, one lemma each.
- Permutation.SboxTable0: the S-box is checked entry by entry against the table for the 32 column values, not as a general statement.
- Aead.AeadEncrypt: the C lengths are `uint32_t`, so the model requires lengths below 2^32.
- Aead.AeadDecrypt: requires `clen >= 16`. With a shorter ciphertext, `clen - ASCON_TAG_SIZE` wraps in `uint32_t` and the code reads and writes far past its buffers, which the model does not capture.
- Aead.Decrypt: same `clen >= 16` requirement, for the same reason.
- `ASCON_TAG_SIZE`: not defined in any of the modelled files; taken as 16 (`Config.TAG_SIZE`).

## Findings

| source | as written | input that shows it | evidently intended | confidence | as-written member | corrected member |
|---|---|---|---|---|---|---|
| c/util.h:24-28 | `store` clears the first `n` bytes at `c`, then ORs in all eight bytes of the swapped word. For `n < 8` the bytes past `n` are ORed with the word's lower bytes, and memory past the destination is written. | `n = 1`, `x = 0xff`, eight zero bytes at `c`: the eighth byte becomes 0xff | write exactly the top `n` bytes of `x` to `c[0..n)` and nothing else | not executed | Util.StoreAsWritten, Util.StoreAsWrittenOverwritesRest | Util.Store |
