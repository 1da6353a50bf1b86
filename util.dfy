/**
  Word codec helpers (util.h): masks, big-endian loads and stores of 1 to 8
  bytes, padding, clearing, rotation and the constant-time tag comparison.

  Byte buffers are sequences of `bv8`; a 64-bit word read from memory is
  assembled little-endian, as on the little-endian host, and `ForceBigEndian`
  turns it into the big-endian view used by the cipher.
 */
module Util {
  import opened Endian

  const ONES: bv64 := 0xffff_ffff_ffff_ffff

  /** The XOR of two words, the `^` and `^=` of the cipher's data path. */
  function Xor(a: bv64, b: bv64): bv64
  {
    a ^ b
  }

  /** The bits of `x` under the mask `m`. */
  function Within(x: bv64, m: bv64): bv64
  {
    x & m
  }

  /** The bits of `x` outside the mask `m`. */
  function Outside(x: bv64, m: bv64): bv64
  {
    x & !m
  }

  /** The low `n` bytes of a word set; `n = 0` would shift by 64. */
  function Mask(n: nat): bv64
    requires 1 <= n <= 8
  {
    ONES >> (64 - 8 * n as bv8)
  }

  /** Exactly the low 8n bits are set, and mask(8) is all ones. */
  lemma MaskLowBits(n: nat)
    requires 1 <= n <= 8
    ensures n < 8 ==> Mask(n) == (1 << (8 * n as bv8)) - 1
    ensures n == 8 ==> Mask(n) == ONES
  {
  }

  /** The top `n` bytes of a word set: the bytes a load or store of `n` bytes touches. */
  function TopMask(n: nat): bv64
    requires n <= 8
  {
    !(ONES >> (8 * n as bv8))
  }

  /** Byte `i` of a buffer; memory past its end reads as zero. */
  function Byte(p: seq<bv8>, i: nat): bv8
  {
    if i < |p| then p[i] else 0
  }

  /** The 64-bit word at `p` as a little-endian host reads it from memory. */
  function MemoryWord(p: seq<bv8>): bv64
  {
    (Byte(p, 0) as bv64) | (Byte(p, 1) as bv64 << 8)
    | (Byte(p, 2) as bv64 << 16) | (Byte(p, 3) as bv64 << 24)
    | (Byte(p, 4) as bv64 << 32) | (Byte(p, 5) as bv64 << 40)
    | (Byte(p, 6) as bv64 << 48) | (Byte(p, 7) as bv64 << 56)
  }

  /** The first eight bytes of a buffer, zero past its end. */
  function FirstEight(p: seq<bv8>): seq<bv8>
  {
    [Byte(p, 0), Byte(p, 1), Byte(p, 2), Byte(p, 3),
     Byte(p, 4), Byte(p, 5), Byte(p, 6), Byte(p, 7)]
  }

  /** Big-endian load of the first `n` bytes of `p`: the memory word masked to
      its first `n` bytes, then byte-swapped. */
  function Load(p: seq<bv8>, n: nat): bv64
    requires 1 <= n <= 8 && n <= |p|
  {
    ForceBigEndian(MemoryWord(p) & Mask(n))
  }

  /** XOR with the same word twice gives the other word back. */
  lemma XorCancel(a: bv64, b: bv64)
    ensures Xor(a, Xor(a, b)) == b
  {
  }

  /** Two words XOR to zero exactly when they are equal. */
  lemma XorZero(a: bv64, b: bv64)
    ensures Xor(a, b) == 0 <==> a == b
  {
  }

  /** The top `n` bytes of `x`, most significant first: what a store of `n` bytes writes. */
  function TopBytes(x: bv64, n: nat): (b: seq<bv8>)
    requires n <= 8
    ensures |b| == n
  {
    seq(n, k requires 0 <= k < n => ByteAt(x, k))
  }

  /** Store of the top `n` bytes of `x` at `c[off..off + n]`; every other byte
      of `c` is left as it was. */
  method Store(c: array<bv8>, off: nat, x: bv64, n: nat)
    requires 1 <= n <= 8 && off + n <= c.Length
    modifies c
    ensures c[..off + n] == old(c[..off]) + TopBytes(x, n)
    ensures forall k | off + n <= k < c.Length :: c[k] == old(c[k])
  {
    forall j | off <= j < off + n {
      c[j] := ByteAt(x, j - off);
    }
  }

  /** The eight memory bytes of a word written by a little-endian host. */
  function MemoryBytes(w: bv64): (b: seq<bv8>)
    ensures |b| == 8
  {
    seq(8, i requires 0 <= i < 8 => ByteAt(w, 7 - i))
  }

  /** The store as the C code writes it, on the eight memory bytes `mem` at the
      destination: clear the first `n` bytes, then OR in the whole swapped word. */
  function StoreAsWritten(mem: seq<bv8>, x: bv64, n: nat): (b: seq<bv8>)
    requires |mem| == 8 && 1 <= n <= 8
    ensures |b| == 8
  {
    MemoryBytes((MemoryWord(mem) & !Mask(n)) | ForceBigEndian(x))
  }

  /** With all eight bytes the written store is a plain overwrite. */
  lemma StoreAsWrittenFull(mem: seq<bv8>, x: bv64)
    requires |mem| == 8
    ensures StoreAsWritten(mem, x, 8) == TopBytes(x, 8)
  {
    StoreAsWrittenFullBytes(mem, x);
  }

  lemma StoreAsWrittenFullBytes(mem: seq<bv8>, x: bv64)
    requires |mem| == 8
    ensures forall k | 0 <= k < 8 :: StoreAsWritten(mem, x, 8)[k] == ByteAt(x, k)
  {
    var w := (MemoryWord(mem) & !Mask(8)) | ForceBigEndian(x);
    assert w == ForceBigEndian(x);
    ForceBigEndianBytes(x);
  }

  /** With fewer than eight bytes the written store changes a byte past the
      `n` it was asked to write: storing one byte of 0xff into zeroed memory
      sets the eighth byte. */
  lemma StoreAsWrittenOverwritesRest()
    ensures StoreAsWritten([0, 0, 0, 0, 0, 0, 0, 0], 0xff, 1)[7] == 0xff
    ensures TopBytes(0xff, 1) == [0]
  {
  }

  /** Zero the top `n` bytes of `x`; `n = 8` would shift by 64. */
  function Clear(x: bv64, n: nat): bv64
    requires n <= 7
  {
    x & (ONES >> (8 * n as bv8))
  }

  /** `Clear` in mask form: it keeps `x` outside the top `n` bytes, the form
      the proofs about the ciphertext tail use. */
  lemma ClearIsOutsideTop(x: bv64, n: nat)
    requires n <= 7
    ensures Clear(x, n) == Outside(x, TopMask(n))
    ensures Within(Clear(x, n), TopMask(n)) == 0
  {
  }

  /** `Clear` zeroes the top `n` bytes and keeps the other bytes as they were. */
  lemma ClearKeepsLowBytes(x: bv64, n: nat)
    requires n <= 7
    ensures forall k | 0 <= k < n :: ByteAt(Clear(x, n), k) == 0
    ensures forall k | n <= k < 8 :: ByteAt(Clear(x, n), k) == ByteAt(x, k)
  {
    if n == 0 {
      ClearBytesAt0(x, n);
    } else if n == 1 {
      ClearBytesAt1(x, n);
    } else if n == 2 {
      ClearBytesAt2(x, n);
    } else if n == 3 {
      ClearBytesAt3(x, n);
    } else if n == 4 {
      ClearBytesAt4(x, n);
    } else if n == 5 {
      ClearBytesAt5(x, n);
    } else if n == 6 {
      ClearBytesAt6(x, n);
    } else {
      ClearBytesAt7(x, n);
    }
  }

  /* One lemma per byte count, as for `LoadOfStore`. */

  lemma ClearBytesAt0(x: bv64, n: nat)
    requires n == 0
    ensures Clear(x, n) == x
  {
  }

  lemma ClearBytesAt1(x: bv64, n: nat)
    requires n == 1
    ensures forall k | 0 <= k < n :: ByteAt(Clear(x, n), k) == 0
    ensures forall k | n <= k < 8 :: ByteAt(Clear(x, n), k) == ByteAt(x, k)
  {
  }

  lemma ClearBytesAt2(x: bv64, n: nat)
    requires n == 2
    ensures forall k | 0 <= k < n :: ByteAt(Clear(x, n), k) == 0
    ensures forall k | n <= k < 8 :: ByteAt(Clear(x, n), k) == ByteAt(x, k)
  {
  }

  lemma ClearBytesAt3(x: bv64, n: nat)
    requires n == 3
    ensures forall k | 0 <= k < n :: ByteAt(Clear(x, n), k) == 0
    ensures forall k | n <= k < 8 :: ByteAt(Clear(x, n), k) == ByteAt(x, k)
  {
  }

  lemma ClearBytesAt4(x: bv64, n: nat)
    requires n == 4
    ensures forall k | 0 <= k < n :: ByteAt(Clear(x, n), k) == 0
    ensures forall k | n <= k < 8 :: ByteAt(Clear(x, n), k) == ByteAt(x, k)
  {
  }

  lemma ClearBytesAt5(x: bv64, n: nat)
    requires n == 5
    ensures forall k | 0 <= k < n :: ByteAt(Clear(x, n), k) == 0
    ensures forall k | n <= k < 8 :: ByteAt(Clear(x, n), k) == ByteAt(x, k)
  {
  }

  lemma ClearBytesAt6(x: bv64, n: nat)
    requires n == 6
    ensures forall k | 0 <= k < n :: ByteAt(Clear(x, n), k) == 0
    ensures forall k | n <= k < 8 :: ByteAt(Clear(x, n), k) == ByteAt(x, k)
  {
  }

  lemma ClearBytesAt7(x: bv64, n: nat)
    requires n == 7
    ensures forall k | 0 <= k < n :: ByteAt(Clear(x, n), k) == 0
    ensures forall k | n <= k < 8 :: ByteAt(Clear(x, n), k) == ByteAt(x, k)
  {
  }

  /** The padding word for a last block of `n` bytes: 0x80 at big-endian byte `n`. */
  function Pad(n: nat): bv64
    requires n <= 7
  {
    0x80 << (56 - 8 * n as bv8)
  }

  /** The padding word is the single bit 63 - 8n, just past the `n` data bytes,
      and clearing those bytes leaves it in place. */
  lemma PadSingleBit(n: nat)
    requires n <= 7
    ensures Pad(n) == 1 << (63 - 8 * n as bv8)
    ensures Pad(n) & TopMask(n) == 0
    ensures Pad(n) & TopMask(n + 1) == Pad(n)
    ensures Clear(Pad(n), n) == Pad(n)
  {
  }

  /** Right rotation by `n`; `n = 0` would shift by 64. */
  function Rotr(x: bv64, n: bv8): bv64
    requires 1 <= n <= 63
  {
    (x >> n) | (x << (64 - n))
  }

  /** The value of the tag check: OR the two words, fold the result into its
      low byte, and turn "low byte is zero" into 0 and anything else into -1.
      In C, shifting the negative `int` right by 8 is implementation-defined.
      The model takes the arithmetic shift that common compilers emit, a floor
      division by 256, and `& 1` is then the remainder mod 2. The check is 0
      exactly when both words are zero, and -1 otherwise. */
  function NotZero(a: bv64, b: bv64): (r: int)
    ensures r == 0 <==> a == 0 && b == 0
    ensures r == 0 || r == -1
  {
    FoldLowByte(a, b);
    var r0 := a | b;
    var r1 := r0 | (r0 >> 32);
    var r2 := r1 | (r1 >> 16);
    var r3 := r2 | (r2 >> 8);
    var low := (r3 & 0xff) as int;
    ((low - 1) / 256) % 2 - 1
  }

  /** Folding the word into its low byte loses no set bit. */
  lemma FoldLowByte(a: bv64, b: bv64)
    ensures
      var r0 := a | b;
      var r1 := r0 | (r0 >> 32);
      var r2 := r1 | (r1 >> 16);
      var r3 := r2 | (r2 >> 8);
      (r3 & 0xff == 0) == (a | b == 0)
  {
  }

  /** The swap of the little-endian mask of `n` bytes is the mask of the top `n` bytes. */
  lemma MaskToTop(n: nat)
    requires 1 <= n <= 8
    ensures ForceBigEndian(Mask(n)) == TopMask(n)
  {
  }

  /** A word with only its low `n` bytes set swaps to one with only its top `n` bytes set. */
  lemma ForceBigEndianMasked(x: bv64, n: nat)
    requires 1 <= n <= 8
    ensures ForceBigEndian(x & Mask(n)) & !TopMask(n) == 0
  {
    ForceBigEndianAnd(x, Mask(n));
    MaskToTop(n);
  }

  /** A load of `n` bytes is the swapped memory word with everything below its
      top `n` bytes cleared. */
  lemma LoadIsTopOfWord(p: seq<bv8>, n: nat)
    requires 1 <= n <= 8 && n <= |p|
    ensures Load(p, n) == ForceBigEndian(MemoryWord(p)) & TopMask(n)
  {
    ForceBigEndianAnd(MemoryWord(p), Mask(n));
    MaskToTop(n);
  }

  /** A load leaves the low 8 - n bytes zero. */
  lemma LoadLowBytesZero(p: seq<bv8>, n: nat)
    requires 1 <= n <= 8 && n <= |p|
    ensures Within(Load(p, n), TopMask(n)) == Load(p, n)
    ensures Outside(Load(p, n), TopMask(n)) == 0
  {
    hide *;
    LoadIsTopOfWord(p, n);
    MaskedBits(ForceBigEndian(MemoryWord(p)), TopMask(n));
  }

  /** A word masked by `m` has nothing outside `m`. */
  lemma MaskedBits(y: bv64, m: bv64)
    ensures Within(y & m, m) == y & m
    ensures Outside(y & m, m) == 0
  {
  }

  /** The swapped memory word holds the buffer's first eight bytes in order. */
  lemma SwappedWordBytes(p: seq<bv8>)
    ensures TopBytes(ForceBigEndian(MemoryWord(p)), 8) == FirstEight(p)
  {
    SwappedWordFirstHalf(p);
    SwappedWordSecondHalf(p);
  }

  lemma SwappedWordFirstHalf(p: seq<bv8>)
    ensures ByteAt(ForceBigEndian(MemoryWord(p)), 0) == Byte(p, 0)
    ensures ByteAt(ForceBigEndian(MemoryWord(p)), 1) == Byte(p, 1)
    ensures ByteAt(ForceBigEndian(MemoryWord(p)), 2) == Byte(p, 2)
    ensures ByteAt(ForceBigEndian(MemoryWord(p)), 3) == Byte(p, 3)
  {
  }

  lemma SwappedWordSecondHalf(p: seq<bv8>)
    ensures ByteAt(ForceBigEndian(MemoryWord(p)), 4) == Byte(p, 4)
    ensures ByteAt(ForceBigEndian(MemoryWord(p)), 5) == Byte(p, 5)
    ensures ByteAt(ForceBigEndian(MemoryWord(p)), 6) == Byte(p, 6)
    ensures ByteAt(ForceBigEndian(MemoryWord(p)), 7) == Byte(p, 7)
  {
  }

  lemma FirstEightPrefix(p: seq<bv8>, n: nat)
    requires n <= 8 && n <= |p|
    ensures FirstEight(p)[..n] == p[..n]
  {
  }

  lemma TopBytesPrefix(y: bv64, n: nat)
    requires n <= 8
    ensures TopBytes(y, 8)[..n] == TopBytes(y, n)
  {
  }

  /** Storing the loaded word writes back the bytes that were loaded. */
  lemma StoreOfLoad(p: seq<bv8>, n: nat)
    requires 1 <= n <= 8 && n <= |p|
    ensures TopBytes(Load(p, n), n) == p[..n]
  {
    var w := ForceBigEndian(MemoryWord(p));
    LoadIsTopOfWord(p, n);
    TopBytesMasked(w, n);
    TopBytesPrefix(w, n);
    SwappedWordBytes(p);
    FirstEightPrefix(p, n);
  }

  /** Loading all of a buffer of at most eight bytes and storing the word
      back writes the same buffer. */
  lemma StoreOfLoadAll(p: seq<bv8>)
    requires 1 <= |p| <= 8
    ensures TopBytes(Load(p, |p|), |p|) == p
  {
    StoreOfLoad(p, |p|);
  }

  /** The bytewise XOR of two byte strings of one length. */
  function XorBytes(a: seq<bv8>, b: seq<bv8>): (c: seq<bv8>)
    requires |a| == |b|
    ensures |c| == |a|
  {
    seq(|a|, k requires 0 <= k < |a| => a[k] ^ b[k])
  }

  /** XORing the same bytes twice gives the other bytes back. */
  lemma XorBytesCancel(a: seq<bv8>, b: seq<bv8>)
    requires |a| == |b|
    ensures XorBytes(a, XorBytes(a, b)) == b
  {
    forall k | 0 <= k < |a|
      ensures XorBytes(a, XorBytes(a, b))[k] == b[k]
    {
      assert a[k] ^ (a[k] ^ b[k]) == b[k];
    }
  }

  /** Each byte of an XOR of words is the XOR of their bytes. */
  lemma ByteAtXor(a: bv64, b: bv64)
    ensures forall k | 0 <= k < 8 :: ByteAt(Xor(a, b), k) == ByteAt(a, k) ^ ByteAt(b, k)
  {
  }

  /** Storing an XOR of words writes the XOR of their stores. */
  lemma TopBytesXor(a: bv64, b: bv64, n: nat)
    requires n <= 8
    ensures TopBytes(Xor(a, b), n) == XorBytes(TopBytes(a, n), TopBytes(b, n))
  {
    ByteAtXor(a, b);
  }

  /** Loading the eight bytes a word was stored to gives the word back. */
  lemma LoadOfStoredWord(x: bv64)
    ensures Load(TopBytes(x, 8), 8) == x
  {
    LoadOfStore(x, 8);
    assert TopMask(8) == ONES;
  }

  /* The word algebra of the last ciphertext block. With `t` the ciphertext
     bytes, set only under the mask `m` of their positions, and `w` the padded
     rate word, `Xor(w, t)` is the plaintext word. */

  /** Decrypting the ciphertext bytes of an encryption rebuilds the word the
      encryption left: the plaintext word `Xor(w, t)` split at the mask, its
      ciphertext bytes under the mask and the rate word outside it. */
  lemma ReloadedWord(w: bv64, t: bv64, m: bv64)
    requires Outside(t, m) == 0
    ensures Xor(Outside(Xor(w, Within(Xor(w, t), m)), m), Within(Xor(w, t), m)) == Xor(w, t)
  {
  }

  /** Re-encrypting the plaintext bytes gives the word the decryption rebuilds:
      the plaintext word outside the mask, with the ciphertext bytes XORed in. */
  lemma ReencryptedWord(w: bv64, t: bv64, m: bv64)
    requires Outside(t, m) == 0
    ensures Xor(w, Within(Xor(w, t), m)) == Xor(Outside(Xor(w, t), m), t)
  {
    ReencryptedBits(w, t, m);
  }

  /** `ReencryptedWord` on the bit operators themselves. */
  lemma ReencryptedBits(w: bv64, t: bv64, m: bv64)
    requires t & !m == 0
    ensures Xor(w, Xor(w, t) & m) == Xor(Xor(w, t) & !m, t)
  {
  }

  /** Loading what a store of `n` bytes wrote gives `x` with its low 8 - n bytes zeroed. */
  lemma LoadOfStore(x: bv64, n: nat)
    requires 1 <= n <= 8
    ensures Load(TopBytes(x, n), n) == Within(x, TopMask(n))
  {
    if n == 1 {
      LoadOfStoreAt1(x, n);
    } else if n == 2 {
      LoadOfStoreAt2(x, n);
    } else if n == 3 {
      LoadOfStoreAt3(x, n);
    } else if n == 4 {
      LoadOfStoreAt4(x, n);
    } else if n == 5 {
      LoadOfStoreAt5(x, n);
    } else if n == 6 {
      LoadOfStoreAt6(x, n);
    } else if n == 7 {
      LoadOfStoreAt7(x, n);
    } else {
      LoadOfStoreAt8(x, n);
    }
  }

  /** The top `n` bytes of a word do not depend on the bytes below them. */
  lemma TopBytesMasked(x: bv64, n: nat)
    requires 1 <= n <= 8
    ensures TopBytes(x & TopMask(n), n) == TopBytes(x, n)
  {
    if n == 1 {
      TopBytesMaskedAt1(x, n);
    } else if n == 2 {
      TopBytesMaskedAt2(x, n);
    } else if n == 3 {
      TopBytesMaskedAt3(x, n);
    } else if n == 4 {
      TopBytesMaskedAt4(x, n);
    } else if n == 5 {
      TopBytesMaskedAt5(x, n);
    } else if n == 6 {
      TopBytesMaskedAt6(x, n);
    } else if n == 7 {
      TopBytesMaskedAt7(x, n);
    } else {
      TopBytesMaskedAt8(x, n);
    }
  }

  /* One lemma per byte count: with the count fixed, each fact is a small
     bit-vector problem. */

  lemma LoadOfStoreAt1(x: bv64, n: nat)
    requires n == 1
    ensures Load(TopBytes(x, n), n) == Within(x, TopMask(n))
  {
  }

  lemma LoadOfStoreAt2(x: bv64, n: nat)
    requires n == 2
    ensures Load(TopBytes(x, n), n) == Within(x, TopMask(n))
  {
  }

  lemma LoadOfStoreAt3(x: bv64, n: nat)
    requires n == 3
    ensures Load(TopBytes(x, n), n) == Within(x, TopMask(n))
  {
  }

  lemma LoadOfStoreAt4(x: bv64, n: nat)
    requires n == 4
    ensures Load(TopBytes(x, n), n) == Within(x, TopMask(n))
  {
  }

  lemma LoadOfStoreAt5(x: bv64, n: nat)
    requires n == 5
    ensures Load(TopBytes(x, n), n) == Within(x, TopMask(n))
  {
  }

  lemma LoadOfStoreAt6(x: bv64, n: nat)
    requires n == 6
    ensures Load(TopBytes(x, n), n) == Within(x, TopMask(n))
  {
  }

  lemma LoadOfStoreAt7(x: bv64, n: nat)
    requires n == 7
    ensures Load(TopBytes(x, n), n) == Within(x, TopMask(n))
  {
  }

  lemma LoadOfStoreAt8(x: bv64, n: nat)
    requires n == 8
    ensures Load(TopBytes(x, n), n) == Within(x, TopMask(n))
  {
  }

  lemma TopBytesMaskedAt1(x: bv64, n: nat)
    requires n == 1
    ensures forall k | 0 <= k < n :: ByteAt(x & TopMask(n), k) == ByteAt(x, k)
  {
  }

  lemma TopBytesMaskedAt2(x: bv64, n: nat)
    requires n == 2
    ensures forall k | 0 <= k < n :: ByteAt(x & TopMask(n), k) == ByteAt(x, k)
  {
  }

  lemma TopBytesMaskedAt3(x: bv64, n: nat)
    requires n == 3
    ensures forall k | 0 <= k < n :: ByteAt(x & TopMask(n), k) == ByteAt(x, k)
  {
  }

  lemma TopBytesMaskedAt4(x: bv64, n: nat)
    requires n == 4
    ensures forall k | 0 <= k < n :: ByteAt(x & TopMask(n), k) == ByteAt(x, k)
  {
  }

  lemma TopBytesMaskedAt5(x: bv64, n: nat)
    requires n == 5
    ensures forall k | 0 <= k < n :: ByteAt(x & TopMask(n), k) == ByteAt(x, k)
  {
  }

  lemma TopBytesMaskedAt6(x: bv64, n: nat)
    requires n == 6
    ensures forall k | 0 <= k < n :: ByteAt(x & TopMask(n), k) == ByteAt(x, k)
  {
  }

  lemma TopBytesMaskedAt7(x: bv64, n: nat)
    requires n == 7
    ensures forall k | 0 <= k < n :: ByteAt(x & TopMask(n), k) == ByteAt(x, k)
  {
  }

  lemma TopBytesMaskedAt8(x: bv64, n: nat)
    requires n == 8
    ensures forall k | 0 <= k < n :: ByteAt(x & TopMask(n), k) == ByteAt(x, k)
  {
  }

  /* The ten rotation amounts of the linear layer are right rotations. */

  lemma RotrIsRotation1(x: bv64)
    ensures Rotr(x, 1) == x.RotateRight(1)
  {
  }

  lemma RotrIsRotation6(x: bv64)
    ensures Rotr(x, 6) == x.RotateRight(6)
  {
  }

  lemma RotrIsRotation7(x: bv64)
    ensures Rotr(x, 7) == x.RotateRight(7)
  {
  }

  lemma RotrIsRotation10(x: bv64)
    ensures Rotr(x, 10) == x.RotateRight(10)
  {
  }

  lemma RotrIsRotation17(x: bv64)
    ensures Rotr(x, 17) == x.RotateRight(17)
  {
  }

  lemma RotrIsRotation19(x: bv64)
    ensures Rotr(x, 19) == x.RotateRight(19)
  {
  }

  lemma RotrIsRotation28(x: bv64)
    ensures Rotr(x, 28) == x.RotateRight(28)
  {
  }

  lemma RotrIsRotation39(x: bv64)
    ensures Rotr(x, 39) == x.RotateRight(39)
  {
  }

  lemma RotrIsRotation41(x: bv64)
    ensures Rotr(x, 41) == x.RotateRight(41)
  {
  }

  lemma RotrIsRotation61(x: bv64)
    ensures Rotr(x, 61) == x.RotateRight(61)
  {
  }
}
