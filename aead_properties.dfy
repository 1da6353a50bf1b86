/**
  What the AEAD phases promise together: ciphertext processing undoes
  plaintext processing and rebuilds the same state (and the other way
  round), so decryption of an encryption succeeds and returns the
  plaintext; the tag check accepts exactly the recomputed tag; encryption
  absorbs the plaintext as the sponge absorbs data; and the associated-data
  phase differs from Ascon v1.2 only when there is no associated data.
 */
module AeadProperties {
  import opened Util
  import opened Permutation
  import opened Sponge
  import opened Config
  import opened Aead

  /** Decrypting a full ciphertext block, whatever follows it, gives back the
      plaintext block and the state encryption left. */
  lemma BlockRoundTrip(x: State, r: nat, m: seq<bv8>, rest: seq<bv8>)
    requires ValidRate(r) && |m| >= r
    ensures DecryptBlock(x, r, EncryptBlock(x, r, m).out + rest)
         == Duplexed(EncryptBlock(x, r, m).state, m[..r])
  {
    if r == 16 {
      WideBlockRoundTrip(x, m, rest);
    } else {
      NarrowBlockRoundTrip(x, m, rest);
    }
  }

  /** `BlockRoundTrip` at rate 8. */
  lemma NarrowBlockRoundTrip(x: State, m: seq<bv8>, rest: seq<bv8>)
    requires |m| >= 8
    ensures DecryptBlock(x, 8, EncryptBlock(x, 8, m).out + rest)
         == Duplexed(EncryptBlock(x, 8, m).state, m[..8])
  {
    assert (EncryptBlock(x, 8, m).out + rest)[..8] == TopBytes(Xor(x.x0, Load(m[..8], 8)), 8);
    WordRoundTrip(x.x0, m[..8]);
  }

  /** `BlockRoundTrip` at rate 16: each rate word on its own. */
  lemma WideBlockRoundTrip(x: State, m: seq<bv8>, rest: seq<bv8>)
    requires |m| >= 16
    ensures DecryptBlock(x, 16, EncryptBlock(x, 16, m).out + rest)
         == Duplexed(EncryptBlock(x, 16, m).state, m[..16])
  {
    hide Load, TopBytes, Xor;
    EncryptWideBlock(x, m);
    TwoWords(TopBytes(Xor(x.x0, Load(m[..8], 8)), 8), TopBytes(Xor(x.x1, Load(m[8..16], 8)), 8), rest);
    DecryptWideBlock(x, EncryptBlock(x, 16, m).out + rest);
    WordRoundTrip(x.x0, m[..8]);
    WordRoundTrip(x.x1, m[8..16]);
    WordsOfBlock(m);
  }

  /** A full block at rate 16 encrypts word by word. */
  lemma EncryptWideBlock(x: State, m: seq<bv8>)
    requires |m| >= 16
    ensures EncryptBlock(x, 16, m)
         == Duplexed(x.(x0 := Xor(x.x0, Load(m[..8], 8)), x1 := Xor(x.x1, Load(m[8..16], 8))),
                     TopBytes(Xor(x.x0, Load(m[..8], 8)), 8) + TopBytes(Xor(x.x1, Load(m[8..16], 8)), 8))
  {
  }

  /** A full block at rate 16 decrypts word by word. */
  lemma DecryptWideBlock(x: State, c: seq<bv8>)
    requires |c| >= 16
    ensures DecryptBlock(x, 16, c)
         == Duplexed(x.(x0 := Load(c[..8], 8), x1 := Load(c[8..16], 8)),
                     TopBytes(Xor(x.x0, Load(c[..8], 8)), 8) + TopBytes(Xor(x.x1, Load(c[8..16], 8)), 8))
  {
  }

  /** The two words at the front of a byte string. */
  lemma TwoWords(a: seq<bv8>, b: seq<bv8>, rest: seq<bv8>)
    requires |a| == 8 && |b| == 8
    ensures (a + b + rest)[..8] == a && (a + b + rest)[8..16] == b
  {
  }

  /** A block of 16 bytes is its two words. */
  lemma WordsOfBlock(c: seq<bv8>)
    requires |c| >= 16
    ensures c[..16] == c[..8] + c[8..16]
  {
  }

  /** One word: the ciphertext word, loaded back and XORed with the rate
      word, gives the plaintext bytes. */
  lemma WordRoundTrip(w: bv64, m: seq<bv8>)
    requires |m| == 8
    ensures Load(TopBytes(Xor(w, Load(m, 8)), 8), 8) == Xor(w, Load(m, 8))
    ensures TopBytes(Xor(w, Xor(w, Load(m, 8))), 8) == m
  {
    LoadOfStoredWord(Xor(w, Load(m, 8)));
    XorCancel(w, Load(m, 8));
    StoreOfLoad(m, 8);
  }

  /** The last `|t| < 8` bytes: decrypting their ciphertext gives them back
      and rebuilds the word encryption left. */
  lemma TailRoundTrip(w: bv64, t: seq<bv8>)
    requires |t| < 8
    ensures DecryptTailBytes(w, EncryptTailBytes(w, t)) == t
    ensures DecryptTailWord(w, EncryptTailBytes(w, t)) == AbsorbTailWord(w, t)
  {
    if |t| > 0 {
      TailBytesBack(Xor(w, Pad(|t|)), t);
      TailWordBack(Xor(w, Pad(|t|)), t);
    }
  }

  /** With the padded word `w1`, the bytes XORed out of the word that the
      stored bytes of `w1 ^ load(t)` load into are `t` again. */
  lemma TailBytesBack(w1: bv64, t: seq<bv8>)
    requires 0 < |t| < 8
    ensures TopBytes(Xor(w1, Load(TopBytes(Xor(w1, Load(t, |t|)), |t|), |t|)), |t|) == t
  {
    TopBytesXor(w1, Load(t, |t|), |t|);
    StoreOfLoadAll(t);
    StoreOfLoadAll(TopBytes(Xor(w1, Load(t, |t|)), |t|));
    TopBytesXor(w1, Load(TopBytes(Xor(w1, Load(t, |t|)), |t|), |t|), |t|);
    XorBytesCancel(TopBytes(w1, |t|), t);
  }

  /** With the padded word `w1`, clearing the top bytes of `w1` XOR the
      reloaded ciphertext and XORing that ciphertext back in gives the word
      encryption left. */
  lemma TailWordBack(w1: bv64, t: seq<bv8>)
    requires 0 < |t| < 8
    ensures Xor(Clear(Xor(w1, Load(TopBytes(Xor(w1, Load(t, |t|)), |t|), |t|)), |t|),
                Load(TopBytes(Xor(w1, Load(t, |t|)), |t|), |t|))
         == Xor(w1, Load(t, |t|))
  {
    hide *;
    LoadOfStore(Xor(w1, Load(t, |t|)), |t|);
    LoadLowBytesZero(t, |t|);
    ClearIsOutsideTop(Xor(w1, Load(TopBytes(Xor(w1, Load(t, |t|)), |t|), |t|)), |t|);
    ReloadedWord(w1, Load(t, |t|), TopMask(|t|));
  }

  /** The last block: decrypting its ciphertext gives back the plaintext and
      the state encryption left. */
  lemma LastRoundTrip(x: State, r: nat, m: seq<bv8>)
    requires ValidRate(r) && |m| < r
    ensures DecryptLast(x, r, EncryptLast(x, r, m).out) == Duplexed(EncryptLast(x, r, m).state, m)
  {
    if r == 16 && |m| >= 8 {
      WideLastRoundTrip(x, m);
    } else {
      NarrowLastRoundTrip(x, r, m);
    }
  }

  /** `LastRoundTrip` when the last block fits in x0. */
  lemma NarrowLastRoundTrip(x: State, r: nat, m: seq<bv8>)
    requires ValidRate(r) && |m| < r && !(r == 16 && |m| >= 8)
    ensures DecryptLast(x, r, EncryptLast(x, r, m).out) == Duplexed(EncryptLast(x, r, m).state, m)
  {
    hide Load, TopBytes, Xor, AbsorbTailWord, EncryptTailBytes, DecryptTailWord, DecryptTailBytes;
    EncryptLastCases(x, r, m);
    DecryptLastCases(x, r, EncryptTailBytes(x.x0, m));
    TailRoundTrip(x.x0, m);
  }

  /** `LastRoundTrip` when the last block at rate 16 fills x0 and reaches
      into x1. */
  lemma WideLastRoundTrip(x: State, m: seq<bv8>)
    requires 8 <= |m| < 16
    ensures DecryptLast(x, 16, EncryptLast(x, 16, m).out) == Duplexed(EncryptLast(x, 16, m).state, m)
  {
    hide Load, TopBytes, Xor, AbsorbTailWord, EncryptTailBytes, DecryptTailWord, DecryptTailBytes;
    EncryptLastCases(x, 16, m);
    WordAndRest(TopBytes(Xor(x.x0, Load(m[..8], 8)), 8), EncryptTailBytes(x.x1, m[8..]));
    DecryptLastCases(x, 16, TopBytes(Xor(x.x0, Load(m[..8], 8)), 8) + EncryptTailBytes(x.x1, m[8..]));
    WordRoundTrip(x.x0, m[..8]);
    TailRoundTrip(x.x1, m[8..]);
    WordAndRest(m[..8], m[8..]);
  }

  /** A word of bytes and what follows it, split apart again. */
  lemma WordAndRest(a: seq<bv8>, b: seq<bv8>)
    requires |a| == 8
    ensures (a + b)[..8] == a && (a + b)[8..] == b
    ensures a + b == (a + b)[..8] + (a + b)[8..]
  {
  }

  /** Ciphertext processing of the bytes plaintext processing produced gives
      back the plaintext and leaves the same state. */
  lemma {:induction false} TextRoundTrip(x: State, r: nat, nr: bv8, m: seq<bv8>)
    requires ValidRate(r)
    ensures DecryptText(x, r, nr, EncryptText(x, r, nr, m).out) == Duplexed(EncryptText(x, r, nr, m).state, m)
    decreases |m|
  {
    if |m| >= r {
      assert r > 0;
      hide *;
      EncryptTextStep(x, r, nr, m);
      BlockAndRest(EncryptBlock(x, r, m).out,
                   EncryptText(Permute(EncryptBlock(x, r, m).state, nr), r, nr, m[r..]).out, r);
      DecryptTextStep(x, r, nr, EncryptBlock(x, r, m).out
                                + EncryptText(Permute(EncryptBlock(x, r, m).state, nr), r, nr, m[r..]).out);
      BlockRoundTrip(x, r, m, EncryptText(Permute(EncryptBlock(x, r, m).state, nr), r, nr, m[r..]).out);
      TextRoundTrip(Permute(EncryptBlock(x, r, m).state, nr), r, nr, m[r..]);
      BlockAndRest(m[..r], m[r..], r);
    } else {
      hide *;
      EncryptTextLast(x, r, nr, m);
      DecryptTextLast(x, r, nr, EncryptLast(x, r, m).out);
      LastRoundTrip(x, r, m);
    }
  }

  /** Plaintext processing of a text of at least one block: the first block,
      then the rest from the permuted state. */
  lemma EncryptTextStep(x: State, r: nat, nr: bv8, m: seq<bv8>)
    requires ValidRate(r) && |m| >= r
    ensures EncryptText(x, r, nr, m)
         == Duplexed(EncryptText(Permute(EncryptBlock(x, r, m).state, nr), r, nr, m[r..]).state,
                     EncryptBlock(x, r, m).out + EncryptText(Permute(EncryptBlock(x, r, m).state, nr), r, nr, m[r..]).out)
  {
  }

  /** Ciphertext processing of a text of at least one block: the first block,
      then the rest from the permuted state. */
  lemma DecryptTextStep(x: State, r: nat, nr: bv8, c: seq<bv8>)
    requires ValidRate(r) && |c| >= r
    ensures DecryptText(x, r, nr, c)
         == Duplexed(DecryptText(Permute(DecryptBlock(x, r, c).state, nr), r, nr, c[r..]).state,
                     DecryptBlock(x, r, c).out + DecryptText(Permute(DecryptBlock(x, r, c).state, nr), r, nr, c[r..]).out)
  {
  }

  /** Plaintext processing of less than a block is the last block alone. */
  lemma EncryptTextLast(x: State, r: nat, nr: bv8, m: seq<bv8>)
    requires ValidRate(r) && |m| < r
    ensures EncryptText(x, r, nr, m) == EncryptLast(x, r, m)
  {
  }

  /** Ciphertext processing of less than a block is the last block alone. */
  lemma DecryptTextLast(x: State, r: nat, nr: bv8, c: seq<bv8>)
    requires ValidRate(r) && |c| < r
    ensures DecryptText(x, r, nr, c) == DecryptLast(x, r, c)
  {
  }

  /** A block of `r` bytes and what follows it, split apart again. */
  lemma BlockAndRest(a: seq<bv8>, b: seq<bv8>, r: nat)
    requires |a| == r
    ensures (a + b)[..r] == a && (a + b)[r..] == b
    ensures a + b == (a + b)[..r] + (a + b)[r..]
  {
  }

  /** Encrypting the plaintext of a full ciphertext block, whatever follows
      it, gives back the ciphertext block and the state decryption left. */
  lemma BlockConverse(x: State, r: nat, c: seq<bv8>, rest: seq<bv8>)
    requires ValidRate(r) && |c| >= r
    ensures EncryptBlock(x, r, DecryptBlock(x, r, c).out + rest)
         == Duplexed(DecryptBlock(x, r, c).state, c[..r])
  {
    if r == 16 {
      WideBlockConverse(x, c, rest);
    } else {
      NarrowBlockConverse(x, c, rest);
    }
  }

  /** `BlockConverse` at rate 8. */
  lemma NarrowBlockConverse(x: State, c: seq<bv8>, rest: seq<bv8>)
    requires |c| >= 8
    ensures EncryptBlock(x, 8, DecryptBlock(x, 8, c).out + rest)
         == Duplexed(DecryptBlock(x, 8, c).state, c[..8])
  {
    assert (DecryptBlock(x, 8, c).out + rest)[..8] == TopBytes(Xor(x.x0, Load(c[..8], 8)), 8);
    WordConverse(x.x0, c[..8]);
  }

  /** `BlockConverse` at rate 16: each rate word on its own. */
  lemma WideBlockConverse(x: State, c: seq<bv8>, rest: seq<bv8>)
    requires |c| >= 16
    ensures EncryptBlock(x, 16, DecryptBlock(x, 16, c).out + rest)
         == Duplexed(DecryptBlock(x, 16, c).state, c[..16])
  {
    hide Load, TopBytes, Xor;
    DecryptWideBlock(x, c);
    TwoWords(TopBytes(Xor(x.x0, Load(c[..8], 8)), 8), TopBytes(Xor(x.x1, Load(c[8..16], 8)), 8), rest);
    EncryptWideBlock(x, DecryptBlock(x, 16, c).out + rest);
    WordConverse(x.x0, c[..8]);
    WordConverse(x.x1, c[8..16]);
    WordsOfBlock(c);
  }

  /** One word: the plaintext word, loaded back and XORed into the rate word,
      gives the ciphertext word and its bytes. */
  lemma WordConverse(w: bv64, c: seq<bv8>)
    requires |c| == 8
    ensures Xor(w, Load(TopBytes(Xor(w, Load(c, 8)), 8), 8)) == Load(c, 8)
    ensures TopBytes(Load(c, 8), 8) == c
  {
    LoadOfStoredWord(Xor(w, Load(c, 8)));
    XorCancel(w, Load(c, 8));
    StoreOfLoad(c, 8);
  }

  /** The last `|u| < 8` ciphertext bytes: encrypting their plaintext gives
      them back and the word decryption rebuilt. */
  lemma TailConverse(w: bv64, u: seq<bv8>)
    requires |u| < 8
    ensures EncryptTailBytes(w, DecryptTailBytes(w, u)) == u
    ensures AbsorbTailWord(w, DecryptTailBytes(w, u)) == DecryptTailWord(w, u)
  {
    if |u| > 0 {
      TailBytesBack(Xor(w, Pad(|u|)), u);
      TailWordForward(Xor(w, Pad(|u|)), u);
    }
  }

  /** With the padded word `w1`, XORing in the reloaded plaintext gives the
      word ciphertext processing leaves: the ciphertext on top, `w1` below. */
  lemma TailWordForward(w1: bv64, u: seq<bv8>)
    requires 0 < |u| < 8
    ensures Xor(w1, Load(TopBytes(Xor(w1, Load(u, |u|)), |u|), |u|))
         == Xor(Clear(Xor(w1, Load(u, |u|)), |u|), Load(u, |u|))
  {
    hide *;
    LoadOfStore(Xor(w1, Load(u, |u|)), |u|);
    LoadLowBytesZero(u, |u|);
    ClearIsOutsideTop(Xor(w1, Load(u, |u|)), |u|);
    ReencryptedWord(w1, Load(u, |u|), TopMask(|u|));
  }

  /** The last block: encrypting the plaintext of its ciphertext gives back
      the ciphertext and the state decryption left. */
  lemma LastConverse(x: State, r: nat, c: seq<bv8>)
    requires ValidRate(r) && |c| < r
    ensures EncryptLast(x, r, DecryptLast(x, r, c).out) == Duplexed(DecryptLast(x, r, c).state, c)
  {
    if r == 16 && |c| >= 8 {
      WideLastConverse(x, c);
    } else {
      NarrowLastConverse(x, r, c);
    }
  }

  /** `LastConverse` when the last block fits in x0. */
  lemma NarrowLastConverse(x: State, r: nat, c: seq<bv8>)
    requires ValidRate(r) && |c| < r && !(r == 16 && |c| >= 8)
    ensures EncryptLast(x, r, DecryptLast(x, r, c).out) == Duplexed(DecryptLast(x, r, c).state, c)
  {
    hide Load, TopBytes, Xor, AbsorbTailWord, EncryptTailBytes, DecryptTailWord, DecryptTailBytes;
    DecryptLastCases(x, r, c);
    EncryptLastCases(x, r, DecryptTailBytes(x.x0, c));
    TailConverse(x.x0, c);
  }

  /** `LastConverse` when the last block at rate 16 fills x0 and reaches
      into x1. */
  lemma WideLastConverse(x: State, c: seq<bv8>)
    requires 8 <= |c| < 16
    ensures EncryptLast(x, 16, DecryptLast(x, 16, c).out) == Duplexed(DecryptLast(x, 16, c).state, c)
  {
    hide Load, TopBytes, Xor, AbsorbTailWord, EncryptTailBytes, DecryptTailWord, DecryptTailBytes;
    DecryptLastCases(x, 16, c);
    WordAndRest(TopBytes(Xor(x.x0, Load(c[..8], 8)), 8), DecryptTailBytes(x.x1, c[8..]));
    EncryptLastCases(x, 16, TopBytes(Xor(x.x0, Load(c[..8], 8)), 8) + DecryptTailBytes(x.x1, c[8..]));
    WordConverse(x.x0, c[..8]);
    TailConverse(x.x1, c[8..]);
    WordAndRest(c[..8], c[8..]);
  }

  /** Plaintext processing of the bytes ciphertext processing produced gives
      back the ciphertext and leaves the same state. */
  lemma {:induction false} TextConverse(x: State, r: nat, nr: bv8, c: seq<bv8>)
    requires ValidRate(r)
    ensures EncryptText(x, r, nr, DecryptText(x, r, nr, c).out) == Duplexed(DecryptText(x, r, nr, c).state, c)
    decreases |c|
  {
    if |c| >= r {
      assert r > 0;
      hide *;
      DecryptTextStep(x, r, nr, c);
      BlockAndRest(DecryptBlock(x, r, c).out,
                   DecryptText(Permute(DecryptBlock(x, r, c).state, nr), r, nr, c[r..]).out, r);
      EncryptTextStep(x, r, nr, DecryptBlock(x, r, c).out
                                + DecryptText(Permute(DecryptBlock(x, r, c).state, nr), r, nr, c[r..]).out);
      BlockConverse(x, r, c, DecryptText(Permute(DecryptBlock(x, r, c).state, nr), r, nr, c[r..]).out);
      TextConverse(Permute(DecryptBlock(x, r, c).state, nr), r, nr, c[r..]);
      BlockAndRest(c[..r], c[r..], r);
    } else {
      hide *;
      DecryptTextLast(x, r, nr, c);
      EncryptTextLast(x, r, nr, DecryptLast(x, r, c).out);
      LastConverse(x, r, c);
    }
  }

  /** Decryption of an encryption under the same key, nonce and associated
      data succeeds and returns the plaintext. */
  lemma DecryptOfEncrypt(p: AeadParams, k: seq<bv8>, n: seq<bv8>, ad: seq<bv8>, m: seq<bv8>)
    requires ValidAead(p) && |k| == 16 && |n| == 16
    ensures Decrypt(p, k, n, ad, Encrypt(p, k, n, ad, m)) == Decryption(0, m)
  {
    assert ValidRate(p.r);
    hide Encrypt, Decrypt, EncryptText, DecryptText, Tag, Load, TopBytes, Xor, NotZero, Finalize, Prepared;
    EncryptUnfold(p, k, n, ad, m);
    TagSplit(EncryptText(Prepared(p, KeyOf(k), n, ad), p.r, p.b, m).out,
             Tag(Finalize(EncryptText(Prepared(p, KeyOf(k), n, ad), p.r, p.b, m).state, p, KeyOf(k))));
    DecryptUnfold(p, k, n, ad, Encrypt(p, k, n, ad, m));
    TextRoundTrip(Prepared(p, KeyOf(k), n, ad), p.r, p.b, m);
    TagWords(Finalize(EncryptText(Prepared(p, KeyOf(k), n, ad), p.r, p.b, m).state, p, KeyOf(k)));
    LoadOfStoredWord(Finalize(EncryptText(Prepared(p, KeyOf(k), n, ad), p.r, p.b, m).state, p, KeyOf(k)).x3);
    LoadOfStoredWord(Finalize(EncryptText(Prepared(p, KeyOf(k), n, ad), p.r, p.b, m).state, p, KeyOf(k)).x4);
    XorZero(Finalize(EncryptText(Prepared(p, KeyOf(k), n, ad), p.r, p.b, m).state, p, KeyOf(k)).x3,
            Finalize(EncryptText(Prepared(p, KeyOf(k), n, ad), p.r, p.b, m).state, p, KeyOf(k)).x3);
    XorZero(Finalize(EncryptText(Prepared(p, KeyOf(k), n, ad), p.r, p.b, m).state, p, KeyOf(k)).x4,
            Finalize(EncryptText(Prepared(p, KeyOf(k), n, ad), p.r, p.b, m).state, p, KeyOf(k)).x4);
  }

  /** `Encrypt` as the ciphertext of the text followed by the tag. */
  lemma EncryptUnfold(p: AeadParams, k: seq<bv8>, n: seq<bv8>, ad: seq<bv8>, m: seq<bv8>)
    requires ValidAead(p) && |k| == 16 && |n| == 16
    ensures Encrypt(p, k, n, ad, m)
         == EncryptText(Prepared(p, KeyOf(k), n, ad), p.r, p.b, m).out
            + Tag(Finalize(EncryptText(Prepared(p, KeyOf(k), n, ad), p.r, p.b, m).state, p, KeyOf(k)))
  {
  }

  /** The state finalisation leaves after decrypting `c`. */
  function FinalState(p: AeadParams, k: seq<bv8>, n: seq<bv8>, ad: seq<bv8>, c: seq<bv8>): State
    requires ValidAead(p) && |k| == 16 && |n| == 16
  {
    Finalize(DecryptText(Prepared(p, KeyOf(k), n, ad), p.r, p.b, c).state, p, KeyOf(k))
  }

  /** `Decrypt` as the comparison of the last 16 bytes with the words of the
      final state, and the decrypted text. */
  lemma DecryptUnfold(p: AeadParams, k: seq<bv8>, n: seq<bv8>, ad: seq<bv8>, c: seq<bv8>)
    requires ValidAead(p) && |k| == 16 && |n| == 16 && |c| >= TAG_SIZE
    ensures Decrypt(p, k, n, ad, c)
         == Decryption(NotZero(Xor(FinalState(p, k, n, ad, c[..|c| - TAG_SIZE]).x3, Load(c[|c| - TAG_SIZE..|c| - 8], 8)),
                               Xor(FinalState(p, k, n, ad, c[..|c| - TAG_SIZE]).x4, Load(c[|c| - 8..], 8))),
                       DecryptText(Prepared(p, KeyOf(k), n, ad), p.r, p.b, c[..|c| - TAG_SIZE]).out)
  {
  }

  /** A text followed by a tag, split apart again. */
  lemma TagSplit(d: seq<bv8>, t: seq<bv8>)
    requires |t| == TAG_SIZE
    ensures (d + t)[..|d|] == d
    ensures (d + t)[|d|..|d| + 8] == t[..8] && (d + t)[|d| + 8..] == t[8..]
    ensures (d + t)[|d|..] == t
  {
  }

  /** The tag is x3 then x4, each stored big-endian: loading either half
      back gives that word. */
  lemma TagWords(f: State)
    ensures Tag(f)[..8] == TopBytes(f.x3, 8) && Tag(f)[8..] == TopBytes(f.x4, 8)
    ensures Tag(f) == TopBytes(f.x3, 8) + TopBytes(f.x4, 8)
    ensures Load(Tag(f)[..8], 8) == f.x3 && Load(Tag(f)[8..], 8) == f.x4
  {
    LoadOfStoredWord(f.x3);
    LoadOfStoredWord(f.x4);
  }

  /** The tag a ciphertext must end with: the one finalisation computes after
      decrypting the rest. */
  function ExpectedTag(p: AeadParams, k: seq<bv8>, n: seq<bv8>, ad: seq<bv8>, c: seq<bv8>): (t: seq<bv8>)
    requires ValidAead(p) && |k| == 16 && |n| == 16
    ensures |t| == TAG_SIZE
  {
    Tag(FinalState(p, k, n, ad, c))
  }

  /** Decryption returns 0 exactly when the last 16 bytes are the expected
      tag, and -1 otherwise. */
  lemma DecryptChecksTag(p: AeadParams, k: seq<bv8>, n: seq<bv8>, ad: seq<bv8>, c: seq<bv8>)
    requires ValidAead(p) && |k| == 16 && |n| == 16 && |c| >= TAG_SIZE
    ensures Decrypt(p, k, n, ad, c).code == 0
            <==> c[|c| - TAG_SIZE..] == ExpectedTag(p, k, n, ad, c[..|c| - TAG_SIZE])
    ensures Decrypt(p, k, n, ad, c).code != 0 ==> Decrypt(p, k, n, ad, c).code == -1
  {
    hide Decrypt, FinalState, Tag, Load, TopBytes, Xor, NotZero;
    DecryptUnfold(p, k, n, ad, c);
    XorZero(FinalState(p, k, n, ad, c[..|c| - TAG_SIZE]).x3, Load(c[|c| - TAG_SIZE..|c| - 8], 8));
    XorZero(FinalState(p, k, n, ad, c[..|c| - TAG_SIZE]).x4, Load(c[|c| - 8..], 8));
    WordMatchesTag(FinalState(p, k, n, ad, c[..|c| - TAG_SIZE]).x3, c[|c| - TAG_SIZE..|c| - 8]);
    WordMatchesTag(FinalState(p, k, n, ad, c[..|c| - TAG_SIZE]).x4, c[|c| - 8..]);
    TagWords(FinalState(p, k, n, ad, c[..|c| - TAG_SIZE]));
    TagSplit(c[..|c| - TAG_SIZE], c[|c| - TAG_SIZE..]);
  }

  /** Eight bytes load as a word exactly when they are that word's bytes. */
  lemma WordMatchesTag(w: bv64, t: seq<bv8>)
    requires |t| == 8
    ensures Load(t, 8) == w <==> t == TopBytes(w, 8)
  {
    StoreOfLoad(t, 8);
    LoadOfStoredWord(w);
  }

  /** Encryption absorbs the plaintext as the sponge absorbs data: the state
      it leaves, permuted once more, is the state absorbing would give. */
  lemma {:induction false} EncryptAbsorbs(x: State, r: nat, nr: bv8, m: seq<bv8>)
    requires ValidRate(r)
    ensures Permute(EncryptText(x, r, nr, m).state, nr) == Absorb(x, r, nr, m)
    decreases |m|
  {
    if |m| >= r {
      EncryptAbsorbs(Permute(AbsorbBlock(x, r, m), nr), r, nr, m[r..]);
    } else {
      assert EncryptLast(x, r, m).state == AbsorbLast(x, r, m);
    }
  }

  /** With associated data the code agrees with Ascon v1.2; without it, it
      skips the domain separation bit that Ascon v1.2 applies. */
  lemma EmptyAdSkipsDomainSeparation(x: State, p: AeadParams, ad: seq<bv8>)
    requires ValidAead(p)
    ensures |ad| > 0 ==> ProcessAd(x, p, ad) == ProcessAdStandard(x, p, ad)
    ensures ProcessAd(x, p, []) == x
    ensures ProcessAdStandard(x, p, []) != x
  {
    XorZero(x.x4, x.x4 ^ 1);
  }

  /** The key words hold the key bytes in order. */
  lemma KeyWordsHoldKey(k: seq<bv8>)
    requires |k| == 16
    ensures TopBytes(KeyOf(k).k0, 8) + TopBytes(KeyOf(k).k1, 8) == k
  {
    StoreOfLoad(k[..8], 8);
    StoreOfLoad(k[8..], 8);
    assert k[..8] + k[8..] == k;
  }

  /** The reported ciphertext length is the number of bytes written unless
      that number needs more than 32 bits, when it wraps around. */
  lemma CiphertextLengthWraps(plen: nat)
    ensures plen + TAG_SIZE < 0x1_0000_0000 ==> CiphertextLength(plen) == plen + TAG_SIZE
    ensures CiphertextLength(0xffff_fff0) == 0
  {
  }
}
