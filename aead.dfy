/**
  Ascon-128 and Ascon-128a authenticated encryption (`ascon_aead_init`,
  `ascon_aead_proc_adata`, `ascon_aead_proc_ptext`, `ascon_aead_proc_ctext`,
  `ascon_aead_final`, `ascon_aead_encrypt`, `ascon_aead_decrypt`).

  The functions state each phase on state values; the methods run the phases
  on the five-word state array, and the output buffers are arrays whose bytes
  past what a phase writes stay as they were.
 */
module Aead {
  import opened Util
  import opened Permutation
  import opened Sponge
  import opened Config

  /** `struct key`: the key as two big-endian words. */
  datatype Key = Key(k0: bv64, k1: bv64)

  function KeyOf(k: seq<bv8>): Key
    requires |k| == 16
  {
    Key(Load(k[..8], 8), Load(k[8..], 8))
  }

  /** The state after initialisation: IV, key and nonce permuted with `a`
      rounds, then the key XORed into x3 and x4. */
  function InitialState(p: AeadParams, key: Key, n: seq<bv8>): State
    requires |n| == 16
  {
    var x := Permute(State(p.iv, key.k0, key.k1, Load(n[..8], 8), Load(n[8..], 8)), p.a);
    x.(x3 := Xor(x.x3, key.k0), x4 := Xor(x.x4, key.k1))
  }

  /** Associated data as the code processes it: nothing at all when there is
      none; otherwise absorbed with `b`-round permutations, then the domain
      separation bit XORed into x4. */
  function ProcessAd(x: State, p: AeadParams, ad: seq<bv8>): State
    requires ValidAead(p)
  {
    if |ad| == 0 then x
    else
      var y := Absorb(x, p.r, p.b, ad);
      y.(x4 := Xor(y.x4, 1))
  }

  /** Associated data as Ascon v1.2 (section 2.4.2) processes it: the domain
      separation bit is XORed in whether or not there is associated data. */
  function ProcessAdStandard(x: State, p: AeadParams, ad: seq<bv8>): State
    requires ValidAead(p)
  {
    var y := if |ad| == 0 then x else Absorb(x, p.r, p.b, ad);
    y.(x4 := Xor(y.x4, 1))
  }

  /** The state after initialisation and associated data. */
  function Prepared(p: AeadParams, key: Key, n: seq<bv8>, ad: seq<bv8>): State
    requires ValidAead(p) && |n| == 16
  {
    ProcessAd(InitialState(p, key, n), p, ad)
  }

  /** A full plaintext block: XORed into the rate as in absorption, and the
      new rate words are the ciphertext block. */
  function EncryptBlock(x: State, r: nat, m: seq<bv8>): (d: Duplexed)
    requires ValidRate(r) && |m| >= r
    ensures |d.out| == r
  {
    var y := AbsorbBlock(x, r, m);
    Duplexed(y, RateBytes(y, r))
  }

  /** The ciphertext of the last `|t| < 8` plaintext bytes: the top bytes of
      the padded word with those bytes XORed in. */
  function EncryptTailBytes(w: bv64, t: seq<bv8>): (b: seq<bv8>)
    requires |t| < 8
    ensures |b| == |t|
  {
    if |t| > 0 then TopBytes(AbsorbTailWord(w, t), |t|) else []
  }

  /** The last plaintext block of `|m| < r` bytes: with rate 16 and at least
      8 bytes, a full word into x0 first; then the padding and the remaining
      bytes into the word `x` addresses, whose top bytes are the
      ciphertext. */
  function EncryptLast(x: State, r: nat, m: seq<bv8>): (d: Duplexed)
    requires ValidRate(r) && |m| < r
    ensures |d.out| == |m|
  {
    var j := TailIndex(r, |m|);
    var y := if j == 1 then x.(x0 := Xor(x.x0, Load(m[..8], 8))) else x;
    var first := if j == 1 then TopBytes(y.x0, 8) else [];
    var t := m[8 * j..];
    var w := RateWord(y, j);
    Duplexed(WithRateWord(y, j, AbsorbTailWord(w, t)), first + EncryptTailBytes(w, t))
  }

  /** The plaintext duplexed into ciphertext: full blocks with a `nr`-round
      permutation after each, then the last block, with no permutation after it. */
  function EncryptText(x: State, r: nat, nr: bv8, m: seq<bv8>): (d: Duplexed)
    requires ValidRate(r)
    ensures |d.out| == |m|
    decreases |m|
  {
    if |m| >= r then
      var b := EncryptBlock(x, r, m);
      var rest := EncryptText(Permute(b.state, nr), r, nr, m[r..]);
      Duplexed(rest.state, b.out + rest.out)
    else
      EncryptLast(x, r, m)
  }

  /** A full ciphertext block: the plaintext is the rate XOR the ciphertext,
      and the ciphertext words replace the rate. */
  function DecryptBlock(x: State, r: nat, c: seq<bv8>): (d: Duplexed)
    requires ValidRate(r) && |c| >= r
    ensures |d.out| == r
  {
    var t0 := Load(c[..8], 8);
    var out0 := TopBytes(Xor(x.x0, t0), 8);
    if r == 16 then
      var t1 := Load(c[8..16], 8);
      Duplexed(x.(x0 := t0, x1 := t1), out0 + TopBytes(Xor(x.x1, t1), 8))
    else
      Duplexed(x.(x0 := t0), out0)
  }

  /** The plaintext of the last `|t| < 8` ciphertext bytes: the top bytes of
      the padded word XOR the ciphertext. */
  function DecryptTailBytes(w: bv64, t: seq<bv8>): (b: seq<bv8>)
    requires |t| < 8
    ensures |b| == |t|
  {
    if |t| > 0 then TopBytes(Xor(Xor(w, Pad(|t|)), Load(t, |t|)), |t|) else []
  }

  /** The word after the last `|t| < 8` ciphertext bytes: the padded word XOR
      the ciphertext, with its top bytes cleared and the ciphertext XORed back
      in, so that they hold the ciphertext and the rest the padded word. */
  function DecryptTailWord(w: bv64, t: seq<bv8>): bv64
    requires |t| < 8
  {
    var w1 := Xor(w, Pad(|t|));
    if |t| > 0 then
      var u := Load(t, |t|);
      Xor(Clear(Xor(w1, u), |t|), u)
    else
      w1
  }

  /** The last ciphertext block of `|c| < r` bytes: with rate 16 and at least
      8 bytes, a full word out of x0 first, the ciphertext word replacing it;
      then the padding and the remaining bytes through the word `x`
      addresses. */
  function DecryptLast(x: State, r: nat, c: seq<bv8>): (d: Duplexed)
    requires ValidRate(r) && |c| < r
    ensures |d.out| == |c|
  {
    var j := TailIndex(r, |c|);
    var y := if j == 1 then x.(x0 := Load(c[..8], 8)) else x;
    var first := if j == 1 then TopBytes(Xor(x.x0, Load(c[..8], 8)), 8) else [];
    var t := c[8 * j..];
    var w := RateWord(y, j);
    Duplexed(WithRateWord(y, j, DecryptTailWord(w, t)), first + DecryptTailBytes(w, t))
  }

  /** The ciphertext duplexed back into plaintext, block by block as in
      encryption. */
  function DecryptText(x: State, r: nat, nr: bv8, c: seq<bv8>): (d: Duplexed)
    requires ValidRate(r)
    ensures |d.out| == |c|
    decreases |c|
  {
    if |c| >= r then
      var b := DecryptBlock(x, r, c);
      var rest := DecryptText(Permute(b.state, nr), r, nr, c[r..]);
      Duplexed(rest.state, b.out + rest.out)
    else
      DecryptLast(x, r, c)
  }

  /** Finalisation: the key into x1, x2 (rate 8) or x2, x3 (rate 16), `a`
      rounds, then the key into x3 and x4. */
  function Finalize(x: State, p: AeadParams, key: Key): State
  {
    var y := if p.r == 16 then x.(x2 := Xor(x.x2, key.k0), x3 := Xor(x.x3, key.k1))
             else x.(x1 := Xor(x.x1, key.k0), x2 := Xor(x.x2, key.k1));
    var z := Permute(y, p.a);
    z.(x3 := Xor(z.x3, key.k0), x4 := Xor(z.x4, key.k1))
  }

  /** The tag: x3 and x4 big-endian. */
  function Tag(x: State): (t: seq<bv8>)
    ensures |t| == TAG_SIZE
  {
    TopBytes(x.x3, 8) + TopBytes(x.x4, 8)
  }

  /** `ascon_aead_encrypt`: the ciphertext bytes, then the tag. */
  function Encrypt(p: AeadParams, k: seq<bv8>, n: seq<bv8>, ad: seq<bv8>, m: seq<bv8>): (c: seq<bv8>)
    requires ValidAead(p) && |k| == 16 && |n| == 16
    ensures |c| == |m| + TAG_SIZE
  {
    var key := KeyOf(k);
    var d := EncryptText(Prepared(p, key, n, ad), p.r, p.b, m);
    d.out + Tag(Finalize(d.state, p, key))
  }

  /** The 32-bit ciphertext length `ascon_aead_encrypt` reports. */
  function CiphertextLength(plen: nat): nat
  {
    (plen + TAG_SIZE) % 0x1_0000_0000
  }

  /** The result of `ascon_aead_decrypt`: its return value and the plaintext
      bytes it writes. */
  datatype Decryption = Decryption(code: int, plaintext: seq<bv8>)

  /** `ascon_aead_decrypt`: the ciphertext without its last 16 bytes is
      decrypted, and the return value compares the recomputed tag with those
      16 bytes. */
  function Decrypt(p: AeadParams, k: seq<bv8>, n: seq<bv8>, ad: seq<bv8>, c: seq<bv8>): (d: Decryption)
    requires ValidAead(p) && |k| == 16 && |n| == 16 && |c| >= TAG_SIZE
    ensures |d.plaintext| == |c| - TAG_SIZE
    ensures d.code == 0 || d.code == -1
  {
    var key := KeyOf(k);
    var plen := |c| - TAG_SIZE;
    var t := DecryptText(Prepared(p, key, n, ad), p.r, p.b, c[..plen]);
    var f := Finalize(t.state, p, key);
    var a, b := Xor(f.x3, Load(c[plen..plen + 8], 8)), Xor(f.x4, Load(c[plen + 8..], 8));
    Decryption(NotZero(a, b), t.out)
  }

  /** `ascon_aead_init`: returns the key words and initialises the state. */
  method AeadInit(s: array<bv64>, p: AeadParams, k: seq<bv8>, n: seq<bv8>) returns (key: Key)
    requires s.Length == 5 && |k| == 16 && |n| == 16
    modifies s
    ensures key == KeyOf(k)
    ensures Snapshot(s) == InitialState(p, key, n)
  {
    key := Key(Load(k[..8], 8), Load(k[8..], 8));
    s[0], s[1], s[2], s[3], s[4] := p.iv, key.k0, key.k1, Load(n[..8], 8), Load(n[8..], 8);
    Permutate(s, p.a);
    s[3] := Xor(s[3], key.k0);
    s[4] := Xor(s[4], key.k1);
  }

  /** `ascon_aead_proc_adata`. */
  method ProcessAssociatedData(s: array<bv64>, p: AeadParams, ad: seq<bv8>)
    requires s.Length == 5 && ValidAead(p)
    modifies s
    ensures Snapshot(s) == ProcessAd(old(Snapshot(s)), p, ad)
  {
    if |ad| == 0 {
      return;
    }
    var rest := ad;
    while |rest| >= p.r
      invariant Absorb(Snapshot(s), p.r, p.b, rest) == Absorb(old(Snapshot(s)), p.r, p.b, ad)
      decreases |rest|
    {
      AbsorbBlockInPlace(s, p.r, rest);
      Permutate(s, p.b);
      rest := rest[p.r..];
    }
    AbsorbLastInPlace(s, p.r, rest);
    Permutate(s, p.b);
    s[4] := Xor(s[4], 1);
  }

  /** `ascon_aead_proc_ptext`: writes `c[..|m|]` and leaves the rest of `c` alone. */
  method ProcessPlaintext(s: array<bv64>, p: AeadParams, m: seq<bv8>, c: array<bv8>)
    requires s.Length == 5 && ValidAead(p) && |m| <= c.Length
    modifies s, c
    ensures Snapshot(s) == EncryptText(old(Snapshot(s)), p.r, p.b, m).state
    ensures c[..|m|] == EncryptText(old(Snapshot(s)), p.r, p.b, m).out
    ensures forall k | |m| <= k < c.Length :: c[k] == old(c[k])
  {
    var r, nr := p.r, p.b;
    ghost var total := EncryptText(Snapshot(s), r, nr, m);
    var rest := m;
    var off := 0;
    while |rest| >= r
      invariant off + |rest| == |m|
      invariant c[..off] + EncryptText(Snapshot(s), r, nr, rest).out == total.out
      invariant EncryptText(Snapshot(s), r, nr, rest).state == total.state
      invariant forall k | |m| <= k < c.Length :: c[k] == old(c[k])
      decreases |rest|
    {
      EncryptStep(s, c, off, rest, r, nr);
      off := off + r;
      rest := rest[r..];
    }
    EncryptLastInPlace(s, c, off, rest, r);
  }

  /** One iteration of the plaintext loop: a block duplexed, then the permutation. */
  method EncryptStep(s: array<bv64>, c: array<bv8>, off: nat, m: seq<bv8>, r: nat, nr: bv8)
    requires s.Length == 5 && ValidRate(r) && |m| >= r && off + |m| <= c.Length
    modifies s, c
    ensures c[..off + r] + EncryptText(Snapshot(s), r, nr, m[r..]).out
         == old(c[..off]) + EncryptText(old(Snapshot(s)), r, nr, m).out
    ensures EncryptText(Snapshot(s), r, nr, m[r..]).state == EncryptText(old(Snapshot(s)), r, nr, m).state
    ensures forall k | off + r <= k < c.Length :: c[k] == old(c[k])
  {
    ghost var x := Snapshot(s);
    ghost var before := c[..off];
    EncryptBlockInPlace(s, c, off, m, r);
    Permutate(s, nr);
    EncryptBlockStep(x, r, nr, m, before);
  }

  /** A block's ciphertext comes first, then what the permuted state gives
      for the rest of the plaintext. */
  lemma EncryptBlockStep(x: State, r: nat, nr: bv8, m: seq<bv8>, before: seq<bv8>)
    requires ValidRate(r) && |m| >= r
    ensures EncryptText(Permute(EncryptBlock(x, r, m).state, nr), r, nr, m[r..]).state
         == EncryptText(x, r, nr, m).state
    ensures (before + EncryptBlock(x, r, m).out)
            + EncryptText(Permute(EncryptBlock(x, r, m).state, nr), r, nr, m[r..]).out
         == before + EncryptText(x, r, nr, m).out
  {
    var b := EncryptBlock(x, r, m);
    var later := EncryptText(Permute(b.state, nr), r, nr, m[r..]).out;
    assert EncryptText(x, r, nr, m).out == b.out + later;
    assert (before + b.out) + later == before + (b.out + later);
  }

  /** The statements of a plaintext loop iteration before its permutation. */
  method EncryptBlockInPlace(s: array<bv64>, c: array<bv8>, off: nat, m: seq<bv8>, r: nat)
    requires s.Length == 5 && ValidRate(r) && |m| >= r && off + r <= c.Length
    modifies s, c
    ensures Snapshot(s) == EncryptBlock(old(Snapshot(s)), r, m).state
    ensures c[..off + r] == old(c[..off]) + EncryptBlock(old(Snapshot(s)), r, m).out
    ensures forall k | off + r <= k < c.Length :: c[k] == old(c[k])
  {
    hide Load, TopBytes, Xor;
    EncryptWordInPlace(s, 0, c, off, m[..8]);
    if r == 16 {
      EncryptWordInPlace(s, 1, c, off + 8, m[8..16]);
    }
  }

  /** A full word of plaintext into rate word `j`, and the word out. */
  method EncryptWordInPlace(s: array<bv64>, j: nat, c: array<bv8>, o: nat, m: seq<bv8>)
    requires s.Length == 5 && j < 2 && |m| == 8 && o + 8 <= c.Length
    modifies s, c
    ensures Snapshot(s) == WithRateWord(old(Snapshot(s)), j, Xor(old(s[j]), Load(m, 8)))
    ensures c[..o + 8] == old(c[..o]) + TopBytes(Xor(old(s[j]), Load(m, 8)), 8)
    ensures forall k | o + 8 <= k < c.Length :: c[k] == old(c[k])
  {
    s[j] := Xor(s[j], Load(m, 8));
    Store(c, o, s[j], 8);
  }

  /** The statements after the plaintext loop, for the last `|m| < r` bytes. */
  method EncryptLastInPlace(s: array<bv64>, c: array<bv8>, off: nat, m: seq<bv8>, r: nat)
    requires s.Length == 5 && ValidRate(r) && |m| < r && off + |m| <= c.Length
    modifies s, c
    ensures Snapshot(s) == EncryptLast(old(Snapshot(s)), r, m).state
    ensures c[..off + |m|] == old(c[..off]) + EncryptLast(old(Snapshot(s)), r, m).out
    ensures forall k | off + |m| <= k < c.Length :: c[k] == old(c[k])
  {
    EncryptLastCases(Snapshot(s), r, m);
    if r == 16 && |m| >= 8 {
      EncryptLastWide(s, c, off, m);
    } else {
      EncryptTailInPlace(s, 0, c, off, m);
    }
  }

  /** The last plaintext block with rate 16 and at least 8 bytes: `x`
      moves on to x1 after a full word into x0. */
  method EncryptLastWide(s: array<bv64>, c: array<bv8>, off: nat, m: seq<bv8>)
    requires s.Length == 5 && 8 <= |m| < 16 && off + |m| <= c.Length
    modifies s, c
    ensures var w0 := Xor(old(s[0]), Load(m[..8], 8));
      Snapshot(s) == old(Snapshot(s)).(x0 := w0, x1 := AbsorbTailWord(old(s[1]), m[8..]))
      && c[..off + |m|] == old(c[..off]) + (TopBytes(w0, 8) + EncryptTailBytes(old(s[1]), m[8..]))
    ensures forall k | off + |m| <= k < c.Length :: c[k] == old(c[k])
  {
    hide Load, TopBytes, Xor;
    ghost var before := c[..off];
    EncryptWordInPlace(s, 0, c, off, m[..8]);
    ghost var first := c[off..off + 8];
    assert c[..off + 8] == before + first;
    EncryptTailInPlace(s, 1, c, off + 8, m[8..]);
    assert c[..off + |m|] == before + (first + c[off + 8..off + |m|]);
  }

  /** The last plaintext block in the two shapes the code takes. */
  lemma EncryptLastCases(x: State, r: nat, m: seq<bv8>)
    requires ValidRate(r) && |m| < r
    ensures r == 16 && |m| >= 8 ==>
      var w0 := Xor(x.x0, Load(m[..8], 8));
      EncryptLast(x, r, m)
      == Duplexed(x.(x0 := w0, x1 := AbsorbTailWord(x.x1, m[8..])),
                  TopBytes(w0, 8) + EncryptTailBytes(x.x1, m[8..]))
    ensures !(r == 16 && |m| >= 8) ==>
      EncryptLast(x, r, m) == Duplexed(x.(x0 := AbsorbTailWord(x.x0, m)), EncryptTailBytes(x.x0, m))
  {
  }

  /** The padding and the last `|t| < 8` plaintext bytes into rate word `j`,
      and its top bytes out. */
  method EncryptTailInPlace(s: array<bv64>, j: nat, c: array<bv8>, o: nat, t: seq<bv8>)
    requires s.Length == 5 && j < 2 && |t| < 8 && o + |t| <= c.Length
    modifies s, c
    ensures Snapshot(s) == WithRateWord(old(Snapshot(s)), j, AbsorbTailWord(old(s[j]), t))
    ensures c[..o + |t|] == old(c[..o]) + EncryptTailBytes(old(s[j]), t)
    ensures forall k | o + |t| <= k < c.Length :: c[k] == old(c[k])
  {
    // the word `x` addresses, kept in `w` until it is written back
    var w := Xor(s[j], Pad(|t|));
    if |t| > 0 {
      w := Xor(w, Load(t, |t|));
      Store(c, o, w, |t|);
    }
    s[j] := w;
  }

  /** `ascon_aead_proc_ctext`: writes `m[..|c|]` and leaves the rest of `m` alone. */
  method ProcessCiphertext(s: array<bv64>, p: AeadParams, c: seq<bv8>, m: array<bv8>)
    requires s.Length == 5 && ValidAead(p) && |c| <= m.Length
    modifies s, m
    ensures Snapshot(s) == DecryptText(old(Snapshot(s)), p.r, p.b, c).state
    ensures m[..|c|] == DecryptText(old(Snapshot(s)), p.r, p.b, c).out
    ensures forall k | |c| <= k < m.Length :: m[k] == old(m[k])
  {
    var r, nr := p.r, p.b;
    ghost var total := DecryptText(Snapshot(s), r, nr, c);
    var rest := c;
    var off := 0;
    while |rest| >= r
      invariant off + |rest| == |c|
      invariant m[..off] + DecryptText(Snapshot(s), r, nr, rest).out == total.out
      invariant DecryptText(Snapshot(s), r, nr, rest).state == total.state
      invariant forall k | |c| <= k < m.Length :: m[k] == old(m[k])
      decreases |rest|
    {
      DecryptStep(s, m, off, rest, r, nr);
      off := off + r;
      rest := rest[r..];
    }
    DecryptLastInPlace(s, m, off, rest, r);
  }

  /** One iteration of the ciphertext loop: a block duplexed, then the permutation. */
  method DecryptStep(s: array<bv64>, m: array<bv8>, off: nat, c: seq<bv8>, r: nat, nr: bv8)
    requires s.Length == 5 && ValidRate(r) && |c| >= r && off + |c| <= m.Length
    modifies s, m
    ensures m[..off + r] + DecryptText(Snapshot(s), r, nr, c[r..]).out
         == old(m[..off]) + DecryptText(old(Snapshot(s)), r, nr, c).out
    ensures DecryptText(Snapshot(s), r, nr, c[r..]).state == DecryptText(old(Snapshot(s)), r, nr, c).state
    ensures forall k | off + r <= k < m.Length :: m[k] == old(m[k])
  {
    ghost var x := Snapshot(s);
    ghost var before := m[..off];
    DecryptBlockInPlace(s, m, off, c, r);
    Permutate(s, nr);
    DecryptBlockStep(x, r, nr, c, before);
  }

  /** A block's plaintext comes first, then what the permuted state gives
      for the rest of the ciphertext. */
  lemma DecryptBlockStep(x: State, r: nat, nr: bv8, c: seq<bv8>, before: seq<bv8>)
    requires ValidRate(r) && |c| >= r
    ensures DecryptText(Permute(DecryptBlock(x, r, c).state, nr), r, nr, c[r..]).state
         == DecryptText(x, r, nr, c).state
    ensures (before + DecryptBlock(x, r, c).out)
            + DecryptText(Permute(DecryptBlock(x, r, c).state, nr), r, nr, c[r..]).out
         == before + DecryptText(x, r, nr, c).out
  {
    var b := DecryptBlock(x, r, c);
    var later := DecryptText(Permute(b.state, nr), r, nr, c[r..]).out;
    assert DecryptText(x, r, nr, c).out == b.out + later;
    assert (before + b.out) + later == before + (b.out + later);
  }

  /** The statements of a ciphertext loop iteration before its permutation. */
  method DecryptBlockInPlace(s: array<bv64>, m: array<bv8>, off: nat, c: seq<bv8>, r: nat)
    requires s.Length == 5 && ValidRate(r) && |c| >= r && off + r <= m.Length
    modifies s, m
    ensures Snapshot(s) == DecryptBlock(old(Snapshot(s)), r, c).state
    ensures m[..off + r] == old(m[..off]) + DecryptBlock(old(Snapshot(s)), r, c).out
    ensures forall k | off + r <= k < m.Length :: m[k] == old(m[k])
  {
    hide Load, TopBytes, Xor;
    DecryptWordInPlace(s, 0, m, off, c[..8]);
    if r == 16 {
      DecryptWordInPlace(s, 1, m, off + 8, c[8..16]);
    }
  }

  /** A full word of ciphertext through rate word `j`: the plaintext word out,
      and the ciphertext word in its place. */
  method DecryptWordInPlace(s: array<bv64>, j: nat, m: array<bv8>, o: nat, c: seq<bv8>)
    requires s.Length == 5 && j < 2 && |c| == 8 && o + 8 <= m.Length
    modifies s, m
    ensures Snapshot(s) == WithRateWord(old(Snapshot(s)), j, Load(c, 8))
    ensures m[..o + 8] == old(m[..o]) + TopBytes(Xor(old(s[j]), Load(c, 8)), 8)
    ensures forall k | o + 8 <= k < m.Length :: m[k] == old(m[k])
  {
    var t := Load(c, 8);
    s[j] := Xor(s[j], t);
    Store(m, o, s[j], 8);
    s[j] := t;
  }

  /** The statements after the ciphertext loop, for the last `|c| < r` bytes. */
  method DecryptLastInPlace(s: array<bv64>, m: array<bv8>, off: nat, c: seq<bv8>, r: nat)
    requires s.Length == 5 && ValidRate(r) && |c| < r && off + |c| <= m.Length
    modifies s, m
    ensures Snapshot(s) == DecryptLast(old(Snapshot(s)), r, c).state
    ensures m[..off + |c|] == old(m[..off]) + DecryptLast(old(Snapshot(s)), r, c).out
    ensures forall k | off + |c| <= k < m.Length :: m[k] == old(m[k])
  {
    DecryptLastCases(Snapshot(s), r, c);
    if r == 16 && |c| >= 8 {
      DecryptLastWide(s, m, off, c);
    } else {
      DecryptTailInPlace(s, 0, m, off, c);
    }
  }

  /** The last ciphertext block with rate 16 and at least 8 bytes: `x`
      moves on to x1 after a full word out of x0. */
  method DecryptLastWide(s: array<bv64>, m: array<bv8>, off: nat, c: seq<bv8>)
    requires s.Length == 5 && 8 <= |c| < 16 && off + |c| <= m.Length
    modifies s, m
    ensures var t0 := Load(c[..8], 8);
      Snapshot(s) == old(Snapshot(s)).(x0 := t0, x1 := DecryptTailWord(old(s[1]), c[8..]))
      && m[..off + |c|] == old(m[..off]) + (TopBytes(Xor(old(s[0]), t0), 8) + DecryptTailBytes(old(s[1]), c[8..]))
    ensures forall k | off + |c| <= k < m.Length :: m[k] == old(m[k])
  {
    hide Load, TopBytes, Xor;
    ghost var before := m[..off];
    DecryptWordInPlace(s, 0, m, off, c[..8]);
    ghost var first := m[off..off + 8];
    assert m[..off + 8] == before + first;
    DecryptTailInPlace(s, 1, m, off + 8, c[8..]);
    assert m[..off + |c|] == before + (first + m[off + 8..off + |c|]);
  }

  /** The last ciphertext block in the two shapes the code takes. */
  lemma DecryptLastCases(x: State, r: nat, c: seq<bv8>)
    requires ValidRate(r) && |c| < r
    ensures r == 16 && |c| >= 8 ==>
      var t0 := Load(c[..8], 8);
      DecryptLast(x, r, c)
      == Duplexed(x.(x0 := t0, x1 := DecryptTailWord(x.x1, c[8..])),
                  TopBytes(Xor(x.x0, t0), 8) + DecryptTailBytes(x.x1, c[8..]))
    ensures !(r == 16 && |c| >= 8) ==>
      DecryptLast(x, r, c) == Duplexed(x.(x0 := DecryptTailWord(x.x0, c)), DecryptTailBytes(x.x0, c))
  {
  }

  /** The padding and the last `|t| < 8` ciphertext bytes through rate word
      `j`: the plaintext bytes out, then the word rebuilt with the ciphertext
      bytes on top. */
  method DecryptTailInPlace(s: array<bv64>, j: nat, m: array<bv8>, o: nat, t: seq<bv8>)
    requires s.Length == 5 && j < 2 && |t| < 8 && o + |t| <= m.Length
    modifies s, m
    ensures Snapshot(s) == WithRateWord(old(Snapshot(s)), j, DecryptTailWord(old(s[j]), t))
    ensures m[..o + |t|] == old(m[..o]) + DecryptTailBytes(old(s[j]), t)
    ensures forall k | o + |t| <= k < m.Length :: m[k] == old(m[k])
  {
    hide Load, TopBytes, Xor, Clear, Pad;
    // the word `x` addresses, kept in `w` until it is written back
    var w := Xor(s[j], Pad(|t|));
    if |t| > 0 {
      var u := Load(t, |t|);
      w := Xor(w, u);
      Store(m, o, w, |t|);
      w := Clear(w, |t|);
      w := Xor(w, u);
    }
    s[j] := w;
  }

  /** `ascon_aead_final`. */
  method AeadFinal(s: array<bv64>, p: AeadParams, key: Key)
    requires s.Length == 5
    modifies s
    ensures Snapshot(s) == Finalize(old(Snapshot(s)), p, key)
  {
    hide Xor, Permute;
    if p.r == 16 {
      s[2] := Xor(s[2], key.k0);
      s[3] := Xor(s[3], key.k1);
    } else {
      s[1] := Xor(s[1], key.k0);
      s[2] := Xor(s[2], key.k1);
    }
    Permutate(s, p.a);
    s[3] := Xor(s[3], key.k0);
    s[4] := Xor(s[4], key.k1);
  }

  /** `ascon_aead_encrypt`: writes the ciphertext and the tag to
      `c[..|m| + 16]` and reports their length modulo 2^32. */
  method AeadEncrypt(aead: AsconAead, k: seq<bv8>, n: seq<bv8>, ad: seq<bv8>, m: seq<bv8>, c: array<bv8>)
    returns (clen: nat)
    requires ValidAead(aead.Params()) && |k| == 16 && |n| == 16
    requires |ad| < 0x1_0000_0000 && |m| < 0x1_0000_0000 && |m| + TAG_SIZE <= c.Length
    modifies c
    ensures clen == CiphertextLength(|m|)
    ensures c[..|m| + TAG_SIZE] == Encrypt(aead.Params(), k, n, ad, m)
    ensures forall i | |m| + TAG_SIZE <= i < c.Length :: c[i] == old(c[i])
  {
    hide Load, TopBytes, Xor, Permute;
    var p := aead.Params();
    clen := (|m| + TAG_SIZE) % 0x1_0000_0000;
    var s := new bv64[5];
    var key := AeadInit(s, p, k, n);
    ProcessAssociatedData(s, p, ad);
    ProcessPlaintext(s, p, m, c);
    AeadFinal(s, p, key);
    StoreTag(s, c, |m|);
  }

  /** The tag stores at the end of the ciphertext. */
  method StoreTag(s: array<bv64>, c: array<bv8>, off: nat)
    requires s.Length == 5 && off + TAG_SIZE <= c.Length
    modifies c
    ensures c[..off + TAG_SIZE] == old(c[..off]) + Tag(Snapshot(s))
    ensures forall i | off + TAG_SIZE <= i < c.Length :: c[i] == old(c[i])
  {
    Store(c, off, s[3], 8);
    Store(c, off + 8, s[4], 8);
  }

  /** `ascon_aead_decrypt`: writes the plaintext to `m[..|c| - 16]` whatever
      the outcome, and returns the tag comparison. */
  method AeadDecrypt(aead: AsconAead, k: seq<bv8>, n: seq<bv8>, ad: seq<bv8>, c: seq<bv8>, m: array<bv8>)
    returns (code: int, plen: nat)
    requires ValidAead(aead.Params()) && |k| == 16 && |n| == 16
    requires |ad| < 0x1_0000_0000 && TAG_SIZE <= |c| < 0x1_0000_0000 && |c| - TAG_SIZE <= m.Length
    modifies m
    ensures plen == |c| - TAG_SIZE
    ensures code == Decrypt(aead.Params(), k, n, ad, c).code
    ensures m[..plen] == Decrypt(aead.Params(), k, n, ad, c).plaintext
    ensures forall i | plen <= i < m.Length :: m[i] == old(m[i])
  {
    hide Load, TopBytes, Xor, Permute, NotZero, DecryptText, Finalize;
    var p := aead.Params();
    plen := |c| - TAG_SIZE;
    var s := new bv64[5];
    var key := AeadInit(s, p, k, n);
    ProcessAssociatedData(s, p, ad);
    ProcessCiphertext(s, p, c[..plen], m);
    AeadFinal(s, p, key);
    s[3] := Xor(s[3], Load(c[plen..plen + 8], 8));
    s[4] := Xor(s[4], Load(c[plen + 8..], 8));
    code := NotZero(s[3], s[4]);
  }
}
