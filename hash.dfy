/**
  Ascon-Hash and Ascon-XOF (`ascon_hash_init`, `ascon_hash_absorb`,
  `ascon_hash_squeeze`, `ascon_hash_output`, `ascon_xof_output`): the IV in
  x0 and zeros elsewhere are permuted, the message is absorbed, and the
  output is squeezed out of the rate a block at a time with a permutation
  between blocks.
 */
module Hash {
  import opened Util
  import opened Permutation
  import opened Sponge
  import opened Config

  /** The state after initialisation. */
  function InitialState(p: HashParams): State
  {
    Permute(State(p.iv, 0, 0, 0, 0), p.a)
  }

  /** The output for the last `n < r` bytes: with rate 16 and at least 8 of
      them, all of x0 first; then the first bytes of the word `x`
      addresses, if any remain. */
  function LastBytes(x: State, r: nat, n: nat): (b: seq<bv8>)
    requires ValidRate(r) && n < r
    ensures |b| == n
  {
    var j := TailIndex(r, n);
    var first := if j == 1 then TopBytes(x.x0, 8) else [];
    var m := n - 8 * j;
    first + (if m > 0 then TopBytes(RateWord(x, j), m) else [])
  }

  /** The last-block bytes case by case, as the stores after the squeezing
      loop write them. */
  lemma LastBytesCases(x: State, r: nat, n: nat)
    requires ValidRate(r) && n < r
    ensures r == 16 && n > 8 ==> LastBytes(x, r, n) == TopBytes(x.x0, 8) + TopBytes(x.x1, n - 8)
    ensures r == 16 && n == 8 ==> LastBytes(x, r, n) == TopBytes(x.x0, 8)
    ensures (r == 8 || n < 8) && n > 0 ==> LastBytes(x, r, n) == TopBytes(x.x0, n)
    ensures n == 0 ==> LastBytes(x, r, n) == []
  {
  }

  /** Squeeze `outlen` bytes: full rate blocks with a permutation after each,
      then the first bytes of the rate for what remains. */
  function Squeeze(x: State, r: nat, nr: bv8, outlen: nat): (d: Duplexed)
    requires ValidRate(r)
    ensures |d.out| == outlen
    decreases outlen
  {
    if outlen >= r then
      var rest := Squeeze(Permute(x, nr), r, nr, outlen - r);
      Duplexed(rest.state, RateBytes(x, r) + rest.out)
    else
      Duplexed(x, LastBytes(x, r, outlen))
  }

  /** `ascon_xof_output` as a function of the parameters, the message and the
      output length. */
  function Xof(p: HashParams, m: seq<bv8>, outlen: nat): (out: seq<bv8>)
    requires ValidHash(p)
    ensures |out| == outlen
  {
    Squeeze(Absorb(InitialState(p), p.r, p.a, m), p.r, p.a, outlen).out
  }

  /** `ascon_hash_init`. */
  method HashInit(h: AsconHash, s: array<bv64>)
    requires s.Length == 5
    modifies s
    ensures Snapshot(s) == InitialState(h.Params())
  {
    s[0] := h.iv;
    var i := 1;
    while i < 5
      invariant 1 <= i <= 5
      invariant s[0] == h.iv
      invariant forall k | 1 <= k < i :: s[k] == 0
    {
      s[i] := 0;
      i := i + 1;
    }
    Permutate(s, h.a);
  }

  /** `ascon_hash_absorb`. */
  method HashAbsorb(h: AsconHash, s: array<bv64>, m: seq<bv8>)
    requires s.Length == 5 && ValidHash(h.Params())
    modifies s
    ensures Snapshot(s) == Absorb(old(Snapshot(s)), h.r, h.a, m)
  {
    var rest := m;
    while |rest| >= h.r
      invariant Absorb(Snapshot(s), h.r, h.a, rest) == Absorb(old(Snapshot(s)), h.r, h.a, m)
      decreases |rest|
    {
      AbsorbBlockInPlace(s, h.r, rest);
      Permutate(s, h.a);
      rest := rest[h.r..];
    }
    AbsorbLastInPlace(s, h.r, rest);
    Permutate(s, h.a);
  }

  /** One full block of squeezing: its bytes come first, then what the
      permuted state squeezes for the rest. */
  lemma SqueezeBlockStep(x: State, r: nat, nr: bv8, rem: nat, before: seq<bv8>)
    requires ValidRate(r) && rem >= r
    ensures Squeeze(Permute(x, nr), r, nr, rem - r).state == Squeeze(x, r, nr, rem).state
    ensures (before + RateBytes(x, r)) + Squeeze(Permute(x, nr), r, nr, rem - r).out
         == before + Squeeze(x, r, nr, rem).out
  {
    var later := Squeeze(Permute(x, nr), r, nr, rem - r).out;
    assert Squeeze(x, r, nr, rem).out == RateBytes(x, r) + later;
    assert (before + RateBytes(x, r)) + later == before + (RateBytes(x, r) + later);
  }

  /** `ascon_hash_squeeze`: writes `out[..outlen]` and leaves the rest of `out` alone. */
  method HashSqueeze(h: AsconHash, s: array<bv64>, out: array<bv8>, outlen: nat)
    requires s.Length == 5 && ValidHash(h.Params()) && outlen <= out.Length
    modifies s, out
    ensures Snapshot(s) == Squeeze(old(Snapshot(s)), h.r, h.a, outlen).state
    ensures out[..outlen] == Squeeze(old(Snapshot(s)), h.r, h.a, outlen).out
    ensures forall k | outlen <= k < out.Length :: out[k] == old(out[k])
  {
    var r, nr := h.r, h.a;
    ghost var total := Squeeze(Snapshot(s), r, nr, outlen);
    var off := 0;
    var rem: nat := outlen;
    while rem >= r
      invariant off + rem == outlen
      invariant out[..off] + Squeeze(Snapshot(s), r, nr, rem).out == total.out
      invariant Squeeze(Snapshot(s), r, nr, rem).state == total.state
      invariant forall k | outlen <= k < out.Length :: out[k] == old(out[k])
      decreases rem
    {
      SqueezeStep(s, out, off, rem, r, nr);
      off := off + r;
      rem := rem - r;
    }
    SqueezeLast(s, out, off, r, rem);
  }

  /** One iteration of the squeezing loop: a block out, then the permutation. */
  method SqueezeStep(s: array<bv64>, out: array<bv8>, off: nat, rem: nat, r: nat, nr: bv8)
    requires s.Length == 5 && ValidRate(r) && rem >= r && off + rem <= out.Length
    modifies s, out
    ensures out[..off + r] + Squeeze(Snapshot(s), r, nr, rem - r).out
         == old(out[..off]) + Squeeze(old(Snapshot(s)), r, nr, rem).out
    ensures Squeeze(Snapshot(s), r, nr, rem - r).state == Squeeze(old(Snapshot(s)), r, nr, rem).state
    ensures forall k | off + r <= k < out.Length :: out[k] == old(out[k])
  {
    ghost var x := Snapshot(s);
    ghost var before := out[..off];
    SqueezeBlock(s, out, off, r);
    Permutate(s, nr);
    SqueezeBlockStep(x, r, nr, rem, before);
  }

  /** The stores of one squeezing loop iteration. */
  method SqueezeBlock(s: array<bv64>, out: array<bv8>, off: nat, r: nat)
    requires s.Length == 5 && ValidRate(r) && off + r <= out.Length
    modifies out
    ensures out[..off + r] == old(out[..off]) + RateBytes(Snapshot(s), r)
    ensures forall k | off + r <= k < out.Length :: out[k] == old(out[k])
  {
    Store(out, off, s[0], 8);
    if r == 16 {
      Store(out, off + 8, s[1], 8);
    }
  }

  /** The stores after the squeezing loop, for the last `n < r` bytes. */
  method SqueezeLast(s: array<bv64>, out: array<bv8>, off: nat, r: nat, n: nat)
    requires s.Length == 5 && ValidRate(r) && n < r && off + n <= out.Length
    modifies out
    ensures out[..off + n] == old(out[..off]) + LastBytes(Snapshot(s), r, n)
    ensures forall k | off + n <= k < out.Length :: out[k] == old(out[k])
  {
    LastBytesCases(Snapshot(s), r, n);
    if r == 16 && n >= 8 {
      // `x` moves on to x1 after a full word from x0
      if n > 8 {
        Store(out, off, s[0], 8);
        Store(out, off + 8, s[1], n - 8);
      } else {
        Store(out, off, s[0], 8);
      }
    } else if n > 0 {
      Store(out, off, s[0], n);
    }
  }

  /** The bytes of a last block are the first bytes of a full block. */
  lemma LastBytesArePrefix(x: State, r: nat, n: nat)
    requires ValidRate(r) && n < r
    ensures LastBytes(x, r, n) == RateBytes(x, r)[..n]
  {
    var j := TailIndex(r, n);
    var m := n - 8 * j;
    if m > 0 {
      TopBytesPrefix(RateWord(x, j), m);
    }
    if j == 1 {
      assert RateBytes(x, r)[..n] == TopBytes(x.x0, 8) + TopBytes(x.x1, 8)[..m];
    } else {
      assert RateBytes(x, r)[..n] == TopBytes(x.x0, 8)[..n];
    }
  }

  /** Squeezing fewer bytes gives a prefix of squeezing more. */
  lemma {:induction false} SqueezePrefix(x: State, r: nat, nr: bv8, n: nat, m: nat)
    requires ValidRate(r) && n <= m
    ensures Squeeze(x, r, nr, n).out == Squeeze(x, r, nr, m).out[..n]
    decreases n
  {
    if n >= r {
      assert r > 0;
      hide *;
      SqueezePrefix(Permute(x, nr), r, nr, n - r, m - r);
      SqueezeBlockOut(x, r, nr, n);
      SqueezeBlockOut(x, r, nr, m);
      PrefixAfterBlock(RateBytes(x, r), Squeeze(Permute(x, nr), r, nr, m - r).out, n);
    } else {
      LastBytesArePrefix(x, r, n);
      if m >= r {
        assert Squeeze(x, r, nr, m).out[..n] == RateBytes(x, r)[..n];
      } else {
        LastBytesArePrefix(x, r, m);
      }
    }
  }

  /** Squeezing at least a block: the rate bytes, then what the permuted
      state squeezes. */
  lemma SqueezeBlockOut(x: State, r: nat, nr: bv8, n: nat)
    requires ValidRate(r) && n >= r
    ensures Squeeze(x, r, nr, n).out == RateBytes(x, r) + Squeeze(Permute(x, nr), r, nr, n - r).out
  {
  }

  /** A prefix reaching past a block is the block and a prefix of the rest. */
  lemma PrefixAfterBlock(a: seq<bv8>, b: seq<bv8>, n: nat)
    requires |a| <= n <= |a| + |b|
    ensures (a + b)[..n] == a + b[..n - |a|]
  {
  }

  /** For one message, the XOF output of length `n` is a prefix of the one of
      length `m >= n`. */
  lemma XofPrefix(p: HashParams, msg: seq<bv8>, n: nat, m: nat)
    requires ValidHash(p) && n <= m
    ensures Xof(p, msg, n) == Xof(p, msg, m)[..n]
  {
    SqueezePrefix(Absorb(InitialState(p), p.r, p.a, msg), p.r, p.a, n, m);
  }

  /** `ascon_xof_output`: the state is local; the output fills `out[..outlen]`. */
  method XofOutput(h: AsconHash, m: seq<bv8>, out: array<bv8>, outlen: nat)
    requires ValidHash(h.Params()) && outlen <= out.Length
    modifies out
    ensures out[..outlen] == Xof(h.Params(), m, outlen)
    ensures forall k | outlen <= k < out.Length :: out[k] == old(out[k])
  {
    var s := new bv64[5];
    HashInit(h, s);
    HashAbsorb(h, s, m);
    HashSqueeze(h, s, out, outlen);
  }

  /** `ascon_hash_output`: the XOF at 32 bytes. */
  method HashOutput(h: AsconHash, m: seq<bv8>, out: array<bv8>)
    requires ValidHash(h.Params()) && 32 <= out.Length
    modifies out
    ensures out[..32] == Xof(h.Params(), m, 32)
    ensures forall k | 32 <= k < out.Length :: out[k] == old(out[k])
  {
    XofOutput(h, m, out, 32);
  }
}
