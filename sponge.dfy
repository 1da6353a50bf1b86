/**
  Absorption of a byte string into the rate of the state, shared by the
  associated-data phase of the AEAD (`ascon_aead_proc_adata`) and by the
  hash (`ascon_hash_absorb`): every full block of `r` bytes is XORed into
  x0 (and x1 when the rate is 16) and followed by a permutation; the last
  partial block is padded with 0x80 and followed by one more permutation.
 */
module Sponge {
  import opened Util
  import opened Permutation
  import opened Config

  /** The rate word that `x` in the C code addresses: x0 or x1. */
  function RateWord(x: State, j: nat): bv64
    requires j < 2
  {
    if j == 0 then x.x0 else x.x1
  }

  /** The state with rate word `j` replaced by `w`. */
  function WithRateWord(x: State, j: nat, w: bv64): (y: State)
    requires j < 2
    ensures RateWord(y, j) == w
    ensures y.x2 == x.x2 && y.x3 == x.x3 && y.x4 == x.x4
    ensures j == 0 ==> y.x1 == x.x1
    ensures j == 1 ==> y.x0 == x.x0
  {
    if j == 0 then x.(x0 := w) else x.(x1 := w)
  }

  /** XOR the first full block of `m` into the rate. */
  function AbsorbBlock(x: State, r: nat, m: seq<bv8>): State
    requires ValidRate(r) && |m| >= r
  {
    var y := x.(x0 := Xor(x.x0, Load(m[..8], 8)));
    if r == 16 then y.(x1 := Xor(y.x1, Load(m[8..16], 8))) else y
  }

  /** The word of the last block: the padding bit after the `|t|` remaining
      bytes, and those bytes when there are any. */
  function AbsorbTailWord(w: bv64, t: seq<bv8>): bv64
    requires |t| < 8
  {
    var w1 := Xor(w, Pad(|t|));
    if |t| > 0 then Xor(w1, Load(t, |t|)) else w1
  }

  /** The index of the rate word that takes the padding of a last block of
      `n < r` bytes: x1 when the rate is 16 and at least 8 bytes remain. */
  function TailIndex(r: nat, n: nat): (j: nat)
    ensures j < 2
  {
    if r == 16 && n >= 8 then 1 else 0
  }

  /** XOR the last partial block `m`, padded, into the rate. */
  function AbsorbLast(x: State, r: nat, m: seq<bv8>): State
    requires ValidRate(r) && |m| < r
  {
    var j := TailIndex(r, |m|);
    var y := if j == 1 then x.(x0 := Xor(x.x0, Load(m[..8], 8))) else x;
    var t := m[8 * j..];
    WithRateWord(y, j, AbsorbTailWord(RateWord(y, j), t))
  }

  /** Absorb all of `m` with `nr`-round permutations between blocks and after
      the last one. */
  function Absorb(x: State, r: nat, nr: bv8, m: seq<bv8>): State
    requires ValidRate(r)
    decreases |m|
  {
    if |m| >= r then Absorb(Permute(AbsorbBlock(x, r, m), nr), r, nr, m[r..])
    else Permute(AbsorbLast(x, r, m), nr)
  }

  /** The rate words big-endian: the bytes a full block stores. */
  function RateBytes(x: State, r: nat): (b: seq<bv8>)
    requires ValidRate(r)
    ensures |b| == r
  {
    TopBytes(x.x0, 8) + (if r == 16 then TopBytes(x.x1, 8) else [])
  }

  /** A state together with the bytes a phase wrote out. */
  datatype Duplexed = Duplexed(state: State, out: seq<bv8>)

  /** The statements of an absorbing loop iteration before its permutation,
      on the state array: the block's first word into x0, its second into x1
      when the rate is 16. */
  method AbsorbBlockInPlace(s: array<bv64>, r: nat, m: seq<bv8>)
    requires s.Length == 5 && ValidRate(r) && |m| >= r
    modifies s
    ensures Snapshot(s) == AbsorbBlock(old(Snapshot(s)), r, m)
  {
    s[0] := Xor(s[0], Load(m[..8], 8));
    if r == 16 {
      s[1] := Xor(s[1], Load(m[8..16], 8));
    }
  }

  /** The statements after an absorbing loop: with rate 16 and at least 8
      bytes left, x0 takes them and `x` moves on to x1; the padding
      and the remaining bytes go into the word it addresses. */
  method AbsorbLastInPlace(s: array<bv64>, r: nat, m: seq<bv8>)
    requires s.Length == 5 && ValidRate(r) && |m| < r
    modifies s
    ensures Snapshot(s) == AbsorbLast(old(Snapshot(s)), r, m)
  {
    var rest := m;
    var j := 0;
    if r == 16 && |rest| >= 8 {
      s[0] := Xor(s[0], Load(rest[..8], 8));
      j := 1;
      rest := rest[8..];
    }
    s[j] := Xor(s[j], Pad(|rest|));
    if |rest| > 0 {
      s[j] := Xor(s[j], Load(rest, |rest|));
    }
  }
}
