/**
  The Ascon permutation on the 320-bit state of five 64-bit words
  (`ascon_permutate`): each round adds a round constant to x2, applies the
  bitsliced 5-bit S-box and then the linear diffusion layer.
 */
module Permutation {
  import opened Util

  /** The five state words x0..x4. */
  datatype State = State(x0: bv64, x1: bv64, x2: bv64, x3: bv64, x4: bv64)

  /** The state held in the five-word array the C code updates in place. */
  function Snapshot(s: array<bv64>): State
    requires s.Length == 5
    reads s
  {
    State(s[0], s[1], s[2], s[3], s[4])
  }

  /** Round constants of Ascon v1.2 for the global rounds 0..11. */
  const ROUND_CONSTANTS: seq<bv64> :=
    [0xf0, 0xe1, 0xd2, 0xc3, 0xb4, 0xa5, 0x96, 0x87, 0x78, 0x69, 0x5a, 0x4b]

  /** Constant of global round `i`: the high nibble counts down from 0xf, the
      low one up from 0. */
  function RoundConstant(i: bv8): bv64
    requires i < 12
  {
    ((0xf - i as bv64) << 4) | i as bv64
  }

  /** The computed constants are those of the Ascon v1.2 table. */
  lemma RoundConstantTable()
    ensures forall i: bv8 | i < 12 :: RoundConstant(i) == ROUND_CONSTANTS[i]
  {
  }

  /** Constant addition layer. */
  function AddConstant(x: State, i: bv8): State
    requires i < 12
  {
    x.(x2 := x.x2 ^ RoundConstant(i))
  }

  /** The word operations of the substitution layer besides `Xor`. */
  function Not(w: bv64): bv64
  {
    !w
  }

  function And(a: bv64, b: bv64): bv64
  {
    a & b
  }

  /** Substitution layer: the S-box as a fixed XOR/AND/NOT sequence applied to
      all 64 columns at once, step for step in the order of the C code. */
  function SubstitutionLayer(x: State): State
  {
    var x0 := Xor(x.x0, x.x4);
    var x4 := Xor(x.x4, x.x3);
    var x2 := Xor(x.x2, x.x1);
    var t0 := And(Not(x0), x.x1);
    var t1 := And(Not(x.x1), x2);
    var t2 := And(Not(x2), x.x3);
    var t3 := And(Not(x.x3), x4);
    var t4 := And(Not(x4), x0);
    var y0 := Xor(x0, t1);
    var y1 := Xor(x.x1, t2);
    var y2 := Xor(x2, t3);
    var y3 := Xor(x.x3, t4);
    var y4 := Xor(x4, t0);
    State(Xor(y0, y4), Xor(y1, y0), Not(y2), Xor(y3, y2), y4)
  }

  /** Three words XORed together. */
  function Xor3(a: bv64, b: bv64, c: bv64): bv64
  {
    a ^ b ^ c
  }

  /** One word of the linear layer: the word XORed with two of its rotations. */
  function Diffuse(w: bv64, a: bv8, b: bv8): bv64
    requires 1 <= a <= 63 && 1 <= b <= 63
  {
    Xor3(w, Rotr(w, a), Rotr(w, b))
  }

  /** Linear diffusion layer with the rotation amounts of Ascon v1.2. */
  function LinearLayer(x: State): State
  {
    State(Diffuse(x.x0, 19, 28), Diffuse(x.x1, 61, 39), Diffuse(x.x2, 1, 6),
          Diffuse(x.x3, 10, 17), Diffuse(x.x4, 7, 41))
  }

  /** The linear layer XORs each word with two right rotations of itself. */
  lemma LinearLayerRotations(x: State)
    ensures LinearLayer(x) ==
      State(Xor3(x.x0, x.x0.RotateRight(19), x.x0.RotateRight(28)),
            Xor3(x.x1, x.x1.RotateRight(61), x.x1.RotateRight(39)),
            Xor3(x.x2, x.x2.RotateRight(1), x.x2.RotateRight(6)),
            Xor3(x.x3, x.x3.RotateRight(10), x.x3.RotateRight(17)),
            Xor3(x.x4, x.x4.RotateRight(7), x.x4.RotateRight(41)))
  {
    DiffuseRotations(x.x0, x.x1, x.x2, x.x3, x.x4);
  }

  lemma DiffuseRotations(w0: bv64, w1: bv64, w2: bv64, w3: bv64, w4: bv64)
    ensures Diffuse(w0, 19, 28) == Xor3(w0, w0.RotateRight(19), w0.RotateRight(28))
    ensures Diffuse(w1, 61, 39) == Xor3(w1, w1.RotateRight(61), w1.RotateRight(39))
    ensures Diffuse(w2, 1, 6) == Xor3(w2, w2.RotateRight(1), w2.RotateRight(6))
    ensures Diffuse(w3, 10, 17) == Xor3(w3, w3.RotateRight(10), w3.RotateRight(17))
    ensures Diffuse(w4, 7, 41) == Xor3(w4, w4.RotateRight(7), w4.RotateRight(41))
  {
    RotrIsRotation19(w0);
    RotrIsRotation28(w0);
    RotrIsRotation61(w1);
    RotrIsRotation39(w1);
    RotrIsRotation1(w2);
    RotrIsRotation6(w2);
    RotrIsRotation10(w3);
    RotrIsRotation17(w3);
    RotrIsRotation7(w4);
    RotrIsRotation41(w4);
  }

  /** Global round `i`. */
  function Round(x: State, i: bv8): State
    requires i < 12
  {
    LinearLayer(SubstitutionLayer(AddConstant(x, i)))
  }

  /** The rounds `i`, `i + 1`, ..., 11 in turn. */
  function RoundsFrom(x: State, i: bv8): State
    decreases 12 - i as int
  {
    if i >= 12 then x else RoundsFrom(Round(x, i), i + 1)
  }

  /** The permutation with `nr` rounds. The round counter is a byte, so the
      first round index is 12 - nr modulo 256. */
  function Permute(x: State, nr: bv8): State
  {
    RoundsFrom(x, 12 - nr)
  }

  /** Apply the rounds listed in `rs`, first to last. */
  function ApplyRounds(x: State, rs: seq<bv8>): State
    requires forall j | 0 <= j < |rs| :: rs[j] < 12
    decreases |rs|
  {
    if |rs| == 0 then x else ApplyRounds(Round(x, rs[0]), rs[1..])
  }

  /** The round indices `i`, `i + 1`, ..., 11. */
  function Indices(i: bv8): (rs: seq<bv8>)
    ensures forall j | 0 <= j < |rs| :: rs[j] < 12
    decreases 12 - i as int
  {
    if i >= 12 then [] else [i] + Indices(i + 1)
  }

  lemma {:induction false} RoundsFromIndices(x: State, i: bv8)
    ensures RoundsFrom(x, i) == ApplyRounds(x, Indices(i))
    decreases 12 - i as int
  {
    if i < 12 {
      var rs := Indices(i);
      assert rs[0] == i && rs[1..] == Indices(i + 1);
      RoundsFromIndices(Round(x, i), i + 1);
    }
  }

  lemma {:induction false} IndicesRange(i: bv8)
    requires i <= 12
    ensures |Indices(i)| == 12 - i as int
    ensures forall j | 0 <= j < |Indices(i)| :: Indices(i)[j] as int == i as int + j
    decreases 12 - i as int
  {
    if i < 12 {
      IndicesRange(i + 1);
      assert (i + 1) as int == i as int + 1;
    }
  }

  /** The global round indices a permutation with `nr` rounds runs through. */
  function Schedule(nr: bv8): seq<bv8>
  {
    Indices(12 - nr)
  }

  /** With at most twelve rounds the permutation runs exactly `nr` rounds, the
      global rounds 12 - nr, ..., 11, in that order. */
  lemma PermuteRuns(x: State, nr: bv8)
    requires nr <= 12
    ensures Permute(x, nr) == ApplyRounds(x, Schedule(nr))
    ensures |Schedule(nr)| == nr as int
    ensures forall j | 0 <= j < |Schedule(nr)| :: Schedule(nr)[j] as int == 12 - nr as int + j
  {
    RoundsFromIndices(x, 12 - nr);
    IndicesRange(12 - nr);
  }

  /** No round runs when `nr` is zero, nor when it exceeds twelve and the
      byte counter starts at 12 - nr modulo 256, which is at least 12. */
  lemma PermuteWithoutRounds(x: State, nr: bv8)
    requires nr == 0 || nr > 12
    ensures Permute(x, nr) == x
  {
  }

  /** The state whose every column holds the 5-bit value `v`; x0 holds its
      most significant bit. */
  function Spread(v: bv8): State
  {
    State(if v & 0x10 == 0 then 0 else ONES,
          if v & 0x08 == 0 then 0 else ONES,
          if v & 0x04 == 0 then 0 else ONES,
          if v & 0x02 == 0 then 0 else ONES,
          if v & 0x01 == 0 then 0 else ONES)
  }

  /* The bitsliced substitution layer computes the 5-bit S-box of Ascon v1.2,
     whose table is 04 0b 1f 14 1a 15 09 02 1b 05 08 12 1d 03 06 1c 1e 13 07
     0e 00 0d 11 18 10 0c 01 19 16 0a 0f 17 (hexadecimal), eight inputs per lemma. */

  /** The word operations on words whose bits are all equal. */
  lemma ColumnOps()
    ensures Xor(0, 0) == 0 && Xor(0, ONES) == ONES && Xor(ONES, 0) == ONES && Xor(ONES, ONES) == 0
    ensures Not(0) == ONES && Not(ONES) == 0
    ensures And(0, 0) == 0 && And(0, ONES) == 0 && And(ONES, 0) == 0 && And(ONES, ONES) == ONES
  {
  }

  lemma SboxTable0()
    ensures SubstitutionLayer(Spread(0x00)) == Spread(0x04)
    ensures SubstitutionLayer(Spread(0x01)) == Spread(0x0b)
    ensures SubstitutionLayer(Spread(0x02)) == Spread(0x1f)
    ensures SubstitutionLayer(Spread(0x03)) == Spread(0x14)
    ensures SubstitutionLayer(Spread(0x04)) == Spread(0x1a)
    ensures SubstitutionLayer(Spread(0x05)) == Spread(0x15)
    ensures SubstitutionLayer(Spread(0x06)) == Spread(0x09)
    ensures SubstitutionLayer(Spread(0x07)) == Spread(0x02)
  {
    hide Xor, Not, And;
    ColumnOps();
  }

  lemma SboxTable1()
    ensures SubstitutionLayer(Spread(0x08)) == Spread(0x1b)
    ensures SubstitutionLayer(Spread(0x09)) == Spread(0x05)
    ensures SubstitutionLayer(Spread(0x0a)) == Spread(0x08)
    ensures SubstitutionLayer(Spread(0x0b)) == Spread(0x12)
    ensures SubstitutionLayer(Spread(0x0c)) == Spread(0x1d)
    ensures SubstitutionLayer(Spread(0x0d)) == Spread(0x03)
    ensures SubstitutionLayer(Spread(0x0e)) == Spread(0x06)
    ensures SubstitutionLayer(Spread(0x0f)) == Spread(0x1c)
  {
    hide Xor, Not, And;
    ColumnOps();
  }

  lemma SboxTable2()
    ensures SubstitutionLayer(Spread(0x10)) == Spread(0x1e)
    ensures SubstitutionLayer(Spread(0x11)) == Spread(0x13)
    ensures SubstitutionLayer(Spread(0x12)) == Spread(0x07)
    ensures SubstitutionLayer(Spread(0x13)) == Spread(0x0e)
    ensures SubstitutionLayer(Spread(0x14)) == Spread(0x00)
    ensures SubstitutionLayer(Spread(0x15)) == Spread(0x0d)
    ensures SubstitutionLayer(Spread(0x16)) == Spread(0x11)
    ensures SubstitutionLayer(Spread(0x17)) == Spread(0x18)
  {
    hide Xor, Not, And;
    ColumnOps();
  }

  lemma SboxTable3()
    ensures SubstitutionLayer(Spread(0x18)) == Spread(0x10)
    ensures SubstitutionLayer(Spread(0x19)) == Spread(0x0c)
    ensures SubstitutionLayer(Spread(0x1a)) == Spread(0x01)
    ensures SubstitutionLayer(Spread(0x1b)) == Spread(0x19)
    ensures SubstitutionLayer(Spread(0x1c)) == Spread(0x16)
    ensures SubstitutionLayer(Spread(0x1d)) == Spread(0x0a)
    ensures SubstitutionLayer(Spread(0x1e)) == Spread(0x0f)
    ensures SubstitutionLayer(Spread(0x1f)) == Spread(0x17)
  {
    hide Xor, Not, And;
    ColumnOps();
  }

  /** One round in place, layer by layer. */
  method ApplyRound(s: array<bv64>, i: bv8)
    requires s.Length == 5 && i < 12
    modifies s
    ensures Snapshot(s) == Round(old(Snapshot(s)), i)
  {
    AddConstantInPlace(s, i);
    SubstituteInPlace(s);
    DiffuseInPlace(s);
  }

  /** Constant addition layer: only x2 changes. */
  method AddConstantInPlace(s: array<bv64>, i: bv8)
    requires s.Length == 5 && i < 12
    modifies s
    ensures Snapshot(s) == AddConstant(old(Snapshot(s)), i)
  {
    s[2] := s[2] ^ RoundConstant(i);
  }

  /** Substitution layer, statement by statement on the five words, with the
      complemented words, ANDed with their neighbours, in temporaries `t`. */
  method SubstituteInPlace(s: array<bv64>)
    requires s.Length == 5
    modifies s
    ensures Snapshot(s) == SubstitutionLayer(old(Snapshot(s)))
  {
    hide Xor, Not, And;
    s[0] := Xor(s[0], s[4]);
    s[4] := Xor(s[4], s[3]);
    s[2] := Xor(s[2], s[1]);
    var t0, t1, t2, t3, t4 := Not(s[0]), Not(s[1]), Not(s[2]), Not(s[3]), Not(s[4]);
    t0 := And(t0, s[1]);
    t1 := And(t1, s[2]);
    t2 := And(t2, s[3]);
    t3 := And(t3, s[4]);
    t4 := And(t4, s[0]);
    s[0] := Xor(s[0], t1);
    s[1] := Xor(s[1], t2);
    s[2] := Xor(s[2], t3);
    s[3] := Xor(s[3], t4);
    s[4] := Xor(s[4], t0);
    s[1] := Xor(s[1], s[0]);
    s[0] := Xor(s[0], s[4]);
    s[3] := Xor(s[3], s[2]);
    s[2] := Not(s[2]);
  }

  /** Linear diffusion layer: each word is XORed with two of its rotations. */
  method DiffuseInPlace(s: array<bv64>)
    requires s.Length == 5
    modifies s
    ensures Snapshot(s) == LinearLayer(old(Snapshot(s)))
  {
    s[0] := Diffuse(s[0], 19, 28);
    s[1] := Diffuse(s[1], 61, 39);
    s[2] := Diffuse(s[2], 1, 6);
    s[3] := Diffuse(s[3], 10, 17);
    s[4] := Diffuse(s[4], 7, 41);
  }

  /** `ascon_permutate`: the rounds 12 - nr up to 11 with a byte counter, in place. */
  method Permutate(s: array<bv64>, nr: bv8)
    requires s.Length == 5
    modifies s
    ensures Snapshot(s) == Permute(old(Snapshot(s)), nr)
  {
    var i: bv8 := 12 - nr;
    while i < 12
      invariant RoundsFrom(Snapshot(s), i) == Permute(old(Snapshot(s)), nr)
      decreases 12 - i as int
    {
      ApplyRound(s, i);
      i := i + 1;
    }
  }
}
