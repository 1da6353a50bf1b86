/**
  The variants and their parameters (ascon.h, `ascon_aead_setup`,
  `ascon_hash_setup`): the rate `r` in bytes, the round counts `a` and `b`
  of the initialisation/finalisation and of the data processing, and the
  initialisation vector.
 */
module Config {

  /** `enum ascon_aead_variant`. */
  datatype AeadVariant = Ascon128 | Ascon128a

  /** `enum ascon_hash_variant`. */
  datatype HashVariant = AsconHash | AsconXof

  /** The enumerator values, in declaration order. */
  function AeadCode(v: AeadVariant): int
  {
    match v
    case Ascon128 => 0
    case Ascon128a => 1
  }

  function HashCode(v: HashVariant): int
  {
    match v
    case AsconHash => 0
    case AsconXof => 1
  }

  const ASCON128_IV: bv64 := 0x80400c0600000000
  const ASCON128A_IV: bv64 := 0x80800c0800000000
  const ASCON_HASH_IV: bv64 := 0x00400c0000000100
  const ASCON_XOF_IV: bv64 := 0x00400c0000000000

  /** Bytes of the authentication tag appended to the ciphertext. */
  const TAG_SIZE: nat := 16

  /** The value of `struct ascon_aead`. */
  datatype AeadParams = AeadParams(r: nat, a: bv8, b: bv8, iv: bv64)

  /** The value of `struct ascon_hash`: it has no `b`. */
  datatype HashParams = HashParams(r: nat, a: bv8, iv: bv64)

  /** The parameters each AEAD variant is prepared with. */
  function AeadParamsOf(v: AeadVariant): AeadParams
  {
    match v
    case Ascon128 => AeadParams(8, 12, 6, ASCON128_IV)
    case Ascon128a => AeadParams(16, 12, 8, ASCON128A_IV)
  }

  /** The parameters each hash variant is prepared with. */
  function HashParamsOf(v: HashVariant): HashParams
  {
    match v
    case AsconHash => HashParams(8, 12, ASCON_HASH_IV)
    case AsconXof => HashParams(8, 12, ASCON_XOF_IV)
  }

  /** The variant `ascon_aead_setup` selects for an enumerator value: any
      value other than the two enumerators falls back to Ascon-128. */
  function AeadVariantOf(code: int): (v: AeadVariant)
    ensures code == AeadCode(Ascon128a) <==> v == Ascon128a
  {
    if code == AeadCode(Ascon128) then Ascon128
    else if code == AeadCode(Ascon128a) then Ascon128a
    else Ascon128
  }

  /** The variant `ascon_hash_setup` selects: any value other than the two
      enumerators falls back to the XOF. */
  function HashVariantOf(code: int): (v: HashVariant)
    ensures code == HashCode(AsconHash) <==> v == AsconHash
  {
    if code == HashCode(AsconHash) then AsconHash
    else if code == HashCode(AsconXof) then AsconXof
    else AsconXof
  }

  /** Setup of an enumerator gives back that variant's parameters. */
  lemma VariantCodesRoundTrip(v: AeadVariant, w: HashVariant)
    ensures AeadVariantOf(AeadCode(v)) == v
    ensures HashVariantOf(HashCode(w)) == w
  {
  }

  /** The rates the variants use, in bytes. */
  predicate ValidRate(r: nat)
  {
    r == 8 || r == 16
  }

  /** Parameters a computation can run with: the rate is 8 or 16 bytes. */
  predicate ValidAead(p: AeadParams)
  {
    ValidRate(p.r)
  }

  predicate ValidHash(p: HashParams)
  {
    ValidRate(p.r)
  }

  /** Every variant has a valid rate; the two AEAD variants differ only in
      rate, `b` and IV, and the hash variants only in IV. */
  lemma VariantParams(v: AeadVariant, w: HashVariant)
    ensures ValidAead(AeadParamsOf(v)) && ValidHash(HashParamsOf(w))
    ensures AeadParamsOf(v).a == 12 && HashParamsOf(w).a == 12 && HashParamsOf(w).r == 8
    ensures AeadParamsOf(Ascon128).r == 8 && AeadParamsOf(Ascon128a).r == 16
    ensures AeadParamsOf(Ascon128).iv != AeadParamsOf(Ascon128a).iv
    ensures HashParamsOf(AsconHash).iv != HashParamsOf(AsconXof).iv
  {
  }

  /** `struct ascon_aead`, filled in place by `ascon_aead_setup`. */
  class AsconAead {
    var r: nat
    var a: bv8
    var b: bv8
    var iv: bv64

    function Params(): AeadParams
      reads this
    {
      AeadParams(r, a, b, iv)
    }

    /** `ascon_aead_prep`. */
    method Prep(r': nat, a': bv8, b': bv8, iv': bv64)
      modifies this
      ensures r == r' && a == a' && b == b' && iv == iv'
    {
      r := r';
      a := a';
      b := b';
      iv := iv';
    }

    /** `ascon_aead_setup` for the enumerator value `v`. */
    method Setup(v: int)
      modifies this
      ensures Params() == AeadParamsOf(AeadVariantOf(v))
      ensures ValidAead(Params())
    {
      if v == AeadCode(Ascon128) {
        Prep(8, 12, 6, ASCON128_IV);
      } else if v == AeadCode(Ascon128a) {
        Prep(16, 12, 8, ASCON128A_IV);
      } else {
        Prep(8, 12, 6, ASCON128_IV);
      }
    }
  }

  /** `struct ascon_hash`, filled in place by `ascon_hash_setup`. */
  class AsconHash {
    var r: nat
    var a: bv8
    var iv: bv64

    function Params(): HashParams
      reads this
    {
      HashParams(r, a, iv)
    }

    /** `ascon_hash_prep`. */
    method Prep(r': nat, a': bv8, iv': bv64)
      modifies this
      ensures r == r' && a == a' && iv == iv'
    {
      r := r';
      a := a';
      iv := iv';
    }

    /** `ascon_hash_setup` for the enumerator value `v`. */
    method Setup(v: int)
      modifies this
      ensures Params() == HashParamsOf(HashVariantOf(v))
      ensures ValidHash(Params())
    {
      if v == HashCode(AsconHash) {
        Prep(8, 12, ASCON_HASH_IV);
      } else if v == HashCode(AsconXof) {
        Prep(8, 12, ASCON_XOF_IV);
      } else {
        Prep(8, 12, ASCON_XOF_IV);
      }
    }
  }
}
