/** The binary128 format: fields of the two-word encoding and normalisation of subnormals. */
module F128 {
  import opened Words

  const P48: int := 0x1_0000_0000_0000
  const P49: int := 0x2_0000_0000_0000
  const P112: int := 0x1_0000_0000_0000_0000_0000_0000_0000
  const P113: int := 0x2_0000_0000_0000_0000_0000_0000_0000

  function Sign(a: U128): bool { a.v64 >= 0x8000_0000_0000_0000 }
  function Exp(a: U128): int { (a.v64 / P48) % 0x8000 }
  function Frac(a: U128): U128 { U128(a.v64 % P48, a.v0) }

  predicate IsNaN(a: U128) { Exp(a) == 0x7FFF && Val(Frac(a)) != 0 }
  predicate IsInf(a: U128) { Exp(a) == 0x7FFF && Val(Frac(a)) == 0 }
  predicate IsFinite(a: U128) { Exp(a) != 0x7FFF }
  predicate IsZero(a: U128) { Exp(a) == 0 && Val(Frac(a)) == 0 }

  /** The significand with the hidden bit, and the exponent that goes with it, of a finite number:
      its magnitude is Sig(a) * 2^(SigExp(a) - 16495). */
  function Sig(a: U128): int { if Exp(a) == 0 then Val(Frac(a)) else P112 + Val(Frac(a)) }
  function SigExp(a: U128): int { if Exp(a) == 0 then 1 else Exp(a) }

  /** Magnitude in units of 2^-16607, small enough for every normalised exponent. */
  function Mag(a: U128): int { Sig(a) * Pow2(SigExp(a) + 112) }

  function FromVal(v: int): (z: U128)
    requires 0 <= v < W128
    ensures Val(z) == v
  {
    U128(v / W64, v % W64)
  }

  /** How far a subnormal significand moves left to bring its leading bit to the hidden-bit position. */
  function NormShift(sig: int): (n: nat)
    requires 0 < sig < P113
    ensures n <= 112 && P112 <= sig * Pow2(n) < P113
    decreases P113 - sig
  {
    if sig >= P112 then 0 else
      var n := NormShift(2 * sig);
      NormStep(sig, n);
      1 + n
  }

  lemma {:induction false} NormStep(sig: int, n: nat)
    requires 0 < sig && (2 * sig) * Pow2(n) < P113
    ensures sig * Pow2(1 + n) == (2 * sig) * Pow2(n) && n < 112
  {
    if n >= 112 {
      Pow2Values();
      Pow2Add(64, 48); Pow2Add(32, 16);
      Pow2Monotone(112, n);
      MulLeft(Pow2(n), 2, 2 * sig);
    }
  }

  datatype ExpSig = ExpSig(exp: int, sig: U128)

  /** The value computed by softfloat_normSubnormalF128Sig. */
  function NormSubnormal(sig: U128): (z: ExpSig)
    requires 0 < Val(sig) < P112
    ensures -111 <= z.exp <= 1 && Val(z.sig) == Val(sig) * Pow2(1 - z.exp)
    ensures P112 <= Val(z.sig) < P113
  {
    var n := NormShift(Val(sig));
    ExpSig(1 - n, FromVal(Val(sig) * Pow2(n)))
  }

  /** `sig.v64 |= 0x0001000000000000` */
  function OrHidden(sig: U128): U128
    requires sig.v64 < P49
  {
    if sig.v64 >= P48 then sig else U128(sig.v64 + P48, sig.v0)
  }

  /** The normalisation prologue shared by f128_rem and f128_div. */
  method NormalParts(a: U128) returns (exp: int, sig: U128)
    requires IsFinite(a) && !IsZero(a)
    ensures -111 <= exp < 0x7FFF && P112 <= Val(sig) < P113
    ensures Val(sig) * Pow2(exp + 112) == Mag(a)
  {
    exp, sig := Exp(a), Frac(a);
    if exp == 0 {
      var z := NormSubnormal(sig);
      NormMag(Val(sig), z.exp);
      exp, sig := z.exp, z.sig;
    }
    sig := OrHidden(sig);
  }

  lemma {:induction false} NormMag(sig: int, exp: int)
    requires -111 <= exp <= 1
    ensures (sig * Pow2(1 - exp)) * Pow2(exp + 112) == sig * Pow2(113)
  {
    Pow2Add(1 - exp, exp + 112);
    MulAssoc(sig, Pow2(1 - exp), Pow2(exp + 112));
  }
}
