/** f16_rem: the exact IEEE remainder of two binary16 numbers, in 16-bit arithmetic that wraps. */
module F16Rem {
  import opened Words
  import opened Recip
  import opened IeeeRem

  const P29: int := 0x2000_0000
  const P45: int := 0x2000_0000_0000

  function Signed16(x: u16): int { if x < 0x8000 then x else x - W16 }
  function Wrap16(x: int): u16 { x % W16 }

  lemma {:induction false} Wrap16Is(v: int)
    requires -0x8000 <= v < 0x8000
    ensures Signed16(Wrap16(v)) == v && (Wrap16(v) >= 0x8000 <==> v < 0)
  {
    if v >= 0 { DivModUnique(v, W16, 0, v); } else { DivModUnique(v, W16, -1, v + W16); }
  }

  lemma {:induction false} Wrap16Congruent(x: int, y: int, k: int)
    requires x == y + k * W16
    ensures Wrap16(x) == Wrap16(y)
  {
    ModOffset(y, W16, k);
  }

  // ---- the estimate ----

  /** b is the divisor significand shifted left 3, r the reciprocal estimate of b << 18. */
  ghost predicate Divisor(b: int, r: int) {
    0x2000 <= b < 0x4000 && 0 <= r < W32 && 0 < P45 - r * b && 125 * (P45 - r * b) <= 251 * b
  }

  lemma {:induction false} DivisorOk(sigB: int, r: int)
    requires 0x400 <= sigB < 0x800 && RecipOk(sigB * 0x20_0000, r)
    ensures Divisor(8 * sigB, r)
  {
    assert r * (sigB * 0x20_0000) == 0x4_0000 * (r * (8 * sigB));
  }

  function EstimatedQ(rem: int, recip32: int): int { (rem * recip32) / W16 }

  /** The remainder left by the truncated estimate, in exact arithmetic. The range is what lets the
      16-bit code forget everything above bit 15. */
  lemma {:induction false} EstimateRange(x: int, b: int, r: int, q: int)
    requires Divisor(b, r) && 0 <= x < 33000 && q == EstimatedQ(x, r)
    ensures 0 <= q < W32 && 0 <= P29 * x - q * b
    ensures 125 * W16 * (P29 * x - q * b) < 125 * W16 * b + 251 * (x * b)
    ensures 251 * (x * b) <= 251 * 33000 * 0x4000
  {
    var xr := x * r;
    MulLeft(x, 0, r); MulLeft(x, r, W32 - 1);
    EstimateProducts(x, b, r);
    MulLeft(b, W16 * q, xr); MulLeft(b, xr, W16 * q + W16 - 1);
    MulLeft(x, b, 0x4000); MulLeft(0x4000, x, 33000);
    EstimateLinear(x, b, q * b, xr * b, x * b, q, xr);
  }

  lemma {:induction false} EstimateProducts(x: int, b: int, r: int)
    requires Divisor(b, r) && 0 <= x
    ensures (x * r) * b <= P45 * x && 125 * (P45 * x - (x * r) * b) <= 251 * (x * b)
  {
    MulAssoc(x, r, b);
    MulLeft(x, r * b, P45);
    MulLeft(x, 125 * (P45 - r * b), 251 * b);
    assert x * (125 * (P45 - r * b)) == 125 * (P45 * x - x * (r * b));
    assert x * (251 * b) == 251 * (x * b);
  }

  lemma {:induction false} EstimateLinear(x: int, b: int, qb: int, xrb: int, xb: int, q: int, xr: int)
    requires qb == q * b && xrb == xr * b
    requires xrb <= P45 * x && 125 * (P45 * x - xrb) <= 251 * xb && 0 < b
    requires b * (W16 * q) <= xrb <= b * (W16 * q + W16 - 1)
    ensures 0 <= P29 * x - qb && 125 * W16 * (P29 * x - qb) < 125 * W16 * b + 251 * xb
  {
    assert b * (W16 * q) == W16 * qb;
    assert b * (W16 * q + W16 - 1) == W16 * qb + W16 * b - b;
  }

  // ---- the loop ----

  /** Each pass is rem = -(q32 * sigB) in 16 bits: the shifted old remainder is a multiple of 2^16
      and never has to be computed. */
  method ReduceBy29(rem0: u16, sigB: u16, recip32: u32, expDiff0: int)
    returns (rem: u16, expDiff: int, ghost m: int, ghost done: nat)
    requires Divisor(sigB, recip32) && rem0 < 33000 && expDiff0 >= -30
    ensures -30 <= expDiff < 0 && done + expDiff == expDiff0 && rem < 33000
    ensures rem0 * Pow2(done) == m * sigB + rem
    ensures expDiff == -30 ==> m == 0
  {
    rem, expDiff, m, done := rem0, expDiff0, 0, 0;
    while expDiff >= 0
      invariant -30 <= expDiff && done + expDiff == expDiff0 && rem < 33000
      invariant rem0 * Pow2(done) == m * sigB + rem
      invariant expDiff == -30 ==> m == 0
    {
      var q32 := EstimatedQ(rem, recip32);
      ghost var x' := P29 * rem - q32 * sigB;
      EstimateRange(rem, sigB, recip32, q32);
      Wrap16Congruent(x', -(q32 * sigB), 0x2000 * rem);
      DivModUnique(x', W16, 0, x');
      Advance(rem0, done, m, sigB, rem, q32, x');
      rem := Wrap16(-(q32 * sigB));
      m, done := m * P29 + q32, done + 29;
      expDiff := expDiff - 29;
    }
  }

  lemma {:induction false} Advance(a: int, done: nat, m: int, b: int, x: int, digit: int, x': int)
    requires a * Pow2(done) == m * b + x && x' == P29 * x - digit * b
    ensures a * Pow2(done + 29) == (m * P29 + digit) * b + x'
  {
    Pow2Add(done, 29); Pow2Values();
    MulAssoc(a, Pow2(done), P29);
    MulSwap(m, P29, b);
    assert (m * P29 + digit) * b == (m * P29) * b + digit * b;
  }

  // ---- the last, partial digit ----

  /** s = 2^k drops the low k bits of the estimate. */
  lemma {:induction false} PartialRange(x: int, b: int, r: int, q32: int, s: int, xs: int, q: int)
    requires Divisor(b, r) && 0 <= x < 33000 && q32 == EstimatedQ(x, r)
    requires 1 <= s && s * xs == P29 * x && q == q32 / s
    ensures 0 <= q && 0 <= xs - q * b < 33000 && xs - q * b - b < 0x8000
  {
    EstimateRange(x, b, r, q32);
    FloorProducts(q32, s, q, b);
    PartialIdentity(s, xs, q, b);
    PartialLinear(x, b, q32 * b, s, xs - q * b, s * (q * b), x * b);
  }

  lemma {:induction false} FloorProducts(u: int, s: int, q: int, b: int)
    requires 0 <= u && 0 < s && q == u / s && 0 <= b
    ensures 0 <= q && s * (q * b) <= u * b && u * b + b <= s * (q * b) + s * b
  {
    assert u == q * s + u % s;
    if q < 0 { MulLeft(s, q, -1); }
    MulLeft(b, s * q, u); MulLeft(b, u + 1, s * q + s);
    MulAssoc(s, q, b);
    assert b * (s * q + s) == (s * q) * b + s * b;
  }

  lemma {:induction false} PartialIdentity(s: int, xs: int, q: int, b: int)
    ensures s * (xs - q * b) == s * xs - s * (q * b)
  {}

  lemma {:induction false} PartialLinear(x: int, b: int, q32b: int, s: int, v: int, sqb: int, xb: int)
    requires 0 < b < 0x4000 && 1 <= s && 251 * xb <= 251 * 33000 * 0x4000
    requires 0 <= P29 * x - q32b && 125 * W16 * (P29 * x - q32b) < 125 * W16 * b + 251 * xb
    requires s * v == P29 * x - sqb && sqb <= q32b && q32b + b <= sqb + s * b
    ensures 0 <= v < 33000 && v - b < 0x8000
  {
    if v < 0 { MulLeft(s, v, -1); }
    // s (v - b) is below the slack of the estimate, so v - b is too
    assert s * (v - b) == s * v - s * b;
    assert s * (v - b) < 16600;
    if v - b >= 16600 { MulLeft(v - b, 1, s); }
  }

  // ---- selection ----

  method Descend(rem0: u16, sigB: u16, q0: int, ghost a: int) returns (z: u16, ghost n: int)
    requires 0 < sigB < 0x4000 && rem0 - sigB < 0x8000 && rem0 == a - q0 * sigB
    ensures Signed16(z) == a - n * sigB && NearestEven(a, sigB, n)
  {
    ghost var b: int := sigB;
    var altRem: u16, q: int, rem: u16 := rem0, q0 + 1, Wrap16(rem0 - sigB);
    Wrap16Is(rem0 - sigB);
    assert a - q * b == (a - q0 * b) - b;
    while rem < 0x8000
      invariant -b <= Signed16(rem) < 0x8000 && altRem == Signed16(rem) + b && Signed16(rem) == a - q * b
      decreases Signed16(rem) + b
    {
      Wrap16Is(rem - sigB);
      assert a - (q + 1) * b == (a - q * b) - b;
      altRem, q, rem := rem, q + 1, Wrap16(rem - sigB);
    }
    var meanRem := Wrap16(rem + altRem);
    Wrap16Is(Signed16(rem) + altRem);
    Wrap16Congruent(rem + altRem, Signed16(rem) + altRem, 1);
    assert a - (q - 1) * b == Signed16(rem) + b;
    if meanRem >= 0x8000 || (meanRem == 0 && q % 2 == 1) {
      z, n := altRem, q - 1;
    } else {
      z, n := rem, q;
    }
  }

  method RemLong(sigA: u16, sigB: u16, expDiff0: int) returns (z: u16, ghost n: int)
    requires 0x400 <= sigA < 0x800 && 0x400 <= sigB < 0x800 && 1 <= expDiff0
    ensures Signed16(z) == (16 * sigA) * Pow2(expDiff0 - 1) - n * (8 * sigB)
    ensures NearestEven((16 * sigA) * Pow2(expDiff0 - 1), 8 * sigB, n)
  {
    var recip32 := ApproxRecip32(sigB * 0x20_0000);
    ApproxRecip32Ok(sigB * 0x20_0000);
    DivisorOk(sigB, recip32);
    var sigB8: u16 := 8 * sigB;
    var rem, expDiff;
    ghost var m, done;
    rem, expDiff, m, done := ReduceBy29(16 * sigA, sigB8, recip32, expDiff0 - 31);
    ghost var x, sh := rem, expDiff + 30;
    var q;
    rem, q := LastDigit(rem, sigB8, recip32, expDiff);
    ghost var a, base := (16 * sigA) * Pow2(expDiff0 - 1), m * Pow2(sh);
    Finish(16 * sigA, done, sh, m, sigB8, x, q, rem);
    ghost var n0;
    z, n0 := Descend(rem, sigB8, q, a - base * sigB8);
    n := base + n0;
    ShiftQuotient(a, sigB8, base, n0);
  }

  method LastDigit(rem0: u16, sigB: u16, recip32: u32, expDiff: int) returns (rem: u16, q: int)
    requires Divisor(sigB, recip32) && rem0 < 33000 && -30 <= expDiff < 0
    ensures rem == rem0 * Pow2(expDiff + 30) - q * sigB && rem - sigB < 0x8000
  {
    var k := -expDiff - 1;                     // ~expDiff & 31
    var q32 := EstimatedQ(rem0, recip32);
    q := q32 / Pow2(k);
    ghost var xs := rem0 * Pow2(29 - k);
    Pow2Add(k, 29 - k); Pow2Values();
    MulSwap(Pow2(k), Pow2(29 - k), rem0); MulAssoc(Pow2(k), rem0, Pow2(29 - k));
    PartialRange(rem0, sigB, recip32, q32, Pow2(k), xs, q);
    DivModUnique(xs - q * sigB, W16, 0, xs - q * sigB);
    rem := Wrap16(rem0 * Pow2(expDiff + 30) - q * sigB);
  }

  lemma {:induction false} Finish(a: int, done: nat, sh: nat, m: int, b: int, x: int, q: int, v: int)
    requires a * Pow2(done) == m * b + x && v == x * Pow2(sh) - q * b && (sh == 0 ==> m == 0)
    ensures v == (a * Pow2(done + sh) - (m * Pow2(sh)) * b) - q * b
    ensures (m * Pow2(sh)) % 2 == 0
  {
    Pow2Add(done, sh);
    MulAssoc(a, Pow2(done), Pow2(sh));
    MulSwap(m, b, Pow2(sh));
    assert (m * b + x) * Pow2(sh) == (m * b) * Pow2(sh) + x * Pow2(sh);
    if sh > 0 {
      MulSwap(m, 2, Pow2(sh - 1)); MulAssoc(m, 2, Pow2(sh - 1));
      assert m * Pow2(sh) == 2 * (m * Pow2(sh - 1));
    }
  }

  /** On normalised significands: the remainder of sigA * 2^(expDiff + 3) by 8 * sigB. */
  method RemCore(sigA: u16, sigB: u16, expDiff: int) returns (rem: u16, ghost n: int)
    requires 0x400 <= sigA < 0x800 && 0x400 <= sigB < 0x800 && -1 <= expDiff
    ensures Signed16(rem) == sigA * Pow2(expDiff + 3) - n * (8 * sigB)
    ensures NearestEven(sigA * Pow2(expDiff + 3), 8 * sigB, n)
  {
    if expDiff < 1 {
      if expDiff != 0 {
        rem, n := Descend(4 * sigA, 8 * sigB, 0, 4 * sigA);
      } else if 8 * sigB <= 8 * sigA {
        rem, n := Descend(8 * sigA - 8 * sigB, 8 * sigB, 1, 8 * sigA);
      } else {
        rem, n := Descend(8 * sigA, 8 * sigB, 0, 8 * sigA);
      }
    } else {
      rem, n := RemLong(sigA, sigB, expDiff);
      Pow2Add(4, expDiff - 1);
      MulAssoc(sigA, 16, Pow2(expDiff - 1));
    }
  }

  // ---- the whole operation ----

  function Sign(a: u16): bool { a >= 0x8000 }
  function Exp(a: u16): int { (a / 0x400) % 32 }
  function Frac(a: u16): int { a % 0x400 }
  predicate IsNaN(a: u16) { Exp(a) == 31 && Frac(a) != 0 }
  predicate IsInf(a: u16) { Exp(a) == 31 && Frac(a) == 0 }
  predicate IsFinite(a: u16) { Exp(a) != 31 }
  predicate IsZero(a: u16) { Exp(a) == 0 && Frac(a) == 0 }

  function Sig(a: u16): int { if Exp(a) == 0 then Frac(a) else 0x400 + Frac(a) }
  function SigExp(a: u16): int { if Exp(a) == 0 then 1 else Exp(a) }

  /** Magnitude in units of 2^-37. */
  function Mag(a: u16): int { Sig(a) * Pow2(SigExp(a) + 12) }

  function NormShift(sig: int): (n: nat)
    requires 0 < sig < 0x800
    ensures n <= 10 && 0x400 <= sig * Pow2(n) < 0x800
    decreases 0x800 - sig
  {
    if sig >= 0x400 then 0 else
      var n := NormShift(2 * sig);
      NormStep(sig, n);
      1 + n
  }

  lemma {:induction false} NormStep(sig: int, n: nat)
    requires 0 < sig && (2 * sig) * Pow2(n) < 0x800
    ensures sig * Pow2(1 + n) == (2 * sig) * Pow2(n) && n < 10
  {
    if n >= 10 {
      Pow2Monotone(10, n);
      MulLeft(Pow2(n), 2, 2 * sig);
    }
  }

  method NormalParts(a: u16) returns (exp: int, sig: u16)
    requires IsFinite(a) && !IsZero(a)
    ensures -9 <= exp < 31 && 0x400 <= sig < 0x800 && sig * Pow2(exp + 12) == Mag(a)
  {
    exp, sig := Exp(a), Frac(a);
    if exp == 0 {
      var n := NormShift(sig);
      Pow2Add(n, 13 - n);
      MulAssoc(sig, Pow2(n), Pow2(13 - n));
      exp := 1;
      exp, sig := exp - n, sig * Pow2(n);
    } else {
      sig := sig + 0x400;
    }
  }

  datatype Outcome = PropagateNaN | Invalid | ReturnA | Pack(sign: bool, exp: int, sig: u16)

  /** A significand s handed to softfloat_normRoundPackToF16 at exponent e stands for s * 2^(e - 3). */
  function ResultMag(a: u16, z: Outcome): int
    requires z.Pack? ==> z.exp >= -9
  {
    if z.Pack? then (if z.sign == Sign(a) then z.sig else 0 - z.sig) * Pow2(z.exp + 9) else Mag(a)
  }

  method F16Rem(a: u16, b: u16) returns (z: Outcome)
    ensures z.PropagateNaN? <==> IsNaN(a) || IsNaN(b)
    ensures z.Invalid? <==> !IsNaN(a) && !IsNaN(b) && (IsInf(a) || IsZero(b))
    ensures IsFinite(a) && IsInf(b) ==> z.ReturnA?
    ensures z.Pack? ==> z.exp >= -9
    ensures IsFinite(a) && IsFinite(b) && !IsZero(b) ==> IeeeRemainder(Mag(a), Mag(b), ResultMag(a, z))
    ensures z.Pack? && z.sig == 0 ==> z.sign == Sign(a)
  {
    if Exp(a) == 31 {
      if Frac(a) != 0 || (Exp(b) == 31 && Frac(b) != 0) { return PropagateNaN; }
      return Invalid;
    }
    if Exp(b) == 31 {
      if Frac(b) != 0 { return PropagateNaN; }
      return ReturnA;
    }
    if Exp(b) == 0 && Frac(b) == 0 { return Invalid; }
    var expB, sigB := NormalParts(b);
    if Exp(a) == 0 && Frac(a) == 0 {
      MulLeft(sigB, 0, Pow2(expB + 12));
      assert NearestEven(0, Mag(b), 0);
      return ReturnA;
    }
    var expA, sigA := NormalParts(a);
    if expA - expB < -1 {
      SmallRemainder(sigA, expA, sigB, expB);
      return ReturnA;
    }
    z := RemFinite(Sign(a), sigA, expA, sigB, expB);
  }

  /** f16_rem.c:102-157 for operands within reach of each other. */
  method RemFinite(signA: bool, sigA: u16, expA: int, sigB: u16, expB: int) returns (z: Outcome)
    requires 0x400 <= sigA < 0x800 && 0x400 <= sigB < 0x800 && -9 <= expA && -9 <= expB && -1 <= expA - expB
    ensures z.Pack? && z.exp == expB && (z.sig == 0 ==> z.sign == signA)
    ensures IeeeRemainder(sigA * Pow2(expA + 12), sigB * Pow2(expB + 12),
                          (if z.sign == signA then z.sig else 0 - z.sig) * Pow2(expB + 9))
  {
    var rem: u16;
    ghost var n;
    rem, n := RemCore(sigA, sigB, expA - expB);
    ScaleResult(sigA, expA, sigB, expB, n, Signed16(rem));
    var signRem := signA;
    if 0x8000 <= rem {
      signRem := !signRem;
      DivModUnique(0 - rem, W16, -1, W16 - rem);
      rem := Wrap16(0 - rem);
    }
    z := Pack(signRem, expB, rem);
  }

  lemma {:induction false} SmallRemainder(sigA: int, expA: int, sigB: int, expB: int)
    requires 0x400 <= sigA < 0x800 && 0x400 <= sigB < 0x800 && -9 <= expA && expA - expB < -1
    ensures IeeeRemainder(sigA * Pow2(expA + 12), sigB * Pow2(expB + 12), sigA * Pow2(expA + 12))
  {
    var ka, g := Pow2(expA + 12), Pow2(expB - expA);
    Pow2Add(expA + 12, expB - expA);
    Pow2Monotone(2, expB - expA);
    MulSwap(sigB, g, ka); MulAssoc(sigB, ka, g);
    MulLeft(sigB, 4, g);
    assert NearestEven(sigA, sigB * g, 0);
    ScaleNearest(sigA, sigB * g, 0, ka);
  }

  lemma {:induction false} ScaleResult(sigA: int, expA: int, sigB: int, expB: int, n: int, r: int)
    requires -9 <= expA && -9 <= expB && -1 <= expA - expB
    requires r == sigA * Pow2(expA - expB + 3) - n * (8 * sigB)
    requires NearestEven(sigA * Pow2(expA - expB + 3), 8 * sigB, n)
    ensures IeeeRemainder(sigA * Pow2(expA + 12), sigB * Pow2(expB + 12), r * Pow2(expB + 9))
  {
    var k := Pow2(expB + 9);
    Pow2Add(expA - expB + 3, expB + 9);
    MulAssoc(sigA, Pow2(expA - expB + 3), k);
    Pow2Add(3, expB + 9);
    MulAssoc(sigB, 8, k);
    ScaleNearest(sigA * Pow2(expA - expB + 3), 8 * sigB, n, k);
  }
}
