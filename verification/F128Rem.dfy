/** f128_rem: the exact IEEE remainder of two binary128 numbers. */
module F128Rem {
  import opened Words
  import opened Recip
  import opened F128
  import opened Digits
  import opened IeeeRem

  // ---- the last step: the two candidates around the true quotient ----

  /** f128_rem.c, label selectRem: of two adjacent remainders keep the nearer one, ties to even q. */
  method SelectRem(rem: U128, altRem: U128, q: int, ghost a: int, ghost b: int)
    returns (z: U128, ghost n: int)
    requires 0 < b < W128 / 8 && -b <= Signed(rem) < 0
    requires Signed(altRem) == Signed(rem) + b && Signed(rem) == a - q * b
    ensures Signed(z) == a - n * b && NearestEven(a, b, n)
  {
    var meanRem := Add128(rem, altRem);
    SignedAdd(rem, altRem);
    Nearer(a, b, q, Signed(rem));
    if Negative(meanRem) || (meanRem.v64 == 0 && meanRem.v0 == 0 && q % 2 == 1) {
      z, n := altRem, q - 1;
    } else {
      z, n := rem, q;
    }
  }

  /** The sum of the two remainders, and at a tie the quotient, tell which is the one of the nearest quotient. */
  lemma {:induction false} Nearer(a: int, b: int, q: int, r: int)
    requires 0 < b && r == a - q * b && -b <= r < 0
    ensures a - (q - 1) * b == r + b
    ensures NearestEven(a, b, if r + (r + b) < 0 || (r + (r + b) == 0 && q % 2 == 1) then q - 1 else q)
  {
    OneStep(a, b, q);
  }

  lemma {:induction false} OneStep(a: int, b: int, q: int)
    ensures a - (q - 1) * b == (a - q * b) + b && a - (q + 1) * b == (a - q * b) - b
  {}

  /** f128_rem.c, the do-while: step down to the first negative remainder, then select. */
  method Descend(rem0: U128, sigB: U128, q0: int, ghost a: int) returns (z: U128, ghost n: int)
    requires 0 < Val(sigB) < W128 / 8 && 0 <= Signed(rem0) < W128 / 4
    requires Signed(rem0) == a - q0 * Val(sigB)
    ensures Signed(z) == a - n * Val(sigB) && NearestEven(a, Val(sigB), n)
  {
    ghost var b := Val(sigB);
    var altRem, q, rem := rem0, q0 + 1, Sub128(rem0, sigB);
    SignedSub(rem0, sigB);
    OneStep(a, b, q0);
    while !Negative(rem)
      invariant -b <= Signed(rem) < W128 / 4
      invariant Negative(rem) <==> Signed(rem) < 0
      invariant Signed(altRem) == Signed(rem) + b && Signed(rem) == a - q * b
      decreases Signed(rem) + b
    {
      ghost var x := Signed(rem);
      SignedSub(rem, sigB);
      OneStep(a, b, q);
      altRem, q, rem := rem, q + 1, Sub128(rem, sigB);
    }
    z, n := SelectRem(rem, altRem, q, a, b);
  }

  // ---- the 29-bit loop ----

  /** Each pass shifts in 29 bits of the dividend and removes a multiple of the divisor: the
      remainder stays congruent to sigA * 2^(29 k) and inside the invariant. */
  method ReduceBy29(sigA: U128, sigB: U128, recip32: u32, expDiff0: int)
    returns (rem: U128, expDiff: int, ghost m: int, ghost done: nat)
    requires Divisor(Val(sigB), recip32) && Reduced(Val(sigA), Val(sigB), recip32) && expDiff0 >= -29
    ensures -29 <= expDiff < 0 && done + expDiff == expDiff0
    ensures Reduced(Val(rem), Val(sigB), recip32)
    ensures Val(sigA) * Pow2(done) == m * Val(sigB) + Val(rem)
  {
    ghost var b := Val(sigB);
    rem, expDiff, m, done := sigA, expDiff0, 0, 0;
    while expDiff >= 0
      invariant -29 <= expDiff && done + expDiff == expDiff0
      invariant Reduced(Val(rem), b, recip32)
      invariant Val(sigA) * Pow2(done) == m * b + Val(rem)
    {
      var rem', digit := OneDigit(rem, sigB, recip32);
      Advance(Val(sigA), done, m, b, Val(rem), digit, Val(rem'));
      rem, m, done := rem', m * P29 + digit, done + 29;
      expDiff := expDiff - 29;
    }
  }

  lemma {:induction false} Advance(a: int, done: nat, m: int, b: int, x: int, digit: int, x': int)
    requires a * Pow2(done) == m * b + x
    requires x' == P29 * x - digit * b
    ensures a * Pow2(done + 29) == (m * P29 + digit) * b + x'
  {
    Pow2Add(done, 29); Pow2Values();
    MulAssoc(a, Pow2(done), P29);
    MulSwap(m, P29, b);
    assert (m * P29 + digit) * b == (m * P29) * b + digit * b;
  }

  // ---- the last, partial digit ----

  function TruncatedQ(t: int, r: int, s: int): int
    requires s > 0
  {
    ((t * r) / W32) / s
  }

  /** The truncated last digit overshoots by at most one half. */
  lemma {:induction false} PartialDigit(x: int, b: int, r: int, t: int, s: int, xs: int, q: int)
    requires Divisor(b, r) && Reduced(x, b, r) && t == x / P83
    requires 1 <= s && s * xs == P29 * x && q == TruncatedQ(t, r, s)
    ensures 0 <= q < W32 && -b <= 2 * (xs - q * b) && xs - q * b < 8 * P116
  {
    EstimateUpper(x, b, r, t);
    EstimateLower(x, b, r, t);
    ShortBound(x, b, r);
    DigitRange(t, r, RoundedQ(t, r));
    TruncatedProduct(t * r, b, s, q);
    PartialCore(x, b, x * Short(r, b), (t * r) * b, s, xs, q);
  }

  lemma {:induction false} PartialCore(x: int, b: int, xe: int, trb: int, s: int, xs: int, q: int)
    requires 0 < b < P113 && xe <= 3 * (W32 * P115) && 1 <= s
    requires trb <= P61 * x + P31 * b && 4 * (P61 * x - trb) < 4 * P144 + xe
    requires W32 * (s * (q * b)) <= trb < W32 * (s * (q * b)) + W32 * (s * b) && s * xs == P29 * x
    ensures -b <= 2 * (xs - q * b) && xs - q * b < 8 * P116
  {
    assert s * (xs - q * b) == s * xs - s * (q * b);
    PartialLinear(x, b, xe, trb, s, xs - q * b, s * (q * b), s * b);
  }

  lemma {:induction false} TruncatedProduct(tr: int, b: int, s: int, q: int)
    requires 0 < b && 0 < s && 0 <= tr && q == (tr / W32) / s
    ensures 0 <= q <= tr / W32
    ensures W32 * (s * (q * b)) <= tr * b < W32 * (s * (q * b)) + W32 * (s * b)
  {
    var u := tr / W32;
    FloorDiv(u, s, q);
    MulLeft(b, W32 * (s * q), tr);
    MulLeft(b, tr, W32 * (s * q + s) - 1);
    Regroup3(b, s, q);
  }

  lemma {:induction false} FloorDiv(u: int, s: int, q: int)
    requires 0 <= u && 0 < s && q == u / s
    ensures s * q <= u < s * q + s && 0 <= q <= u
  {
    assert u == q * s + u % s;
    if q < 0 { MulLeft(s, q, -1); }
    MulLeft(q, 1, s);
  }

  lemma {:induction false} Regroup3(b: int, s: int, q: int)
    ensures b * (W32 * (s * q)) == W32 * (s * (q * b))
    ensures b * (W32 * (s * q + s) - 1) == W32 * (s * (q * b)) + W32 * (s * b) - b
  {
    MulAssoc(s, q, b);
  }

  lemma {:induction false} PartialLinear(x: int, b: int, xe: int, trb: int, s: int, v: int, sqb: int, sb: int)
    requires 0 < b < P113 && xe <= 3 * (W32 * P115) && 1 <= s
    requires trb <= P61 * x + P31 * b && 4 * (P61 * x - trb) < 4 * P144 + xe
    requires W32 * sqb <= trb < W32 * sqb + W32 * sb
    requires s * v == P29 * x - sqb && sb == s * b
    ensures -b <= 2 * v && v < 8 * P116
  {
    assert -b <= 2 * (s * v);
    if 2 * v < -b { MulLeft(-v, 1, s); }
    if v >= 8 * P116 {
      MulLeft(s, 8 * P116, v);
      MulLeft(s, b, P113);
    }
  }

  /** f128_rem.c:144-147: the remaining -expDiff' bits, with the quotient truncated. */
  method LastDigit(rem0: U128, sigB: U128, recip32: u32, expDiff: int) returns (rem: U128, q: int)
    requires Divisor(Val(sigB), recip32) && Reduced(Val(rem0), Val(sigB), recip32) && -29 <= expDiff < 0
    ensures Signed(rem) == Val(rem0) * Pow2(expDiff + 30) - q * Val(sigB)
    ensures Negative(rem) <==> Signed(rem) < 0
    ensures -Val(sigB) <= 2 * Signed(rem) && Signed(rem) < 8 * P116
  {
    var k := -expDiff - 1;                       // ~expDiff & 31
    q := TruncatedQ(Top(rem0), recip32, Pow2(k));
    TopIs(rem0);
    ghost var xs := Val(rem0) * Pow2(29 - k);
    SplitShift(Val(rem0), k);
    PartialDigit(Val(rem0), Val(sigB), recip32, Top(rem0), Pow2(k), xs, q);
    rem := ShiftAndSubtract(rem0, expDiff + 30, sigB, q, xs - q * Val(sigB));
  }

  method ShiftAndSubtract(rem0: U128, dist: int, sigB: U128, q: u32, ghost v: int) returns (rem: U128)
    requires 1 <= dist <= 29 && v == Val(rem0) * Pow2(dist) - q * Val(sigB) && -P113 <= v < 8 * P116
    ensures Signed(rem) == v && (Negative(rem) <==> v < 0)
  {
    ShiftSubtract(rem0, dist, sigB, q, v);
    rem := Sub128(ShortShiftLeft128(rem0, dist), Mul128By32(sigB, q));
  }

  lemma {:induction false} Regroup(s: int, x: int, t: int)
    ensures s * (x * t) == (s * t) * x
  {}

  lemma {:induction false} SplitShift(x: int, k: nat)
    requires k <= 29
    ensures Pow2(k) * (x * Pow2(29 - k)) == P29 * x
  {
    Pow2Add(k, 29 - k); Pow2Values();
    Regroup(Pow2(k), x, Pow2(29 - k));
  }

  // ---- the core on normalised significands ----

  method RemCore(sigA: U128, sigB: U128, expDiff: int) returns (rem: U128, ghost n: int)
    requires P112 <= Val(sigA) < P113 && P112 <= Val(sigB) < P113 && -1 <= expDiff
    ensures var a := if expDiff < 0 then Val(sigA) else Val(sigA) * Pow2(expDiff);
            var b := if expDiff < 0 then 2 * Val(sigB) else Val(sigB);
            Signed(rem) == a - n * b && NearestEven(a, b, n) && 2 * Abs(Signed(rem)) <= b < 2 * P113
  {
    if expDiff < 0 {
      rem, n := RemHalf(sigA, sigB);
    } else if expDiff == 0 {
      rem, n := RemSame(sigA, sigB);
    } else {
      rem, n := RemLong(sigA, sigB, expDiff);
    }
  }

  /** The divisor's exponent is one above the dividend's. */
  method RemHalf(sigA: U128, sigB: U128) returns (rem: U128, ghost n: int)
    requires P112 <= Val(sigA) < P113 && P112 <= Val(sigB) < P113
    ensures Signed(rem) == Val(sigA) - n * (2 * Val(sigB)) && NearestEven(Val(sigA), 2 * Val(sigB), n)
  {
    Twice(sigB);
    rem, n := Descend(sigA, Add128(sigB, sigB), 0, Val(sigA));
  }

  lemma {:induction false} Twice(x: U128)
    requires Val(x) < P113
    ensures Val(Add128(x, x)) == 2 * Val(x)
  {}

  /** The exponents are the same. */
  method RemSame(sigA: U128, sigB: U128) returns (rem: U128, ghost n: int)
    requires P112 <= Val(sigA) < P113 && P112 <= Val(sigB) < P113
    ensures Signed(rem) == Val(sigA) - n * Val(sigB) && NearestEven(Val(sigA), Val(sigB), n)
  {
    if Le128(sigB, sigA) {
      SignedSub(sigA, sigB);
      rem, n := Descend(Sub128(sigA, sigB), sigB, 1, Val(sigA));
    } else {
      rem, n := Descend(sigA, sigB, 0, Val(sigA));
    }
  }

  method RemLong(sigA: U128, sigB: U128, expDiff0: int) returns (z: U128, ghost n: int)
    requires P112 <= Val(sigA) < P113 && P112 <= Val(sigB) < P113 && 1 <= expDiff0
    ensures Signed(z) == Val(sigA) * Pow2(expDiff0) - n * Val(sigB)
    ensures NearestEven(Val(sigA) * Pow2(expDiff0), Val(sigB), n)
  {
    ghost var b := Val(sigB);
    TopOfDivisor(sigB);
    var recip32 := ApproxRecip32(sigB.v64 / 0x2_0000);
    ApproxRecip32Ok(sigB.v64 / 0x2_0000);
    DivisorOk(b, recip32);
    ReducedBelowTwice(Val(sigA), b, recip32);
    var rem, expDiff;
    ghost var m, done;
    rem, expDiff, m, done := ReduceBy29(sigA, sigB, recip32, expDiff0 - 30);
    ghost var x, sh := Val(rem), expDiff + 30;
    var q;
    rem, q := LastDigit(rem, sigB, recip32, expDiff);
    ghost var a, base := Val(sigA) * Pow2(expDiff0), m * Pow2(sh);
    Finish(Val(sigA), done, sh, m, b, x, q, Signed(rem));
    ghost var n0;
    z, n0 := PickLast(rem, sigB, q, a - base * b);
    n := base + n0;
    ShiftQuotient(a, b, base, n0);
  }

  method PickLast(rem: U128, sigB: U128, q: int, ghost a: int) returns (z: U128, ghost n: int)
    requires 0 < Val(sigB) < P113 && -Val(sigB) <= Signed(rem) < 8 * P116
    requires Signed(rem) == a - q * Val(sigB) && (Negative(rem) <==> Signed(rem) < 0)
    ensures Signed(z) == a - n * Val(sigB) && NearestEven(a, Val(sigB), n)
  {
    if Negative(rem) {
      SignedAdd(rem, sigB);
      z, n := SelectRem(rem, Add128(rem, sigB), q, a, Val(sigB));
    } else {
      z, n := Descend(rem, sigB, q, a);
    }
  }

  lemma {:induction false} Finish(a: int, done: nat, sh: nat, m: int, b: int, x: int, q: int, v: int)
    requires a * Pow2(done) == m * b + x && 1 <= sh && v == x * Pow2(sh) - q * b
    ensures v == (a * Pow2(done + sh) - (m * Pow2(sh)) * b) - q * b
    ensures (m * Pow2(sh)) % 2 == 0
  {
    Pow2Add(done, sh);
    MulAssoc(a, Pow2(done), Pow2(sh));
    MulSwap(m, b, Pow2(sh));
    assert (m * b + x) * Pow2(sh) == (m * b) * Pow2(sh) + x * Pow2(sh);
    MulSwap(m, 2, Pow2(sh - 1)); MulAssoc(m, 2, Pow2(sh - 1));
    assert m * Pow2(sh) == 2 * (m * Pow2(sh - 1));
  }

  // ---- the whole operation ----

  datatype Outcome = PropagateNaN | Invalid | ReturnA | Pack(sign: bool, exp: int, sig: U128)

  /** The magnitude, relative to the sign of a, of the value handed to softfloat_normRoundPackToF128:
      a significand s at exponent e stands for s * 2^(e + 1). */
  function ResultMag(a: U128, z: Outcome): int
    requires z.Pack? ==> z.exp >= -113
  {
    if z.Pack? then (if z.sign == Sign(a) then Val(z.sig) else -Val(z.sig)) * Pow2(z.exp + 113) else Mag(a)
  }

  method F128Rem(a: U128, b: U128) returns (z: Outcome)
    ensures z.PropagateNaN? <==> IsNaN(a) || IsNaN(b)
    ensures z.Invalid? <==> !IsNaN(a) && !IsNaN(b) && (IsInf(a) || IsZero(b))
    ensures IsFinite(a) && IsInf(b) ==> z.ReturnA?
    ensures z.Pack? ==> z.exp >= -113
    ensures IsFinite(a) && IsFinite(b) && !IsZero(b) ==> IeeeRemainder(Mag(a), Mag(b), ResultMag(a, z))
    ensures z.Pack? && Val(z.sig) == 0 ==> z.sign == Sign(a)
  {
    if Exp(a) == 0x7FFF {
      if Val(Frac(a)) != 0 || (Exp(b) == 0x7FFF && Val(Frac(b)) != 0) { return PropagateNaN; }
      return Invalid;
    }
    if Exp(b) == 0x7FFF {
      if Val(Frac(b)) != 0 { return PropagateNaN; }
      return ReturnA;
    }
    if Exp(b) == 0 && Val(Frac(b)) == 0 { return Invalid; }
    var expB, sigB := NormalParts(b);
    if Exp(a) == 0 && Val(Frac(a)) == 0 {
      ZeroRemainder(a, b, expB, sigB);
      return ReturnA;
    }
    var expA, sigA := NormalParts(a);
    var expDiff := expA - expB;
    if expDiff < -1 {
      SmallRemainder(Val(sigA), expA, Val(sigB), expB);
      return ReturnA;
    }
    var rem;
    ghost var n;
    rem, n := RemCore(sigA, sigB, expDiff);
    var exp := if expDiff < 0 then expB - 1 else expB;
    ScaleResult(Val(sigA), expA, Val(sigB), expB, n, Signed(rem));
    var signRem := Sign(a);
    if Negative(rem) {
      signRem := !signRem;
      NegateRem(rem);
      rem := Sub128(U128(0, 0), rem);
    }
    z := Pack(signRem, exp - 1, rem);
  }

  lemma {:induction false} NegateRem(rem: U128)
    requires Negative(rem) && 2 * Abs(Signed(rem)) < 2 * P113
    ensures Val(Sub128(U128(0, 0), rem)) == -Signed(rem)
  {
    SignedSub(U128(0, 0), rem);
  }

  lemma {:induction false} ZeroRemainder(a: U128, b: U128, expB: int, sigB: U128)
    requires IsZero(a) && -111 <= expB && P112 <= Val(sigB) && Val(sigB) * Pow2(expB + 112) == Mag(b)
    ensures IeeeRemainder(Mag(a), Mag(b), Mag(a))
  {
    MulLeft(Val(sigB), 0, Pow2(expB + 112));
    assert NearestEven(0, Mag(b), 0);
  }

  /** With the exponent of a at least two below that of b, a is already nearest to zero. */
  lemma {:induction false} SmallRemainder(sigA: int, expA: int, sigB: int, expB: int)
    requires P112 <= sigA < P113 && P112 <= sigB < P113 && -111 <= expA && expA - expB < -1
    ensures IeeeRemainder(sigA * Pow2(expA + 112), sigB * Pow2(expB + 112), sigA * Pow2(expA + 112))
  {
    var ka := Pow2(expA + 112);
    Pow2Add(expA + 112, expB - expA);
    Pow2Monotone(2, expB - expA);
    var g := Pow2(expB - expA);
    MulSwap(sigB, g, ka); MulAssoc(sigB, ka, g);
    MulLeft(sigB, 4, g);
    assert NearestEven(sigA, sigB * g, 0);
    ScaleNearest(sigA, sigB * g, 0, ka);
  }

  lemma {:induction false} ScaleResult(sigA: int, expA: int, sigB: int, expB: int, n: int, r: int)
    requires -111 <= expA && -111 <= expB && -1 <= expA - expB
    requires var a := if expA < expB then sigA else sigA * Pow2(expA - expB);
             var b := if expA < expB then 2 * sigB else sigB;
             r == a - n * b && NearestEven(a, b, n)
    ensures var exp := if expA < expB then expB - 1 else expB;
            IeeeRemainder(sigA * Pow2(expA + 112), sigB * Pow2(expB + 112), r * Pow2(exp + 112))
  {
    if expA < expB {
      var k := Pow2(expA + 112);
      assert Pow2(expB + 112) == 2 * k;
      MulAssoc(sigB, 2, k);
      ScaleNearest(sigA, 2 * sigB, n, k);
    } else {
      var k := Pow2(expB + 112);
      Pow2Add(expA - expB, expB + 112);
      MulAssoc(sigA, Pow2(expA - expB), k);
      ScaleNearest(sigA * Pow2(expA - expB), sigB, n, k);
    }
  }
}
