/** What rounding a binary128 number to an integral value means, first on the 128-bit encoding and
    then as arithmetic on the number (section 5.9 of IEEE 754-2008). */
module RoundSpec {
  import opened Words

  const P112: int := 0x1_0000_0000_0000_0000_0000_0000_0000
  const P113: int := 0x2_0000_0000_0000_0000_0000_0000_0000
  const P127: int := 0x8000_0000_0000_0000_0000_0000_0000_0000

  const FRAC_BITS: nat := 112
  const UNIT_EXP: nat := 0x406F

  // softfloat_round_*; every other code truncates, since SOFTFLOAT_ROUND_ODD is not configured
  const NEAR_EVEN: int := 0
  const MIN: int := 2
  const MAX: int := 3
  const NEAR_MAX_MAG: int := 4

  type u128 = x: int | 0 <= x < 0x1_0000_0000_0000_0000_0000_0000_0000_0000

  function SignOf(u: u128): bool { u >= P127 }
  function ExpOf(u: u128): int { (u / P112) % 0x8000 }
  function FracOf(u: u128): int { u % P112 }
  function SignBit(u: u128): int { if SignOf(u) then P127 else 0 }
  predicate IsNaN(u: u128) { ExpOf(u) == 0x7FFF && FracOf(u) != 0 }

  lemma {:induction false} Fields(u: u128)
    ensures u == SignBit(u) + ExpOf(u) * P112 + FracOf(u) && 0 <= ExpOf(u) < 0x8000 && 0 <= FracOf(u) < P112
  {
    var q := u / P112;
    assert u == q * P112 + FracOf(u);
    assert q < 0x1_0000;
    assert SignOf(u) <==> q >= 0x8000;
    if q >= 0x8000 { DivModUnique(q, 0x8000, 1, q - 0x8000); } else { DivModUnique(q, 0x8000, 0, q); }
  }

  /** Whether a magnitude n / d with remainder low is rounded up to the next integer n / d + 1. */
  predicate RoundsUp(low: int, d: int, odd: bool, mode: int, sign: bool) {
    if mode == NEAR_EVEN then 2 * low > d || (2 * low == d && odd)
    else if mode == NEAR_MAX_MAG then 2 * low >= d
    else if mode == MIN then sign && low > 0
    else if mode == MAX then !sign && low > 0
    else false
  }

  /** The rational magnitude n / d rounded to an integer. */
  function RoundDiv(n: int, d: int, mode: int, sign: bool): int
    requires d > 0
  {
    n / d + (if RoundsUp(n % d, d, (n / d) % 2 == 1, mode, sign) then 1 else 0)
  }

  // ---- on encodings ----

  datatype Rounded = Rounded(z: u128, inexact: bool)

  /** Round away the low bits of the encoding, whose last kept bit weighs d; a carry runs into the exponent. */
  function RoundEnc(u: int, d: int, mode: int, sign: bool): int
    requires d > 0
  {
    RoundDiv(u, d, mode, sign) * d
  }

  /** A magnitude below one becomes zero or one, with the sign kept. */
  function RoundSmall(u: u128, mode: int): int {
    var one := RoundsUp(if ExpOf(u) < 0x3FFE then 1 else if FracOf(u) == 0 then 2 else 3, 4, false, mode, SignOf(u));
    SignBit(u) + (if one then 0x3FFF * P112 else 0)
  }

  /** The last kept bit of a number with 0x3FFF <= exponent < 0x406F. */
  function LastBit(u: u128): int
    requires 0x3FFF <= ExpOf(u) < 0x406F
  {
    Pow2(UNIT_EXP - ExpOf(u))
  }

  function RoundBits(u: u128, mode: int): (r: Rounded)
    requires !IsNaN(u)
  {
    if ExpOf(u) >= 0x406F then Rounded(u, false)
    else if ExpOf(u) < 0x3FFF then
      if ExpOf(u) == 0 && FracOf(u) == 0 then Rounded(u, false) else Rounded(RoundSmall(u, mode), true)
    else
      EncInRange(u, mode);
      Rounded(RoundEnc(u, LastBit(u), mode, SignOf(u)), u % LastBit(u) != 0)
  }

  lemma {:induction false} Pow2Divides(p: nat, n: nat)
    requires p <= n
    ensures Pow2(n) == Pow2(p) * Pow2(n - p)
  {
    Pow2Add(p, n - p);
  }

  lemma {:induction false} Pow2Of112()
    ensures Pow2(FRAC_BITS) == P112 && Pow2(FRAC_BITS + 1) == P113
  {
    Pow2Values(); Pow2Add(64, 48); Pow2Add(32, 16);
    assert Pow2(FRAC_BITS + 1) == 2 * Pow2(FRAC_BITS);
  }

  lemma {:induction false} EvenMultiple(k: int, d: int, g: int, sig: int)
    requires 0 < d && g * d == P112 && (k * g) % 2 == 0 && 0 <= sig
    ensures (k * P112 + sig) % d == sig % d
    ensures (k * P112 + sig) / d == k * g + sig / d && ((k * P112 + sig) / d) % 2 == (sig / d) % 2
    ensures ((k * P112 + sig) / d - sig / d) * d == k * P112
  {
    MulAssoc(k, g, d);
    assert k * P112 + sig == (k * g + sig / d) * d + sig % d;
    DivModUnique(k * P112 + sig, d, k * g + sig / d, sig % d);
    ModOffset(sig / d, 2, (k * g) / 2);
  }

  /** Everything above the significand weighs an even number of last bits, so it does not disturb the rounding. */
  lemma {:induction false} EncSplit(u: u128)
    requires 0x3FFF <= ExpOf(u) < 0x406F
    ensures var d := LastBit(u); var sig := P112 + FracOf(u); var h := SignBit(u) + (ExpOf(u) - 1) * P112;
            u == h + sig && u % d == sig % d && (u / d - sig / d) * d == h && (u / d) % 2 == (sig / d) % 2
  {
    var k := FieldsAbove(u);
    EvenAbove(UNIT_EXP - ExpOf(u), k);
    EvenMultiple(k, LastBit(u), Pow2(FRAC_BITS - (UNIT_EXP - ExpOf(u))), P112 + FracOf(u));
  }

  lemma {:induction false} FieldsAbove(u: u128) returns (k: int)
    requires 0x3FFF <= ExpOf(u) < 0x406F
    ensures k * P112 == SignBit(u) + (ExpOf(u) - 1) * P112 && u == k * P112 + (P112 + FracOf(u))
    ensures ExpOf(u) == 0x3FFF ==> k % 2 == 0
  {
    Fields(u);
    k := (if SignOf(u) then 0x8000 else 0) + (ExpOf(u) - 1);
  }

  lemma {:induction false} EvenAbove(p: nat, k: int)
    requires 1 <= p <= FRAC_BITS && (p == FRAC_BITS ==> k % 2 == 0)
    ensures Pow2(FRAC_BITS - p) * Pow2(p) == P112 && (k * Pow2(FRAC_BITS - p)) % 2 == 0
  {
    Pow2Of112();
    Pow2Divides(p, FRAC_BITS);
    if p < FRAC_BITS { EvenProduct(k, Pow2(FRAC_BITS - p - 1)); }
  }

  lemma {:induction false} EvenProduct(k: int, x: int)
    ensures (k * (2 * x)) % 2 == 0
  {
    assert k * (2 * x) == 2 * (k * x);
  }

  /** The rounded significand lies in [2^112, 2^113], so the carry at most bumps the exponent by one. */
  lemma {:induction false} EncRounded(u: u128, mode: int)
    requires 0x3FFF <= ExpOf(u) < 0x406F
    ensures var d := LastBit(u); var sig := P112 + FracOf(u);
            var s := RoundDiv(sig, d, mode, SignOf(u)) * d;
            P112 <= s <= P113 && RoundEnc(u, d, mode, SignOf(u)) == SignBit(u) + (ExpOf(u) - 1) * P112 + s
  {
    var d, sig := LastBit(u), P112 + FracOf(u);
    assert P112 <= sig < P113;
    var g, g2 := FracMultiples(UNIT_EXP - ExpOf(u));
    RoundedInside(d, g, g2, sig, mode, SignOf(u));
    EncSplit(u);
    RoundShifted(u, sig, d, mode, SignOf(u));
  }

  lemma {:induction false} FracMultiples(p: nat) returns (g: int, g2: int)
    requires p <= FRAC_BITS
    ensures g * Pow2(p) == P112 && g2 * Pow2(p) == P113
  {
    Pow2Of112(); Pow2Divides(p, FRAC_BITS);
    g := Pow2(FRAC_BITS - p);
    g2 := 2 * g;
    MulAssoc(2, g, Pow2(p));
  }

  lemma {:induction false} RoundedInside(d: int, g: int, g2: int, sig: int, mode: int, sign: bool)
    requires 0 < d && g * d == P112 && g2 * d == P113 && P112 <= sig < P113
    ensures P112 <= RoundDiv(sig, d, mode, sign) * d <= P113
  {
    RoundInside(sig, d, RoundDiv(sig, d, mode, sign), g, g2);
  }

  lemma {:induction false} RoundShifted(u: int, sig: int, d: int, mode: int, sign: bool)
    requires 0 < d && u % d == sig % d && (u / d) % 2 == (sig / d) % 2
    ensures RoundDiv(u, d, mode, sign) * d == (u / d - sig / d) * d + RoundDiv(sig, d, mode, sign) * d
  {
    assert RoundDiv(u, d, mode, sign) == (u / d - sig / d) + RoundDiv(sig, d, mode, sign);
    Distribute(u / d - sig / d, RoundDiv(sig, d, mode, sign), d);
  }

  lemma {:induction false} Distribute(x: int, y: int, d: int)
    ensures (x + y) * d == x * d + y * d
  {}

  lemma {:induction false} RoundInside(sig: int, d: int, m: int, g: int, g2: int)
    requires 0 < d && g * d == P112 && g2 * d == P113 && P112 <= sig < P113
    requires m == sig / d || m == sig / d + 1
    ensures P112 <= m * d <= P113
  {
    QuotientInside(sig, d, g, g2);
    MulLeft(d, g, m); MulLeft(d, m, g2);
  }

  lemma {:induction false} QuotientInside(sig: int, d: int, g: int, g2: int)
    requires 0 < d && g * d == P112 && g2 * d == P113 && P112 <= sig < P113
    ensures g <= sig / d < g2
  {
    var q := sig / d;
    assert sig == q * d + sig % d;
    if q < g { MulLeft(d, q + 1, g); Distribute(q, 1, d); }
    if q >= g2 { MulLeft(d, g2, q); }
  }

  lemma {:induction false} EncInRange(u: u128, mode: int)
    requires 0x3FFF <= ExpOf(u) < 0x406F
    ensures 0 <= RoundEnc(u, LastBit(u), mode, SignOf(u)) < W128
  {
    EncRounded(u, mode);
  }

  // ---- what each masking sequence computes, on whole integers ----

  lemma {:induction false} NearMatches(u: int, d: int, h: int, sign: bool)
    requires 0 < h && d == 2 * h
    ensures RoundEnc(u, d, NEAR_MAX_MAG, sign) == (u + h) - (u + h) % d
    ensures RoundEnc(u, d, NEAR_EVEN, sign) ==
            if (u + h) % d == 0 && ((u + h) / d) % 2 == 1 then u + h - d else (u + h) - (u + h) % d
  {
    var q, r := u / d, u % d;
    var c := if r >= h then 1 else 0;
    assert u == q * d + r;
    assert (q + c) * d == q * d + c * d;
    DivModUnique(u + h, d, q + c, r + h - c * d);
    if (u + h) % d == 0 { assert r == h && (q + 1) * d == u + h; }
  }

  lemma {:induction false} UpMatches(u: int, d: int, mode: int, sign: bool)
    requires 0 < d && mode == (if sign then MIN else MAX)
    ensures RoundEnc(u, d, mode, sign) == (u + d - 1) - (u + d - 1) % d
  {
    var q, r := u / d, u % d;
    var c := if r > 0 then 1 else 0;
    assert u == q * d + r;
    assert (q + c) * d == q * d + c * d;
    DivModUnique(u + d - 1, d, q + c, r + d - 1 - c * d);
  }

  lemma {:induction false} TruncMatches(u: int, d: int, mode: int, sign: bool)
    requires 0 < d && mode != NEAR_EVEN && mode != NEAR_MAX_MAG && mode != (if sign then MIN else MAX)
    ensures RoundEnc(u, d, mode, sign) == u - u % d
  {
    assert u == (u / d) * d + u % d;
  }

  /** Rounding changes the encoding exactly when there is something to round away. */
  lemma {:induction false} ChangedIffInexact(u: u128, mode: int)
    requires 0x3FFF <= ExpOf(u) < 0x406F
    ensures RoundBits(u, mode).z != u <==> RoundBits(u, mode).inexact
  {
    var d := LastBit(u);
    EncInRange(u, mode);
    var z := RoundEnc(u, d, mode, SignOf(u));
    DivModUnique(z, d, RoundDiv(u, d, mode, SignOf(u)), 0);
    assert u == (u / d) * d + u % d;
  }

  // ---- on numbers ----

  function Sig(u: u128): int { if ExpOf(u) == 0 then FracOf(u) else P112 + FracOf(u) }
  function SigExp(u: u128): nat { if ExpOf(u) == 0 then 1 else ExpOf(u) }

  /** The magnitude in units of 2^-16495; the integer one is UNIT of them. */
  function Mag(u: u128): int { Sig(u) * Pow2(SigExp(u)) }
  ghost function Unit(): int { Pow2(UNIT_EXP) }

  /** z is u rounded to an integral value: same sign, and a magnitude that is the rounded integer. */
  ghost predicate IsRounded(u: u128, mode: int, r: Rounded) {
    && SignOf(r.z) == SignOf(u)
    && Mag(r.z) == RoundDiv(Mag(u), Unit(), mode, SignOf(u)) * Unit()
    && (r.inexact <==> Mag(u) % Unit() != 0)
  }

  lemma {:induction false} RoundDivScale(n: int, d: int, k: int, mode: int, sign: bool)
    requires 0 < d && 0 < k
    ensures RoundDiv(n * k, d * k, mode, sign) == RoundDiv(n, d, mode, sign)
    ensures (n * k) % (d * k) == (n % d) * k
  {
    var q, r := n / d, n % d;
    Distribute(q * d, r, k); MulAssoc(q, d, k);
    MulLeft(k, 0, r); MulLeft(k, r, d - 1);
    Distribute(d, -1, k);
    DivModUnique(n * k, d * k, q, r * k);
    if r > 0 { MulLeft(r, 1, k); }
    CompareScaled(r, d, k);
  }

  lemma {:induction false} CompareScaled(r: int, d: int, k: int)
    requires 0 < k
    ensures 2 * (r * k) > d * k <==> 2 * r > d
    ensures 2 * (r * k) == d * k <==> 2 * r == d
    ensures 2 * (r * k) >= d * k <==> 2 * r >= d
  {
    var t := 2 * r - d;
    assert t * k == 2 * (r * k) - d * k;
    if t > 0 { MulLeft(k, 1, t); } else if t < 0 { MulLeft(k, t, -1); }
  }

  lemma {:induction false} Unbiased(h: int, e: int, s: int, z: u128, sign: bool)
    requires 1 <= e < 0x7FFE && P112 <= s <= P113 && h == (if sign then P127 else 0)
    requires z == h + (e - 1) * P112 + s
    ensures SignOf(z) == sign && Mag(z) == s * Pow2(e)
  {
    Fields(z);
    if s == P113 {
      assert z == h + (e + 1) * P112;
      FieldsUnique(z, h, e + 1, 0, sign);
      assert Pow2(e + 1) == 2 * Pow2(e);
      MulAssoc(P112, 2, Pow2(e));
    } else {
      FieldsUnique(z, h, e, s - P112, sign);
    }
  }

  lemma {:induction false} FieldsUnique(z: u128, h: int, e: int, f: int, sign: bool)
    requires 0 <= e < 0x8000 && 0 <= f < P112 && h == (if sign then P127 else 0) && z == h + e * P112 + f
    ensures SignOf(z) == sign && ExpOf(z) == e && FracOf(z) == f
  {
    var k := (if sign then 0x8000 else 0) + e;
    DivModUnique(z, P112, k, f);
    DivModUnique(k, 0x8000, if sign then 1 else 0, e);
  }

  /** The encoding-level rounding is the arithmetic rounding, for every finite number and every mode. */
  lemma {:induction false} RoundBitsIsRounding(u: u128, mode: int)
    requires ExpOf(u) != 0x7FFF
    ensures IsRounded(u, mode, RoundBits(u, mode))
  {
    Fields(u);
    if ExpOf(u) >= 0x406F {
      LargeIsIntegral(u, mode);
    } else if ExpOf(u) < 0x3FFF {
      SmallRounds(u, mode);
    } else {
      MiddleRounds(u, mode);
    }
  }

  /** An infinity, of either sign, is an integral value already, and so is a zero: it comes back unchanged and exact. */
  lemma {:induction false} InfinityAndZeroStay(u: u128, mode: int)
    requires (ExpOf(u) == 0x7FFF || ExpOf(u) == 0) && FracOf(u) == 0
    ensures !IsNaN(u) && RoundBits(u, mode).z == u && !RoundBits(u, mode).inexact
  {}

  lemma {:induction false} LargeIsIntegral(u: u128, mode: int)
    requires 0x406F <= ExpOf(u) < 0x7FFF
    ensures IsRounded(u, mode, Rounded(u, false))
  {
    var n := Sig(u) * Pow2(ExpOf(u) - UNIT_EXP);
    Pow2Divides(UNIT_EXP, ExpOf(u));
    MulSwap(Sig(u), Pow2(ExpOf(u) - UNIT_EXP), Unit()); MulAssoc(Sig(u), Unit(), Pow2(ExpOf(u) - UNIT_EXP));
    assert Mag(u) == n * Unit();
    DivModUnique(Mag(u), Unit(), n, 0);
  }

  lemma {:induction false} MiddleRounds(u: u128, mode: int)
    requires 0x3FFF <= ExpOf(u) < 0x406F
    ensures IsRounded(u, mode, RoundBits(u, mode))
  {
    var e := ExpOf(u);
    var d, sig, k := LastBit(u), P112 + FracOf(u), Pow2(e);
    Pow2Divides(UNIT_EXP - e, UNIT_EXP);
    EncRounded(u, mode);
    EncInRange(u, mode);
    Unbiased(SignBit(u), e, RoundDiv(sig, d, mode, SignOf(u)) * d, RoundBits(u, mode).z, SignOf(u));
    MiddleScale(u, sig, d, k, mode);
  }

  lemma {:induction false} MiddleScale(u: u128, sig: int, d: int, k: int, mode: int)
    requires 0x3FFF <= ExpOf(u) < 0x406F && d == LastBit(u) && sig == P112 + FracOf(u) && 0 < k
    ensures (RoundDiv(sig, d, mode, SignOf(u)) * d) * k == RoundDiv(sig * k, d * k, mode, SignOf(u)) * (d * k)
    ensures u % d != 0 <==> (sig * k) % (d * k) != 0
  {
    EncSplit(u);
    RoundDivScale(sig, d, k, mode, SignOf(u));
    MulAssoc(RoundDiv(sig, d, mode, SignOf(u)), d, k);
    if sig % d != 0 { MulLeft(k, 1, sig % d); }
  }

  lemma {:induction false} SmallRounds(u: u128, mode: int)
    requires ExpOf(u) < 0x3FFF
    ensures IsRounded(u, mode, RoundBits(u, mode))
  {
    Fields(u);
    if ExpOf(u) == 0 && FracOf(u) == 0 {
      assert Mag(u) == 0;
      DivModUnique(0, Unit(), 0, 0);
    } else {
      SmallMagnitude(u);
      DivModUnique(Mag(u), Unit(), 0, Mag(u));
      SmallChoice(u, mode, Mag(u), Unit());
      var one := RoundDiv(Mag(u), Unit(), mode, SignOf(u)) == 1;
      SmallResult(u, RoundSmall(u, mode), one);
    }
  }

  lemma {:induction false} SmallChoice(u: u128, mode: int, m: int, unit: int)
    requires 0 < m < unit && m / unit == 0 && m % unit == m
    requires ExpOf(u) < 0x3FFF
    requires ExpOf(u) < 0x3FFE ==> 2 * m < unit
    requires ExpOf(u) == 0x3FFE && FracOf(u) == 0 ==> 2 * m == unit
    requires ExpOf(u) == 0x3FFE && FracOf(u) != 0 ==> 2 * m > unit
    ensures RoundDiv(m, unit, mode, SignOf(u)) == 0 || RoundDiv(m, unit, mode, SignOf(u)) == 1
    ensures RoundSmall(u, mode) == SignBit(u) + (if RoundDiv(m, unit, mode, SignOf(u)) == 1 then 0x3FFF * P112 else 0)
  {}

  lemma {:induction false} SmallResult(u: u128, z: u128, one: bool)
    requires z == SignBit(u) + (if one then 0x3FFF * P112 else 0)
    ensures SignOf(z) == SignOf(u) && Mag(z) == (if one then Unit() else 0)
  {
    FieldsUnique(z, SignBit(u), if one then 0x3FFF else 0, 0, SignOf(u));
    if one { OneIsUnit(); } else { assert Sig(z) == 0; }
  }

  lemma {:induction false} OneIsUnit()
    ensures P112 * Pow2(UNIT_EXP - FRAC_BITS) == Unit()
  {
    Pow2Of112(); Pow2Divides(FRAC_BITS, UNIT_EXP);
  }

  /** Where a magnitude below one lies relative to one half. */
  lemma {:induction false} SmallMagnitude(u: u128)
    requires ExpOf(u) < 0x3FFF && (ExpOf(u) != 0 || FracOf(u) != 0)
    ensures 0 < Mag(u) < Unit()
    ensures ExpOf(u) < 0x3FFE ==> 2 * Mag(u) < Unit()
    ensures ExpOf(u) == 0x3FFE && FracOf(u) == 0 ==> 2 * Mag(u) == Unit()
    ensures ExpOf(u) == 0x3FFE && FracOf(u) != 0 ==> 2 * Mag(u) > Unit()
  {
    Fields(u);
    var e := SigExp(u);
    UnitSplit(e);
    if e < 0x3FFE {
      BelowHalf(Sig(u), Pow2(e), Pow2(UNIT_EXP - e));
    } else {
      AroundHalf(FracOf(u), Pow2(e));
    }
  }

  lemma {:induction false} UnitSplit(e: nat)
    requires e <= 0x3FFE
    ensures Unit() == Pow2(e) * Pow2(UNIT_EXP - e)
    ensures if e < 0x3FFE then Pow2(UNIT_EXP - e) >= 2 * P113 else Pow2(UNIT_EXP - e) == P113
  {
    Pow2Of112();
    Pow2Divides(e, UNIT_EXP);
    if e < 0x3FFE {
      assert Pow2(FRAC_BITS + 2) == 2 * Pow2(FRAC_BITS + 1);
      Pow2Monotone(FRAC_BITS + 2, UNIT_EXP - e);
    }
  }

  lemma {:induction false} BelowHalf(sig: int, k: int, g: int)
    requires 0 < sig < P113 && 0 < k && 2 * P113 <= g
    ensures 0 < sig * k && 2 * (sig * k) < k * g
  {
    MulLeft(k, 1, sig); MulLeft(k, sig, P113 - 1); MulLeft(k, 2 * P113, g);
  }

  lemma {:induction false} AroundHalf(frac: int, k: int)
    requires 0 <= frac < P112 && 0 < k
    ensures 0 < (P112 + frac) * k < k * P113
    ensures 2 * ((P112 + frac) * k) == k * P113 + 2 * (frac * k)
    ensures frac == 0 ==> frac * k == 0
    ensures frac > 0 ==> frac * k > 0
  {
    assert (P112 + frac) * k == P112 * k + frac * k;
    MulLeft(k, 0, frac); MulLeft(k, frac, P112 - 1);
    if frac > 0 { MulLeft(k, 1, frac); }
  }
}
