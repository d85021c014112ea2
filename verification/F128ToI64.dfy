/** Truncating conversion of binary128 to a signed 64-bit integer: the two-word form
    f128_to_i64_r_minMag and the 32-bit-limb form f128M_to_i64_r_minMag. */
module F128ToI64 {
  import opened Words
  import opened RoundSpec
  import opened Limbs
  import F128Round
  import F128MRound

  const P49: int := 0x2_0000_0000_0000
  const P63: int := 0x8000_0000_0000_0000

  datatype Conversion = Conversion(value: int, invalid: bool, inexact: bool)

  // ---- the specification ----

  /** i64_fromNaN, i64_fromNegOverflow, i64_fromPosOverflow */
  function OutOfRange(u: u128): Conversion {
    Conversion(if IsNaN(u) then P63 - 1 else if SignOf(u) then -P63 else P63 - 1, true, false)
  }

  function InRange(n: int, sign: bool): bool { n < P63 || (sign && n == P63) }

  /** Truncation toward zero, or the invalid result when that does not fit. */
  function Truncated(u: u128, exact: bool): Conversion {
    if ExpOf(u) >= 0x403F then OutOfRange(u)
    else if ExpOf(u) < 0x3FFF then Conversion(0, false, exact && (ExpOf(u) != 0 || FracOf(u) != 0))
    else
      var n := (P112 + FracOf(u)) / LastBit(u);
      if InRange(n, SignOf(u)) then
        Conversion(if SignOf(u) then -n else n, false, exact && (P112 + FracOf(u)) % LastBit(u) != 0)
      else OutOfRange(u)
  }

  /** The specification against the number itself: a finite u has magnitude Mag(u) / Unit(). */
  lemma {:induction false} TruncatedIsTruncation(u: u128, exact: bool)
    requires ExpOf(u) != 0x7FFF
    ensures var n := Mag(u) / Unit(); var c := Truncated(u, exact);
            if InRange(n, SignOf(u))
            then c == Conversion(if SignOf(u) then -n else n, false, exact && Mag(u) % Unit() != 0)
            else c == OutOfRange(u)
  {
    Fields(u);
    if ExpOf(u) < 0x3FFF {
      if ExpOf(u) == 0 && FracOf(u) == 0 {
        DivModUnique(0, Unit(), 0, 0);
      } else {
        SmallMagnitude(u);
        DivModUnique(Mag(u), Unit(), 0, Mag(u));
      }
    } else if ExpOf(u) < 0x403F {
      var e := ExpOf(u);
      Pow2Divides(UNIT_EXP - e, UNIT_EXP);
      DivScale(P112 + FracOf(u), LastBit(u), Pow2(e));
    } else {
      TooLarge(u);
    }
  }

  /** Every input: the truncated number when it is a 64-bit one, with inexact raised if it was asked for and something
      was cut off; otherwise invalid is raised and inexact is not, and the answer is the least 64-bit number for a
      negative number and the greatest for a positive one and for a NaN. */
  lemma {:induction false} TruncatedMeans(u: u128, exact: bool)
    ensures Means(u, exact, Mag(u) / Unit(), Mag(u) % Unit() != 0, Truncated(u, exact))
  {
    if ExpOf(u) != 0x7FFF {
      TruncatedIsTruncation(u, exact);
      MagSign(u);
      MeansWhat(u, exact, Mag(u) / Unit(), Mag(u) % Unit() != 0);
    }
  }

  lemma {:induction false} MagSign(u: u128)
    ensures Mag(u) / Unit() >= 0
  {
    Fields(u);
    QuotientSign(Sig(u), Pow2(SigExp(u)), Unit());
  }

  lemma {:induction false} QuotientSign(s: int, p: int, d: int)
    requires 0 <= s && 0 < p && 0 < d
    ensures (s * p) / d >= 0
  {
    var n := s * p;
    assert n >= 0;
    assert n / d >= 0;
  }

  /** m is the integer part of the magnitude, cut whether something follows it. */
  predicate Means(u: u128, exact: bool, m: int, cut: bool, c: Conversion) {
    var n := if SignOf(u) then -m else m;
    if ExpOf(u) != 0x7FFF && -0x8000_0000_0000_0000 <= n <= 0x7FFF_FFFF_FFFF_FFFF
    then c.value == n && !c.invalid && (c.inexact <==> exact && cut)
    else
      && c.invalid && !c.inexact
      && c.value == if SignOf(u) && (ExpOf(u) != 0x7FFF || FracOf(u) == 0)
                    then -0x8000_0000_0000_0000 else 0x7FFF_FFFF_FFFF_FFFF
  }

  lemma {:induction false} MeansWhat(u: u128, exact: bool, m: int, cut: bool)
    requires m >= 0 && ExpOf(u) != 0x7FFF
    ensures var c := if InRange(m, SignOf(u)) then Conversion(if SignOf(u) then -m else m, false, exact && cut)
                     else OutOfRange(u);
            Means(u, exact, m, cut, c)
  {}

  lemma {:induction false} DivScale(n: int, d: int, k: int)
    requires 0 < d && 0 < k
    ensures (n * k) / (d * k) == n / d && ((n * k) % (d * k) != 0 <==> n % d != 0)
  {
    var q, r := n / d, n % d;
    Distribute(q * d, r, k); MulAssoc(q, d, k);
    MulLeft(k, 0, r); MulLeft(k, r, d - 1);
    Distribute(d, -1, k);
    DivModUnique(n * k, d * k, q, r * k);
    if r > 0 { MulLeft(k, 1, r); }
  }

  lemma {:induction false} TooLarge(u: u128)
    requires 0x403F <= ExpOf(u) < 0x7FFF
    ensures Mag(u) / Unit() > P63
  {
    Fields(u);
    Pow2Of112(); Pow2Values();
    var e := ExpOf(u);
    var k := Pow2(UNIT_EXP - FRAC_BITS);
    Pow2Divides(FRAC_BITS, UNIT_EXP);
    Pow2Divides(UNIT_EXP - FRAC_BITS, e);
    Pow2Monotone(64, e - (UNIT_EXP - FRAC_BITS));
    AboveUnit(P112 + FracOf(u), k, Pow2(e - (UNIT_EXP - FRAC_BITS)));
  }

  lemma {:induction false} AboveUnit(sig: int, k: int, g: int)
    requires P112 <= sig && 0 < k && W64 <= g
    ensures (sig * (k * g)) / (P112 * k) >= W64
  {
    var n, d := sig * (k * g), P112 * k;
    assert n == (sig * g) * k by { MulAssoc(sig, g, k); }
    MulLeft(sig, W64, g); MulLeft(W64, P112, sig);
    MulLeft(k, W64 * P112, sig * g);
    assert n >= W64 * d;
    assert n == (n / d) * d + n % d;
    if n / d < W64 { MulLeft(d, n / d + 1, W64); Distribute(n / d, 1, d); }
  }

  // ---- the two-word form ----

  lemma {:induction false} HighQuotient(v64: int, v0: int, d: int)
    requires 0 < d && 0 <= v0 < W64
    ensures (v64 * W64 + v0) / (d * W64) == v64 / d
    ensures (v64 * W64 + v0) % (d * W64) != 0 <==> v0 != 0 || (v64 / d) * d != v64
  {
    F128Round.HighPart(v64, v0, d);
    assert v64 == (v64 / d) * d + v64 % d;
  }

  /** `sig64<<k | sig0>>(64-k)` with c = 2^k and d = 2^(64-k) */
  lemma {:induction false} LowQuotient(v64: int, v0: int, d: int, c: int)
    requires 0 < d && c * d == W64 && 0 <= v0 < W64 && 0 < c
    ensures (v64 * W64 + v0) / d == v64 * c + v0 / d
    ensures (v64 * W64 + v0) % d != 0 <==> (v0 * c) % W64 != 0
  {
    F128Round.LowPart(v64, v0, d, c);
    ShiftOne(v0, c, d);
    var xt := v0 / d;
    assert v0 == xt * d + v0 % d;
    assert v0 * c == xt * W64 + (v0 % d) * c by { MulAssoc(xt, d, c); Distribute(xt * d, v0 % d, c); }
    MulLeft(c, 0, v0 % d);
    if v0 % d > 0 { MulLeft(c, 1, v0 % d); }
  }

  method ToI64(a: U128, exact: bool) returns (r: Conversion)
    ensures r == Truncated(F128Round.Code(a), exact)
  {
    F128Round.FieldsOfWords(a);
    ghost var u := F128Round.Code(a);
    var sign := a.v64 >= P63;
    var exp := (a.v64 / F128Round.P48) % 0x8000;
    var sig64 := a.v64 % F128Round.P48;
    var shiftDist := 0x402F - exp;
    if shiftDist < 0 {
      if shiftDist < -14 {
        if exp == 0x403E { TopCase(a); }
        if a.v64 == 0xC03E_0000_0000_0000 && a.v0 < P49 {
          return Conversion(-P63, false, exact && a.v0 != 0);
        }
        var nan := exp == 0x7FFF && (sig64 != 0 || a.v0 != 0);
        return Conversion(if nan then P63 - 1 else if sign then -P63 else P63 - 1, true, false);
      }
      r := ShiftedLeft(a, exp, sig64 + F128Round.P48, sign, exact);
    } else {
      if 49 <= shiftDist {
        return Conversion(0, false, exact && (exp != 0 || sig64 != 0 || a.v0 != 0));
      }
      r := ShiftedRight(a, exp, sig64 + F128Round.P48, sign, exact);
    }
  }

  method ShiftedLeft(a: U128, exp: int, sig64: int, sign: bool, exact: bool) returns (r: Conversion)
    requires exp == ExpOf(F128Round.Code(a)) && 0x4030 <= exp <= 0x403D
    requires sig64 == a.v64 % F128Round.P48 + F128Round.P48 && sign == SignOf(F128Round.Code(a))
    ensures r == Truncated(F128Round.Code(a), exact)
  {
    F128Round.FieldsOfWords(a);
    var k := exp - 0x402F;
    var c := Pow2(k);
    ghost var d := Pow2(64 - k);
    F128Round.WordSplit(64 - k);
    assert UNIT_EXP - exp == 64 - k;
    LowQuotient(sig64, a.v0, d, c);
    var absZ := sig64 * c + a.v0 / Pow2(64 - k);
    FitsBelow(sig64, a.v0, c, d, k);
    r := Conversion(if sign then -absZ else absZ, false, exact && (a.v0 * c) % W64 != 0);
  }

  lemma {:induction false} FitsBelow(sig64: int, v0: int, c: int, d: int, k: nat)
    requires 0 <= sig64 < P49 && 0 <= v0 < W64 && 1 <= k <= 14 && c == Pow2(k) && 0 < d && c * d == W64
    ensures sig64 * c + v0 / d < P63
  {
    Pow2Monotone(k, 14);
    assert Pow2(14) == 0x4000;
    ShiftOne(v0, c, d);
    MulLeft(c, sig64, P49 - 1);
    assert (P49 - 1) * c == P49 * c - c;
  }

  method ShiftedRight(a: U128, exp: int, sig64: int, sign: bool, exact: bool) returns (r: Conversion)
    requires exp == ExpOf(F128Round.Code(a)) && 0x3FFF <= exp <= 0x402F
    requires sig64 == a.v64 % F128Round.P48 + F128Round.P48 && sign == SignOf(F128Round.Code(a))
    ensures r == Truncated(F128Round.Code(a), exact)
  {
    F128Round.FieldsOfWords(a);
    var shiftDist := 0x402F - exp;
    var d := Pow2(shiftDist);
    ShiftByWord(shiftDist, exp);
    HighQuotient(sig64, a.v0, d);
    var absZ := sig64 / d;
    QuotientBelow(sig64, d);
    r := Conversion(if sign then -absZ else absZ, false, exact && (a.v0 != 0 || absZ * d != sig64));
  }

  lemma {:induction false} ShiftByWord(shiftDist: nat, exp: int)
    requires shiftDist == 0x402F - exp
    ensures Pow2(UNIT_EXP - exp) == Pow2(shiftDist) * W64
  {
    Pow2Add(shiftDist, 64); Pow2Values();
  }

  lemma {:induction false} QuotientBelow(x: int, d: int)
    requires 0 <= x && 1 <= d
    ensures 0 <= x / d <= x
  {
    assert x == (x / d) * d + x % d;
    if x / d < 0 { MulLeft(d, x / d, -1); }
    MulLeft(x / d, 1, d);
  }

  /** At exponent 0x403E the integer is at least 2^63, and is 2^63 exactly when the top 63 fraction bits are zero. */
  lemma {:induction false} TopCase(a: U128)
    requires ExpOf(F128Round.Code(a)) == 0x403E
    ensures a.v64 == 0xC03E_0000_0000_0000 <==> SignOf(F128Round.Code(a)) && a.v64 % F128Round.P48 == 0
    ensures var u := F128Round.Code(a); var n := (P112 + FracOf(u)) / LastBit(u);
            n >= P63 && (n == P63 <==> a.v64 % F128Round.P48 == 0 && a.v0 < P49)
    ensures var u := F128Round.Code(a);
            (P112 + FracOf(u)) % LastBit(u) != 0 <==> a.v0 % P49 != 0
  {
    F128Round.FieldsOfWords(a);
    Pow2Of49();
    var f := (a.v64 % F128Round.P48) * W64 + a.v0;
    DivModUnique(P112 + f, P49, P63 + f / P49, f % P49);
    DivModUnique(f, P49, (a.v64 % F128Round.P48) * 0x8000 + a.v0 / P49, a.v0 % P49);
    var q := a.v64 / F128Round.P48;
    assert q == 0xC03E || q == 0x403E;
  }

  const P49_BITS: nat := 49

  lemma {:induction false} Pow2Of49()
    ensures Pow2(P49_BITS) == P49 && UNIT_EXP - 0x403E == P49_BITS
  {
    Pow2Values();
    assert Pow2(17) == 0x2_0000;
    Pow2Add(32, 17);
  }

  // ---- the limb form ----

  /** The value computed by softfloat_shiftRightJam128M: what is shifted out is or-ed into bit 0. */
  function ShiftRightJam(s: int, p: int): int
    requires 0 < p
  {
    var q := s / p;
    if s % p != 0 && q % 2 == 0 then q + 1 else q
  }

  /** The jammed bit stays inside the low word, so the words above hold the quotient by p * 2^32 and the
      low word is zero exactly when nothing was lost. */
  lemma {:induction false} JamSplits(s: int, p: int)
    requires 0 <= s && 0 < p
    ensures ShiftRightJam(s, p) / W32 == s / (p * W32)
    ensures ShiftRightJam(s, p) % W32 != 0 <==> s % (p * W32) != 0
    ensures 0 <= ShiftRightJam(s, p)
  {
    var q, r := s / p, s % p;
    assert s == q * p + r;
    QuotientBelow(s, p);
    var t, l := q / W32, q % W32;
    assert q == t * W32 + l;
    MulLeft(p, l, W32 - 1); MulLeft(p, 0, l);
    JamRejoins(t, l, p);
    assert (W32 - 1) * p == p * W32 - p;
    DivModUnique(s, p * W32, t, l * p + r);
    if l > 0 { MulLeft(p, 1, l); }
    JamInWord(t, l, r != 0);
  }

  lemma {:induction false} JamRejoins(t: int, l: int, p: int)
    ensures (t * W32 + l) * p == t * (p * W32) + l * p
  {
    MulAssoc(t, W32, p); MulSwap(t, W32, p); MulAssoc(t, p, W32);
    Distribute(t * W32, l, p);
  }

  lemma {:induction false} JamInWord(t: int, l: int, lost: bool)
    requires 0 <= t && 0 <= l < W32
    ensures var q := t * W32 + l;
            var j := if lost && q % 2 == 0 then q + 1 else q;
            j / W32 == t && (j % W32 != 0 <==> l != 0 || lost) && 0 <= j
  {
    var q := t * W32 + l;
    var j := if lost && q % 2 == 0 then q + 1 else q;
    assert q % 2 == l % 2;
    DivModUnique(j, W32, t, j - t * W32);
  }

  method MToI64(a: array<u32>, exact: bool) returns (r: Conversion)
    requires a.Length == 4
    ensures r == Truncated(F128MRound.Code(a), exact)
  {
    F128MRound.FieldsOfWords(a[..]);
    ghost var u := F128MRound.Code(a);
    var sign := a[3] >= 0x8000_0000;
    var exp := (a[3] / W16) % 0x8000;
    var frac := a[0] + W32 * a[1] + W64 * a[2] + W64 * W32 * (a[3] % W16);
    FracOfLimbs(a[..], frac);
    if 0x403E - exp < 0 {
      r := InvalidResult(exp, frac, sign, u);
    } else if exact {
      r := ExactLimbs(exp, frac, sign, u);
    } else {
      r := PlainLimbs(a, exp, frac, sign, u);
    }
  }

  /** f128M_to_i64_r_minMag.c:78-91: sig[] with the hidden bit, shifted right by shiftDist + 17. */
  method ExactLimbs(exp: int, frac: int, sign: bool, ghost u: u128) returns (r: Conversion)
    requires exp == ExpOf(u) && frac == FracOf(u) && sign == SignOf(u) && 0 <= exp <= 0x403E
    ensures r == Truncated(u, true)
  {
    var shiftDist := 0x403E - exp;
    var sig := if exp != 0 then P112 + frac else frac;
    var jammed := ShiftRightJam(sig, Pow2(shiftDist + 17));
    JamSplits(sig, Pow2(shiftDist + 17));
    JamWeight(shiftDist);
    WordOf(jammed / W32, sig, shiftDist);
    var uiZ := (jammed / W32) % W64;
    if exp < 0x3FFF { SmallQuotient(sig, exp); } else { SameExponent(exp, shiftDist); }
    if uiZ >= P63 && (!sign || uiZ != P63) {
      r := InvalidResult(exp, frac, sign, u);
    } else {
      r := Conversion(if sign then -uiZ else uiZ, false, jammed % W32 != 0);
    }
  }

  lemma {:induction false} SameExponent(exp: int, shiftDist: int)
    requires shiftDist == 0x403E - exp && 0x3FFF <= exp <= 0x403E
    ensures Pow2(UNIT_EXP - exp) == Pow2(shiftDist + 49)
  {}

  /** f128M_to_i64_r_minMag.c:93-104 */
  method PlainLimbs(a: array<u32>, exp: int, frac: int, sign: bool, ghost u: u128) returns (r: Conversion)
    requires a.Length == 4 && frac == a[0] + W32 * a[1] + W64 * a[2] + W64 * W32 * (a[3] % W16)
    requires exp == ExpOf(u) && frac == FracOf(u) && sign == SignOf(u) && 0 <= exp <= 0x403E
    ensures r == Truncated(u, false)
  {
    var shiftDist := 0x403E - exp;
    if 64 <= shiftDist { return Conversion(0, false, false); }
    var w3: int, w2: int, w1: int := a[3], a[2], a[1];
    var uiZ := (w3 % W16) * 0x8000_0000_0000 + w2 * 0x8000 + w1 / 0x2_0000;
    DivModUnique(frac, P49, uiZ, (a[1] % 0x2_0000) * W32 + a[0]);
    Quotient49(frac, exp);
    if shiftDist != 0 {
      uiZ := (uiZ + P63) / Pow2(shiftDist);
    } else {
      if uiZ != 0 || !sign {
        r := InvalidResult(exp, frac, sign, u);
        return;
      }
      uiZ := uiZ + P63;
    }
    r := Conversion(if sign then -uiZ else uiZ, false, false);
  }

  method InvalidResult(exp: int, frac: int, sign: bool, ghost u: u128) returns (r: Conversion)
    requires exp == ExpOf(u) && frac == FracOf(u) && sign == SignOf(u)
    ensures r == OutOfRange(u)
  {
    r := Conversion(if exp == 0x7FFF && frac != 0 then P63 - 1 else if sign then -P63 else P63 - 1, true, false);
  }

  lemma {:induction false} FracOfLimbs(s: seq<u32>, frac: int)
    requires |s| == 4 && frac == s[0] + W32 * s[1] + W64 * s[2] + W64 * W32 * (s[3] % W16)
    ensures 0 <= V(s) < W128 && FracOf(V(s)) == frac && 0 <= frac < P112
  {
    F128MRound.FourWords(s);
    DivModUnique(V(s), P112, s[3] / W16, frac);
  }

  lemma {:induction false} JamWeight(shiftDist: nat)
    ensures Pow2(shiftDist + 17) * W32 == Pow2(shiftDist + 49)
    ensures Pow2(shiftDist + 49) == P49 * Pow2(shiftDist)
  {
    Pow2Of49(); Pow2Values();
    Pow2Add(shiftDist + 17, 32);
    Pow2Add(P49_BITS, shiftDist);
  }

  /** For exponents in range the integer part is the top bits shifted by the remaining distance. */
  lemma {:induction false} Quotient49(frac: int, exp: int)
    requires 0 <= frac < P112 && exp <= 0x403E
    ensures exp >= 0x3FFF ==> (P112 + frac) / Pow2(UNIT_EXP - exp) == (P63 + frac / P49) / Pow2(0x403E - exp)
    ensures exp == 0x403E ==> Pow2(0x403E - exp) == 1
    ensures 0 <= frac / P49 < P63
    ensures exp < 0x403E ==> (P63 + frac / P49) / Pow2(0x403E - exp) < P63
  {
    DivModUnique(P112 + frac, P49, P63 + frac / P49, frac % P49);
    JamWeight(0x403E - exp);
    NestedDiv(P112 + frac, P49, Pow2(0x403E - exp));
    if exp < 0x403E {
      var d := Pow2(0x403E - exp);
      assert d == 2 * Pow2(0x403E - exp - 1);
      HalfOrLess(P63 + frac / P49, d);
    }
  }

  lemma {:induction false} HalfOrLess(x: int, d: int)
    requires 0 <= x < 2 * P63 && 2 <= d
    ensures x / d < P63
  {
    var q := x / d;
    assert x == q * d + x % d;
    if q >= P63 { MulLeft(q, 2, d); }
  }

  lemma {:induction false} NestedDiv(n: int, p: int, d: int)
    requires 0 <= n && 0 < p && 0 < d
    ensures n / (p * d) == (n / p) / d
  {
    var q := n / p;
    var t, l := q / d, q % d;
    assert n == q * p + n % p && q == t * d + l;
    MulLeft(p, l, d - 1); MulLeft(p, 0, l);
    assert n == t * (p * d) + (l * p + n % p) by {
      MulAssoc(t, d, p); MulSwap(t, d, p); MulAssoc(t, p, d);
      Distribute(t * d, l, p);
    }
    Distribute(d, -1, p);
    DivModUnique(n, p * d, t, l * p + n % p);
  }

  lemma {:induction false} SmallQuotient(sig: int, exp: int)
    requires 0 <= sig < P113 && 0 <= exp < 0x3FFF
    ensures sig / Pow2(0x403E - exp + 49) == 0 && sig % Pow2(0x403E - exp + 49) == sig
  {
    Pow2Of112();
    Pow2Monotone(FRAC_BITS + 1, 0x403E - exp + 49);
    DivModUnique(sig, Pow2(0x403E - exp + 49), 0, sig);
  }

  /** The two middle words hold the whole quotient. */
  lemma {:induction false} WordOf(n: int, sig: int, shiftDist: nat)
    requires 0 <= sig < P113 && n == sig / Pow2(shiftDist + 49)
    ensures n % W64 == n && 0 <= n < W64
  {
    JamWeight(shiftDist);
    MulLeft(P49, 1, Pow2(shiftDist));
    var d := Pow2(shiftDist + 49);
    QuotientBelow(sig, d);
    assert sig == n * d + sig % d;
    if n >= W64 { MulLeft(n, P49, d); }
  }
}
