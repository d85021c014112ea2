/** One base-2^29 digit of the estimate-and-correct recurrence shared by f128_rem and f128_div.
    x is the running remainder, b the significand of the divisor, r the reciprocal estimate of its
    top 32 bits; the digit is taken from the top 32 bits of x. */
module Digits {
  import opened Words
  import opened Recip
  import F128

  const P31: int := 0x8000_0000
  const P29: int := 0x2000_0000
  const P33: int := 0x2_0000_0000
  const P61: int := 0x2000_0000_0000_0000
  const P81: int := 0x2_0000_0000_0000_0000_0000
  const P83: int := 0x8_0000_0000_0000_0000_0000
  const P115: int := 0x8_0000_0000_0000_0000_0000_0000_0000
  const P116: int := 0x10_0000_0000_0000_0000_0000_0000_0000
  const P144: int := 0x1_0000_0000_0000_0000_0000_0000_0000_0000_0000

  /** The shortfall of the reciprocal: 2^63 - r * (top 32 bits of b). */
  function Short(r: int, b: int): int { P63 - r * (b / P81) }

  predicate Divisor(b: int, r: int) {
    && F128.P112 <= b < F128.P113 && 0 <= r < W32
    && 0 < Short(r, b) && 125 * Short(r, b) <= 251 * (b / P81)
  }

  /** The invariant of the recurrence: the remainder may exceed 2b, but only as far as the
      shortfall of the reciprocal pays for it. */
  predicate Reduced(x: int, b: int, r: int) {
    0 <= x < P115 && x * (r - Short(r, b)) <= P33 * b
  }

  lemma {:induction false} DivisorOk(b: int, r: int)
    requires F128.P112 <= b < F128.P113 && RecipOk(b / P81, r)
    ensures Divisor(b, r)
  {}

  lemma {:induction false} ReducedBelowTwice(x: int, b: int, r: int)
    requires Divisor(b, r) && 0 <= x <= 2 * b
    ensures x < P115 && Reduced(x, b, r)
  {
    var d := r - Short(r, b);
    if d > 0 {
      MulLeft(d, x, 2 * b);
      MulLeft(2 * b, d, W32);
    } else {
      MulLeft(x, d, 0);
    }
  }

  /** The estimate overshoots by at most one half of a unit ... */
  lemma {:induction false} EstimateUpper(x: int, b: int, r: int, t: int)
    requires Divisor(b, r) && Reduced(x, b, r) && t == x / P83
    ensures (t * r) * b <= P61 * x + P31 * b
    ensures t * r != 0 ==> (t * r) * b < P61 * x + P31 * b
  {
    var e := Short(r, b);
    MulLeft(t, 0, r);
    UpperProducts(x, b, r, t, b / P81, e);
    UpperScaled(x, b, t, r - e);
    UpperLinear(x, b, t, t * r, (t * r) * b, t * (r - e));
  }

  lemma {:induction false} UpperProducts(x: int, b: int, r: int, t: int, top: int, e: int)
    requires 0 <= t && 0 <= r && b <= P81 * (top + 1) - 1 && r * top == P63 - e
    ensures (t * r) * b <= P144 * t + P81 * (t * (r - e)) - t * r
  {
    MulLeft(r, b, P81 * (top + 1) - 1);
    assert r * (P81 * (top + 1) - 1) == P81 * (r * top) + P81 * r - r;
    MulLeft(t, r * b, P81 * (P63 + (r - e)) - r);
    assert t * (P81 * (P63 + (r - e)) - r) == P144 * t + P81 * (t * (r - e)) - t * r;
  }

  lemma {:induction false} UpperScaled(x: int, b: int, t: int, d: int)
    requires 0 <= t && P83 * t <= x && x * d <= P33 * b && 0 <= b
    ensures P83 * (t * d) <= P33 * b
  {
    if d > 0 {
      MulLeft(d, P83 * t, x);
      assert d * (P83 * t) == P83 * (t * d);
    } else {
      MulLeft(t, d, 0);
    }
  }

  lemma {:induction false} UpperLinear(x: int, b: int, t: int, tr: int, trb: int, td: int)
    requires trb <= P144 * t + P81 * td - tr && 0 <= tr && P83 * td <= P33 * b && P83 * t <= x
    ensures trb <= P61 * x + P31 * b && (tr != 0 ==> trb < P61 * x + P31 * b)
  {}

  /** ... and falls short by the truncation of x and the shortfall of the reciprocal. */
  lemma {:induction false} EstimateLower(x: int, b: int, r: int, t: int)
    requires Divisor(b, r) && 0 <= x && t == x / P83
    ensures 4 * (P61 * x - (t * r) * b) < 4 * P144 + x * Short(r, b)
  {
    var top := b / P81;
    var e := Short(r, b);
    MulLeft(r, P81 * top, b);
    assert r * (P81 * top) == P81 * (r * top);
    MulLeft(t, P81 * (P63 - e), r * b);
    assert t * (r * b) == (t * r) * b;
    assert t * (P81 * (P63 - e)) == P144 * t - P81 * (t * e);
    MulLeft(e, P83 * t, x);
    assert e * (P83 * t) == P83 * (t * e);
  }

  lemma {:induction false} ShortBound(x: int, b: int, r: int)
    requires Divisor(b, r) && 0 <= x < P115
    ensures x * Short(r, b) <= 3 * (W32 * P115)
  {
    MulLeft(x, Short(r, b), 3 * W32);
    MulLeft(3 * W32, x, P115);
  }

  function RoundedQ(t: int, r: int): int { (t * r + P31) / W32 }

  /** A rounded digit q leaves a remainder in (-b, 2^115); one conditional addition of b restores the invariant. */
  lemma {:induction false} RoundedDigit(x: int, b: int, r: int, t: int, q: int, v: int)
    requires Divisor(b, r) && Reduced(x, b, r) && t == x / P83 && q == RoundedQ(t, r) && v == P29 * x - q * b
    ensures -b < v < P115 && 0 <= q < W32 && (v < 0 ==> 1 <= q)
    ensures Reduced(if v < 0 then v + b else v, b, r)
  {
    EstimateUpper(x, b, r, t);
    EstimateLower(x, b, r, t);
    ShortBound(x, b, r);
    DigitRange(t, r, q);
    RoundedRemainder(x, b, x * Short(r, b), t * r, q);
    if v >= 0 {
      KeepsReduced(x, b, r, v);
    } else {
      ReducedBelowTwice(v + b, b, r);
      assert q == 0 ==> q * b == 0;
    }
  }

  lemma {:induction false} RoundedRemainder(x: int, b: int, xe: int, tr: int, q: int)
    requires 0 < b < F128.P113 && xe <= 3 * (W32 * P115) && 0 <= x && 0 <= tr && q == (tr + P31) / W32
    requires tr * b <= P61 * x + P31 * b && (tr != 0 ==> tr * b < P61 * x + P31 * b)
    requires 4 * (P61 * x - tr * b) < 4 * P144 + xe
    ensures -b < P29 * x - q * b < P115
    ensures 4 * W32 * (P29 * x - q * b) < 4 * P144 + xe + P33 * b
  {
    RoundedProduct(tr, b, q);
    DigitLinear(x, b, xe, tr * b, q * b);
    if tr == 0 { assert q == 0; assert q * b == 0; }
  }

  lemma {:induction false} DigitRange(t: int, r: int, q: int)
    requires 0 <= t < W32 && 0 <= r < W32 && q == RoundedQ(t, r)
    ensures 0 <= q < W32 && 0 <= t * r
  {
    MulLeft(t, r, W32 - 1); MulLeft(W32 - 1, t, W32 - 1); MulLeft(t, 0, r);
  }

  lemma {:induction false} RoundedProduct(tr: int, b: int, q: int)
    requires 0 < b && q == (tr + P31) / W32
    ensures W32 * (q * b) <= tr * b + P31 * b && tr * b - P31 * b <= W32 * (q * b)
  {
    MulLeft(b, W32 * q, tr + P31);
    MulLeft(b, tr - P31, W32 * q);
    assert b * (W32 * q) == W32 * (q * b);
  }

  lemma {:induction false} DigitLinear(x: int, b: int, xe: int, trb: int, qb: int)
    requires b < F128.P113 && xe <= 3 * (W32 * P115)
    requires trb <= P61 * x + P31 * b
    requires 4 * (P61 * x - trb) < 4 * P144 + xe
    requires W32 * qb <= trb + P31 * b && trb - P31 * b <= W32 * qb
    ensures -b <= P29 * x - qb < P115
    ensures trb < P61 * x + P31 * b ==> -b < P29 * x - qb
    ensures 4 * W32 * (P29 * x - qb) < 4 * P144 + xe + P33 * b
  {}

  lemma {:induction false} KeepsReduced(x: int, b: int, r: int, x': int)
    requires Divisor(b, r) && Reduced(x, b, r) && 0 <= x' < P115
    requires 4 * W32 * x' < 4 * P144 + x * Short(r, b) + P33 * b
    ensures Reduced(x', b, r)
  {
    var e := Short(r, b);
    if r > e {
      KeepsProduct(x, b, r, x', e, r - e);
    } else {
      MulLeft(x', r - e, 0);
    }
  }

  lemma {:induction false} KeepsProduct(x: int, b: int, r: int, x': int, e: int, d: int)
    requires F128.P112 <= b && 0 <= r < W32 && 0 < d && 0 < e && d + e == r
    requires x * d <= P33 * b && 4 * W32 * x' < 4 * P144 + x * e + P33 * b
    ensures x' * d <= P33 * b
  {
    MulLeft(d, 4 * W32 * x', 4 * P144 + x * e + P33 * b);
    MulLeft(e, x * d, P33 * b);
    KeepIdentities(x, b, x', d, e);
    MulLeft(d, F128.P112, b);
    MulLeft(b, r, W32 - 1);
    MulLeft(b, 0, e);
    KeepLinear(x' * d, b, d, b * d, b * e, d * (x * e), b * r);
  }

  lemma {:induction false} KeepIdentities(x: int, b: int, x': int, d: int, e: int)
    ensures d * (4 * W32 * x') == 4 * W32 * (x' * d)
    ensures d * (4 * P144 + x * e + P33 * b) == 4 * P144 * d + d * (x * e) + P33 * (b * d)
    ensures e * (x * d) == d * (x * e)
    ensures e * (P33 * b) == P33 * (b * e)
    ensures b * (d + e) == b * d + b * e
  {}

  lemma {:induction false} KeepLinear(xd: int, b: int, d: int, bd: int, be: int, dxe: int, br: int)
    requires 0 <= be && bd >= F128.P112 * d && br == bd + be && br <= b * (W32 - 1) && 0 <= b
    requires dxe <= P33 * be
    requires 4 * W32 * xd <= 4 * P144 * d + dxe + P33 * bd
    ensures xd <= P33 * b
  {}

  // ---- the digit as the two-word code computes it ----

  function Top(rem: U128): u32 { (rem.v64 / 0x8_0000) % W32 }

  lemma {:induction false} TopIs(rem: U128)
    requires Val(rem) < P115
    ensures Top(rem) == Val(rem) / P83
  {
    var t := rem.v64 / 0x8_0000;
    DivModUnique(Val(rem), P83, t, (rem.v64 % 0x8_0000) * W64 + rem.v0);
  }

  lemma {:induction false} TopOfDivisor(sigB: U128)
    requires F128.P112 <= Val(sigB) < F128.P113
    ensures sigB.v64 / 0x2_0000 == Val(sigB) / P81 && 0x8000_0000 <= sigB.v64 / 0x2_0000 < W32
  {
    var t := sigB.v64 / 0x2_0000;
    DivModUnique(Val(sigB), P81, t, (sigB.v64 % 0x2_0000) * W64 + sigB.v0);
  }

  /** One digit on values: the rounded estimate, corrected once. */
  function NextDigit(x: int, b: int, r: int): (int, int) {
    var q := RoundedQ(x / P83, r);
    var v := P29 * x - q * b;
    if v < 0 then (v + b, q - 1) else (v, q)
  }

  /** One pass of the loop: estimate, shift, subtract, and add the divisor back once if that went
      below zero. The corrected digit is exact: x' = 2^29 x - digit * b. */
  method OneDigit(rem: U128, sigB: U128, recip32: u32) returns (rem': U128, digit: int)
    requires Divisor(Val(sigB), recip32) && Reduced(Val(rem), Val(sigB), recip32)
    ensures Val(rem') == P29 * Val(rem) - digit * Val(sigB)
    ensures Reduced(Val(rem'), Val(sigB), recip32)
    ensures 0 <= digit < W32 && (Val(rem'), digit) == NextDigit(Val(rem), Val(sigB), recip32)
  {
    var q := RoundedQ(Top(rem), recip32);
    TopIs(rem);
    ghost var v := P29 * Val(rem) - q * Val(sigB);
    RoundedDigit(Val(rem), Val(sigB), recip32, Top(rem), q, v);
    rem', digit := SubtractDigit(rem, sigB, q, v);
    Corrected(q, Val(sigB));
  }

  lemma {:induction false} Corrected(q: int, b: int)
    ensures (q - 1) * b == q * b - b
  {}

  method SubtractDigit(rem: U128, sigB: U128, q: u32, ghost v: int) returns (rem': U128, digit: int)
    requires 0 < Val(sigB) < W128 / 8 && v == P29 * Val(rem) - q * Val(sigB) && -Val(sigB) < v < P115
    ensures digit == if v < 0 then q - 1 else q
    ensures Val(rem') == if v < 0 then v + Val(sigB) else v
  {
    Pow2Values();
    ShiftSubtract(rem, 29, sigB, q, v);
    rem' := Sub128(ShortShiftLeft128(rem, 29), Mul128By32(sigB, q));
    digit := q;
    if Negative(rem') {
      SignedAdd(rem', sigB);
      rem' := Add128(rem', sigB);
      digit := q - 1;
    }
  }
}
