/** f128_div: four base-2^29 quotient digits, the last one corrected only near a rounding boundary. */
module F128Div {
  import opened Words
  import opened Recip
  import opened F128
  import opened Digits

  const P58: int := 0x400_0000_0000_0000
  const P87: int := 0x80_0000_0000_0000_0000_0000

  // ---- the specification ----

  /** The integer z and the rational n / b lie on the same side of every multiple of 8. */
  ghost predicate SameSide(z: int, n: int, b: int) {
    forall m: int :: (z < 8 * m <==> n < (8 * m) * b) && (z == 8 * m <==> n == (8 * m) * b)
  }

  datatype Mode = NearEven | MinMag | Away | NearMaxMag

  /** Rounding the magnitude n / d to a multiple of 16 (the weight of the last significand bit). */
  function Round16(n: int, d: int, mode: Mode): int
    requires d > 0
  {
    var f := n / (16 * d);
    var rem := n % (16 * d);
    match mode
    case MinMag => f
    case Away => if rem > 0 then f + 1 else f
    case NearMaxMag => if rem >= 8 * d then f + 1 else f
    case NearEven => if rem > 8 * d || (rem == 8 * d && f % 2 == 1) then f + 1 else f
  }

  /** Numbers on the same side of every multiple of 8 round alike in every mode and agree on exactness. */
  lemma {:induction false} SameSideRounds(z: int, n: int, b: int, mode: Mode)
    requires 0 < b && SameSide(z, n, b)
    ensures Round16(z, 1, mode) == Round16(n, b, mode)
    ensures z % 16 == 0 <==> n % (16 * b) == 0
  {
    var f, rem := z / 16, z % 16;
    assert (8 * (2 * f)) * b == f * (16 * b) && (8 * (2 * f + 2)) * b == f * (16 * b) + 16 * b
        && (8 * (2 * f + 1)) * b == f * (16 * b) + 8 * b by { Multiples(f, b); }
    assert z >= 8 * (2 * f) && z < 8 * (2 * f + 2);
    DivModUnique(n, 16 * b, f, n - f * (16 * b));
  }

  lemma {:induction false} Multiples(f: int, b: int)
    ensures (8 * (2 * f)) * b == f * (16 * b)
    ensures (8 * (2 * f + 1)) * b == f * (16 * b) + 8 * b
    ensures (8 * (2 * f + 2)) * b == f * (16 * b) + 16 * b
  {}

  // ---- the remainder stays below 2.5 b; below 2 b when the reciprocal is within two units ----

  predicate Wide(x: int, b: int) { 0 <= x && 2 * x < 5 * b }

  lemma {:induction false} SquareBound(b: int)
    requires P112 <= b <= P113
    ensures b * b <= 3 * P112 * b - P112 * P113
  {
    MulLeft(b - P112, 0, P113 - b);
    assert (b - P112) * (P113 - b) == 3 * P112 * b - P112 * P113 - b * b;
  }

  lemma {:induction false} DigitBound(x: int, b: int, r: int, t: int, q: int)
    requires Divisor(b, r) && Reduced(x, b, r) && t == x / P83 && q == RoundedQ(t, r)
    ensures 4 * W32 * (P29 * x - q * b) < 4 * P144 + x * Short(r, b) + P33 * b
    ensures -b < P29 * x - q * b && 0 <= q < W32
  {
    EstimateUpper(x, b, r, t);
    EstimateLower(x, b, r, t);
    ShortBound(x, b, r);
    DigitRange(t, r, q);
    RoundedRemainder(x, b, x * Short(r, b), t * r, q);
  }

  lemma {:induction false} WideKept(x: int, b: int, e: int, v: int)
    requires P112 <= b < P113 && Wide(x, b) && 0 < e && 125 * e <= 251 * (b / P81)
    requires 4 * W32 * v < 4 * P144 + x * e + P33 * b
    ensures 2 * v < 5 * b
  {
    var top := b / P81;
    MulLeft(x, 125 * e, 251 * top);
    MulLeft(top, 2 * x, 5 * b);
    MulLeft(b, P81 * top, b);
    SquareBound(b);
    Scalars(x, b, e, top);
    WideLinear(b, v, x * e, x * top, b * top, b * b);
  }

  lemma {:induction false} WideLinear(b: int, v: int, xe: int, xt: int, bt: int, bb: int)
    requires P112 <= b && 125 * xe <= 251 * xt && 2 * xt <= 5 * bt && P81 * bt <= bb
    requires bb <= 3 * P112 * b - P112 * P113
    requires 4 * W32 * v < 4 * P144 + xe + P33 * b
    ensures 2 * v < 5 * b
  {}

  lemma {:induction false} Scalars(x: int, b: int, e: int, top: int)
    ensures x * (125 * e) == 125 * (x * e) && x * (251 * top) == 251 * (x * top) && x * (2 * top) == 2 * (x * top)
    ensures top * (2 * x) == 2 * (x * top) && top * (5 * b) == 5 * (b * top) && top * (2 * b) == 2 * (b * top)
    ensures b * (P81 * top) == P81 * (b * top)
  {}

  lemma {:induction false} NarrowLinear(b: int, v: int, xe: int, xt: int, bt: int, bb: int)
    requires P112 <= b && xe <= 2 * xt && xt <= 2 * bt && P81 * bt <= bb
    requires bb <= 3 * P112 * b - P112 * P113
    requires 4 * W32 * v < 4 * P144 + xe + P33 * b
    ensures v < 2 * b
  {}

  lemma {:induction false} NarrowKept(x: int, b: int, e: int, v: int)
    requires P112 <= b < P113 && 0 <= x < 2 * b && 0 < e <= 2 * (b / P81)
    requires 4 * W32 * v < 4 * P144 + x * e + P33 * b
    ensures v < 2 * b
  {
    var top := b / P81;
    MulLeft(x, e, 2 * top);
    MulLeft(top, x, 2 * b);
    MulLeft(b, P81 * top, b);
    SquareBound(b);
    Scalars(x, b, e, top);
    NarrowLinear(b, v, x * e, x * top, b * top, b * b);
  }

  lemma {:induction false} NextDigitOk(x: int, b: int, r: int)
    requires Divisor(b, r) && Reduced(x, b, r) && Wide(x, b)
    ensures var (x', d) := NextDigit(x, b, r);
            Reduced(x', b, r) && Wide(x', b) && x' == P29 * x - d * b
    ensures x < 2 * b && Short(r, b) <= 2 * (b / P81) ==> NextDigit(x, b, r).0 < 2 * b
  {
    var q := RoundedQ(x / P83, r);
    var v := P29 * x - q * b;
    RoundedDigit(x, b, r, x / P83, q, v);
    DigitBound(x, b, r, x / P83, q);
    WideKept(x, b, Short(r, b), v);
    Corrected(q, b);
    if x < 2 * b && Short(r, b) <= 2 * (b / P81) { NarrowKept(x, b, Short(r, b), v); }
  }

  // ---- the digits, on values ----

  datatype Quotient = Quotient(d2: int, d1: int, d0: int, x3: int)

  function ThreeDigits(x0: int, b: int, r: int): Quotient {
    var (x1, d2) := NextDigit(x0, b, r);
    var (x2, d1) := NextDigit(x1, b, r);
    var (x3, d0) := NextDigit(x2, b, r);
    Quotient(d2, d1, d0, x3)
  }

  function Leading(t: Quotient): int { t.d2 * P58 + t.d1 * P29 + t.d0 }

  /** The digit identity: what has been subtracted is exactly the leading digits times the divisor. */
  lemma {:induction false} DigitsExact(x0: int, b: int, r: int)
    requires Divisor(b, r) && b <= x0 < 2 * b
    ensures var t := ThreeDigits(x0, b, r);
            x0 * P87 == Leading(t) * b + t.x3 && Reduced(t.x3, b, r) && Wide(t.x3, b)
    ensures Short(r, b) <= 2 * (b / P81) ==> ThreeDigits(x0, b, r).x3 < 2 * b
  {
    ReducedBelowTwice(x0, b, r);
    NextDigitOk(x0, b, r);
    var (x1, d2) := NextDigit(x0, b, r);
    NextDigitOk(x1, b, r);
    var (x2, d1) := NextDigit(x1, b, r);
    NextDigitOk(x2, b, r);
    var (x3, d0) := NextDigit(x2, b, r);
    Combine(x0, x1, x2, x3, d2, d1, d0, b);
  }

  lemma {:induction false} Combine(x0: int, x1: int, x2: int, x3: int, d2: int, d1: int, d0: int, b: int)
    requires x1 == P29 * x0 - d2 * b && x2 == P29 * x1 - d1 * b && x3 == P29 * x2 - d0 * b
    ensures x0 * P87 == (d2 * P58 + d1 * P29 + d0) * b + x3
  {
    assert (d2 * P58 + d1 * P29 + d0) * b == P58 * (d2 * b) + P29 * (d1 * b) + d0 * b;
  }

  /** The last digit as the code leaves it: untouched unless it is 0 or 7 modulo 8, otherwise moved to
      the exact floor when that is one away, with a sticky bit for a nonzero remainder. */
  function LastQ(x3: int, b: int, r: int): int {
    var q := RoundedQ(x3 / P83, r);
    if (q + 1) % 8 < 2 then Sticky(q, P29 * x3 - q * b, b) else q
  }

  function Sticky(q: int, v: int, b: int): int {
    var q' := if v < 0 then q - 1 else if b <= v then q + 1 else q;
    var v' := if v < 0 then v + b else if b <= v then v - b else v;
    if v' != 0 && q' % 2 == 0 then q' + 1 else q'
  }

  /** The condition under which the uncorrected last digit is too far below the true quotient. */
  ghost predicate Misjudged(x3: int, b: int, r: int) {
    var q := RoundedQ(x3 / P83, r);
    q % 8 == 6 && P29 * x3 - q * b >= 2 * b
  }

  lemma {:induction false} LastDigitSameSide(x3: int, b: int, r: int)
    requires Divisor(b, r) && Reduced(x3, b, r) && Wide(x3, b)
    ensures SameSide(LastQ(x3, b, r), P29 * x3, b) <==> !Misjudged(x3, b, r)
    ensures 0 <= LastQ(x3, b, r) <= W32
  {
    var q := RoundedQ(x3 / P83, r);
    var v := P29 * x3 - q * b;
    DigitBound(x3, b, r, x3 / P83, q);
    WideKept(x3, b, Short(r, b), v);
    assert q == 0 ==> q * b == 0;
    SidesOfLast(q, LastQ(x3, b, r), v, b, P29 * x3);
  }

  lemma {:induction false} SidesOfLast(q: int, q': int, v: int, b: int, y: int)
    requires 0 < b && -b < v && 2 * v < 5 * b && v == y - q * b
    requires q' == if (q + 1) % 8 < 2 then Sticky(q, v, b) else q
    ensures SameSide(q', y, b) <==> !(q % 8 == 6 && v >= 2 * b)
  {
    if q % 8 == 6 && v >= 2 * b {
      var m := q / 8 + 1;
      assert 8 * m == q + 2;
      Distribute(q, 2, b);
      assert q' < 8 * m && !(y < (8 * m) * b);
    } else {
      forall m: int
        ensures (q' < 8 * m <==> y < (8 * m) * b) && (q' == 8 * m <==> y == (8 * m) * b)
      {
        OneBoundary(q, q', v, b, m, 8 * m - q);
        Distribute(q, 8 * m - q, b);
      }
    }
  }

  lemma {:induction false} Distribute(q: int, k: int, b: int)
    ensures (q + k) * b == q * b + k * b
  {}

  /** Compare with the boundary k units above q, where y / b is q + v / b. */
  lemma {:induction false} OneBoundary(q: int, q': int, v: int, b: int, m: int, k: int)
    requires 0 < b && -b < v && 2 * v < 5 * b && k == 8 * m - q
    requires q' == if (q + 1) % 8 < 2 then Sticky(q, v, b) else q
    requires !(q % 8 == 6 && v >= 2 * b)
    ensures q' < 8 * m <==> v < k * b
    ensures q' == 8 * m <==> v == k * b
  {
    if k <= -1 {
      MulLeft(b, k, -1);
      BoundaryCases(q, q', v, b, k, k * b);
    } else if k >= 3 {
      MulLeft(b, 3, k);
      BoundaryCases(q, q', v, b, k, k * b);
    } else {
      BoundaryCases(q, q', v, b, k, if k == 0 then 0 else if k == 1 then b else 2 * b);
    }
  }

  ghost predicate BoundaryAt(k: int, b: int, kb: int) {
    if k <= -1 then kb <= -b else if k >= 3 then kb >= 3 * b
    else kb == (if k == 0 then 0 else if k == 1 then b else 2 * b)
  }

  lemma {:induction false} BoundaryCases(q: int, q': int, v: int, b: int, k: int, kb: int)
    requires 0 < b && -b < v && 2 * v < 5 * b && (q + k) % 8 == 0 && BoundaryAt(k, b, kb)
    requires q' == if (q + 1) % 8 < 2 then Sticky(q, v, b) else q
    requires !(q % 8 == 6 && v >= 2 * b)
    ensures q' < q + k <==> v < kb
    ensures q' == q + k <==> v == kb
  {
    ResidueCases(q, k);
    if (q + 1) % 8 < 2 {
      StickyBoundary(q, v, b, k, kb);
    }
  }

  lemma {:induction false} ResidueCases(q: int, k: int)
    requires (q + k) % 8 == 0
    ensures (q + 1) % 8 < 2 ==> k <= -7 || (k == 0 && q % 2 == 0) || (k == 1 && q % 2 == 1) || k >= 8
    ensures (q + 1) % 8 >= 2 ==> k <= -1 || (k == 2 && q % 8 == 6) || k >= 3
  {
    var w := (q + k) / 8;
    assert q == 8 * w - k;
  }

  lemma {:induction false} StickyBoundary(q: int, v: int, b: int, k: int, kb: int)
    requires 0 < b && -b < v && 2 * v < 5 * b && BoundaryAt(k, b, kb)
    requires k <= -7 || (k == 0 && q % 2 == 0) || (k == 1 && q % 2 == 1) || k >= 8
    ensures Sticky(q, v, b) < q + k <==> v < kb
    ensures Sticky(q, v, b) == q + k <==> v == kb
  {
    var q' := Sticky(q, v, b);
    assert q - 1 <= q' <= q + 2;
    if k == 0 {
      assert (q - 1) % 2 == 1 && (q + 1) % 2 == 1;
    } else if k == 1 {
      assert (q - 1) % 2 == 0 && (q + 1) % 2 == 0;
    }
  }

  // ---- the two-word code ----

  datatype Packed = Packed(expZ: int, sigZ: U128, sigZExtra: u64)

  /** sigZExtra holds the low four bits of the last digit at the top of a word. */
  function Assembled(z: Packed): int { Val(z.sigZ) * 16 + z.sigZExtra / 0x1000_0000_0000_0000 }

  function RemOf(sigA: U128, sigB: U128): int {
    if Val(sigA) < Val(sigB) then 2 * Val(sigA) else Val(sigA)
  }

  function RecipOf(sigB: U128): u32
    requires P112 <= Val(sigB) < P113
  {
    TopOfDivisor(sigB);
    ApproxRecip32(sigB.v64 / 0x2_0000)
  }

  /** f128_div.c:121-170 on normalised operands. */
  method DivFinite(expA: int, sigA: U128, expB: int, sigB: U128) returns (z: Packed)
    requires P112 <= Val(sigA) < P113 && P112 <= Val(sigB) < P113
    ensures z.expZ == expA - expB + (if Val(sigA) < Val(sigB) then 0x3FFD else 0x3FFE)
    ensures var t := ThreeDigits(RemOf(sigA, sigB), Val(sigB), RecipOf(sigB));
            Assembled(z) == Leading(t) * P29 + LastQ(t.x3, Val(sigB), RecipOf(sigB)) &&
            (SameSide(Assembled(z), RemOf(sigA, sigB) * P116, Val(sigB)) <==>
             !Misjudged(t.x3, Val(sigB), RecipOf(sigB)))
  {
    var expZ := expA - expB + 0x3FFE;
    var rem := sigA;
    if Lt128(sigA, sigB) {
      expZ := expZ - 1;
      Doubled(sigA);
      rem := Add128(sigA, sigA);
    }
    assert Val(rem) == RemOf(sigA, sigB);
    z := DivScaled(expZ, rem, sigB);
  }

  lemma {:induction false} Doubled(s: U128)
    requires Val(s) < P113
    ensures Val(Add128(s, s)) == 2 * Val(s)
  {
    DivModUnique(2 * Val(s), W128, 0, 2 * Val(s));
  }

  method DivScaled(expZ: int, rem0: U128, sigB: U128) returns (z: Packed)
    requires P112 <= Val(sigB) < P113 && Val(sigB) <= Val(rem0) < 2 * Val(sigB)
    ensures z.expZ == expZ
    ensures var t := ThreeDigits(Val(rem0), Val(sigB), RecipOf(sigB));
            Assembled(z) == Leading(t) * P29 + LastQ(t.x3, Val(sigB), RecipOf(sigB)) &&
            (SameSide(Assembled(z), Val(rem0) * P116, Val(sigB)) <==> !Misjudged(t.x3, Val(sigB), RecipOf(sigB)))
  {
    TopOfDivisor(sigB);
    var recip32 := RecipOf(sigB);
    ApproxRecip32Ok(sigB.v64 / 0x2_0000);
    DivisorOk(Val(sigB), recip32);
    DigitsExact(Val(rem0), Val(sigB), recip32);
    DigitBounds(Val(rem0), Val(sigB), recip32);
    var rem, qs := DigitLoop(rem0, sigB, recip32);
    var q := FinishQuotient(rem, sigB, recip32);
    z := Assemble(expZ, qs[2], qs[1], qs[0], q);
    QuotientSameSide(Val(rem0), Val(sigB), recip32);
  }

  /** f128_div.c:130-144: the loop that fills qs[2], qs[1], qs[0]. */
  method DigitLoop(rem0: U128, sigB: U128, recip32: u32) returns (rem: U128, qs: array<int>)
    requires Divisor(Val(sigB), recip32) && Val(sigB) <= Val(rem0) < 2 * Val(sigB)
    ensures fresh(qs) && qs.Length == 3
    ensures Quotient(qs[2], qs[1], qs[0], Val(rem)) == ThreeDigits(Val(rem0), Val(sigB), recip32)
  {
    ghost var b, x0 := Val(sigB), Val(rem0);
    ReducedBelowTwice(x0, b, recip32);
    ghost var n1 := NextDigit(x0, b, recip32);
    ghost var n2 := NextDigit(n1.0, b, recip32);
    ghost var n3 := NextDigit(n2.0, b, recip32);
    rem, qs := rem0, new int[3];
    var ix := 2;
    while ix >= 0
      invariant -1 <= ix <= 2 && Reduced(Val(rem), b, recip32)
      invariant Val(rem) == if ix == 2 then x0 else if ix == 1 then n1.0 else if ix == 0 then n2.0 else n3.0
      invariant ix < 2 ==> qs[2] == n1.1
      invariant ix < 1 ==> qs[1] == n2.1
      invariant ix < 0 ==> qs[0] == n3.1
    {
      var digit;
      rem, digit := OneDigit(rem, sigB, recip32);
      qs[ix] := digit;
      ix := ix - 1;
    }
  }

  lemma {:induction false} DigitBounds(x0: int, b: int, r: int)
    requires Divisor(b, r) && b <= x0 < 2 * b
    ensures var t := ThreeDigits(x0, b, r);
            0 <= t.d2 < 0x8000_0000 && 0 <= t.d1 < 0x8000_0000 && 0 <= t.d0 < 0x8000_0000
  {
    ReducedBelowTwice(x0, b, r);
    NextDigitOk(x0, b, r); OneDigitBound(x0, b, r);
    var (x1, d2) := NextDigit(x0, b, r);
    NextDigitOk(x1, b, r); OneDigitBound(x1, b, r);
    var (x2, d1) := NextDigit(x1, b, r);
    OneDigitBound(x2, b, r);
  }

  lemma {:induction false} OneDigitBound(x: int, b: int, r: int)
    requires Divisor(b, r) && Reduced(x, b, r) && Wide(x, b)
    ensures 0 <= NextDigit(x, b, r).1 < 0x8000_0000
  {
    var q := RoundedQ(x / P83, r);
    RoundedDigit(x, b, r, x / P83, q, P29 * x - q * b);
    if q >= 0x8000_0000 {
      MulLeft(b, 0x8000_0000, q);
    }
  }

  method FinishQuotient(rem0: U128, sigB: U128, recip32: u32) returns (q: int)
    requires Divisor(Val(sigB), recip32) && Reduced(Val(rem0), Val(sigB), recip32) && Wide(Val(rem0), Val(sigB))
    ensures q == LastQ(Val(rem0), Val(sigB), recip32) && 0 <= q <= 0x8000_0000
  {
    ghost var x, b := Val(rem0), Val(sigB);
    TopIs(rem0);
    q := RoundedQ(Top(rem0), recip32);
    ghost var v := P29 * x - q * b;
    DigitBound(x, b, recip32, Top(rem0), q);
    WideKept(x, b, Short(recip32, b), v);
    if q >= 0x7FFF_FFFF { MulLeft(b, 0x7FFF_FFFF, q); }
    if q == 0 { assert q * b == 0; }
    if (q + 1) % 8 < 2 {
      q := StickyDigit(rem0, sigB, q, v);
    }
  }

  method StickyDigit(rem0: U128, sigB: U128, q0: u32, ghost v: int) returns (q: int)
    requires 0 < Val(sigB) < P113 && v == P29 * Val(rem0) - q0 * Val(sigB) && -Val(sigB) < v && 2 * v < 5 * Val(sigB)
    ensures q == Sticky(q0, v, Val(sigB))
  {
    Pow2Values();
    ShiftSubtract(rem0, 29, sigB, q0, v);
    q := CorrectOnce(Sub128(ShortShiftLeft128(rem0, 29), Mul128By32(sigB, q0)), sigB, q0);
  }

  method CorrectOnce(rem0: U128, sigB: U128, q0: int) returns (q: int)
    requires 0 < Val(sigB) < P113 && -Val(sigB) < Signed(rem0) && 2 * Signed(rem0) < 5 * Val(sigB)
    ensures q == Sticky(q0, Signed(rem0), Val(sigB))
  {
    var rem := rem0;
    q := q0;
    if Negative(rem) {
      q := q - 1;
      SignedAdd(rem, sigB);
      rem := Add128(rem, sigB);
    } else if Le128(sigB, rem) {
      q := q + 1;
      SignedSub(rem, sigB);
      rem := Sub128(rem, sigB);
    }
    if rem.v64 != 0 || rem.v0 != 0 {
      q := if q % 2 == 0 then q + 1 else q;      // q |= 1
    }
  }

  method Assemble(expZ: int, q2: int, q1: int, q0: int, q: int) returns (z: Packed)
    requires 0 <= q2 < 0x8000_0000 && 0 <= q1 < 0x8000_0000 && 0 <= q0 < 0x8000_0000 && 0 <= q <= 0x8000_0000
    ensures z.expZ == expZ && Assembled(z) == (q2 * P58 + q1 * P29 + q0) * P29 + q
  {
    var sigZExtra: u64 := (q * 0x1000_0000_0000_0000) % W64;
    AssembleExtra(q);
    assert Pow2(54) == 0x40_0000_0000_0000 by { Pow2Values(); assert Pow2(22) == 0x40_0000; Pow2Add(32, 22); }
    var term := ShortShiftLeft128(U128(0, q1), 54);
    AssembleTerm(q1);
    var sigZ := Add128(U128(q2 * 0x8_0000, q0 * 0x200_0000 + q / 16), term);
    AssembleSum(q2, q1, q0, q, Val(sigZ));
    z := Packed(expZ, sigZ, sigZExtra);
  }

  lemma {:induction false} AssembleTerm(q1: int)
    requires 0 <= q1 < 0x8000_0000
    ensures (q1 * 0x40_0000_0000_0000) % W128 == q1 * 0x40_0000_0000_0000
  {}

  lemma {:induction false} AssembleSum(q2: int, q1: int, q0: int, q: int, sig: int)
    requires 0 <= q2 < 0x8000_0000 && 0 <= q1 < 0x8000_0000 && 0 <= q0 < 0x8000_0000 && 0 <= q <= 0x8000_0000
    requires sig == (q2 * 0x8_0000 * W64 + (q0 * 0x200_0000 + q / 16) + q1 * 0x40_0000_0000_0000) % W128
    ensures sig * 16 + q % 16 == (q2 * P58 + q1 * P29 + q0) * P29 + q
  {
    var s := q2 * 0x8_0000 * W64 + (q0 * 0x200_0000 + q / 16) + q1 * 0x40_0000_0000_0000;
    DivModUnique(s, W128, 0, s);
  }

  lemma {:induction false} AssembleExtra(q: int)
    requires 0 <= q
    ensures (q * 0x1000_0000_0000_0000) % W64 == (q % 16) * 0x1000_0000_0000_0000
  {
    DivModUnique(q * 0x1000_0000_0000_0000, W64, q / 16, (q % 16) * 0x1000_0000_0000_0000);
  }

  // ---- the result ----

  /** The assembled quotient is on the true side of every rounding boundary exactly when the last digit
      was not misjudged. */
  lemma {:induction false} QuotientSameSide(x0: int, b: int, r: int)
    requires Divisor(b, r) && b <= x0 < 2 * b
    ensures var t := ThreeDigits(x0, b, r);
            SameSide(Leading(t) * P29 + LastQ(t.x3, b, r), x0 * P116, b) <==> !Misjudged(t.x3, b, r)
  {
    DigitsExact(x0, b, r);
    var t := ThreeDigits(x0, b, r);
    LastDigitSameSide(t.x3, b, r);
    ShiftSides(Leading(t), LastQ(t.x3, b, r), t.x3, x0, b);
  }

  lemma {:induction false} ShiftSides(d: int, q: int, x3: int, x0: int, b: int)
    requires x0 * P87 == d * b + x3
    ensures SameSide(d * P29 + q, x0 * P116, b) <==> SameSide(q, P29 * x3, b)
  {
    var s := d * 0x400_0000;               // d * 2^29 = 8 s
    assert x0 * P116 == P29 * (d * b) + P29 * x3;
    if SameSide(q, P29 * x3, b) {
      forall m: int
        ensures (d * P29 + q < 8 * m <==> x0 * P116 < (8 * m) * b)
        ensures (d * P29 + q == 8 * m <==> x0 * P116 == (8 * m) * b)
      {
        assert (8 * m) * b == (8 * (m - s)) * b + P29 * (d * b) by { ShiftIdentity(m, s, d, b); }
      }
    }
    if SameSide(d * P29 + q, x0 * P116, b) {
      forall m: int
        ensures (q < 8 * m <==> P29 * x3 < (8 * m) * b) && (q == 8 * m <==> P29 * x3 == (8 * m) * b)
      {
        assert (8 * (m + s)) * b == (8 * m) * b + P29 * (d * b) by { ShiftIdentity(m + s, s, d, b); }
      }
    }
  }

  lemma {:induction false} ShiftIdentity(m: int, s: int, d: int, b: int)
    requires s == d * 0x400_0000
    ensures (8 * m) * b == (8 * (m - s)) * b + P29 * (d * b)
  {
    assert (8 * (m - s)) * b == (8 * m) * b - (8 * s) * b;
    assert (8 * s) * b == P29 * (d * b);
  }

  /** With a reciprocal within two units in the last place no digit is ever misjudged, so every such
      divisor gives correctly rounded quotients in every mode. */
  lemma {:induction false} TwoUnitsSuffice(x0: int, b: int, r: int, mode: Mode)
    requires Divisor(b, r) && b <= x0 < 2 * b && Short(r, b) <= 2 * (b / P81)
    ensures var t := ThreeDigits(x0, b, r);
            var z := Leading(t) * P29 + LastQ(t.x3, b, r);
            SameSide(z, x0 * P116, b) && Round16(z, 1, mode) == Round16(x0 * P116, b, mode)
  {
    DigitsExact(x0, b, r);
    var t := ThreeDigits(x0, b, r);
    var q := RoundedQ(t.x3 / P83, r);
    DigitBound(t.x3, b, r, t.x3 / P83, q);
    NarrowKept(t.x3, b, Short(r, b), P29 * t.x3 - q * b);
    QuotientSameSide(x0, b, r);
    SameSideRounds(Leading(t) * P29 + LastQ(t.x3, b, r), x0 * P116, b, mode);
  }

  // ---- the property fails for the table-driven reciprocal ----

  const BAD_A: int := 0x1_0000_0007_FEDC_59B2_4DF2_A53F_446A
  const BAD_B: int := 0x1_0000_1114_0000_0302_5743_3BA7_1D0B

  /** A divisor whose reciprocal is 2.004 units low, and a dividend for which the fourth digit is two
      below the true digit while being 6 modulo 8: the correction step is skipped, and the quotient
      rounds to one unit in the last place less than it should when rounding toward zero. */
  lemma {:induction false} MisjudgedExample() returns (a: int, b: int)
    ensures P112 <= a < b < P113
    ensures var r := ApproxRecip32(b / P81);
            var t := ThreeDigits(2 * a, b, r);
            var z := Leading(t) * P29 + LastQ(t.x3, b, r);
            Misjudged(t.x3, b, r) && !SameSide(z, 2 * a * P116, b) &&
            Round16(z, 1, MinMag) + 1 == Round16(2 * a * P116, b, MinMag)
  {
    a, b := BAD_A, BAD_B;
    var r := 0xFFFF_EEEA;
    assert b / P81 == 0x8000_088A;
    ExampleRecip();
    ApproxRecip32Ok(0x8000_088A);
    DivisorOk(b, r);
    ExampleDigits();
    QuotientSameSide(2 * a, b, r);
    ExampleRounding();
  }

  lemma {:induction false} ExampleRecip()
    ensures ApproxRecip32(0x8000_088A) == 0xFFFF_EEEA
  {
    assert R0(0x8000_088A) == 0xFFC4;
    assert Sigma0(0xFFC4, 0x8000_088A) == 0x3BEE_F000;
    assert Square0(0x3BEE_F000) == 0xE08_01A3;
  }

  lemma {:induction false} ExampleDigits()
    ensures ThreeDigits(2 * BAD_A, BAD_B, 0xFFFF_EEEA)
         == Quotient(0x3FFF_FBBB, 0x3FFF_FBBB, 0x3FFF_FBBB, 0x2_0000_00A7_FF95_4424_AAC9_D07E_FFF7)
    ensures RoundedQ(0x2_0000_00A7_FF95_4424_AAC9_D07E_FFF7 / P83, 0xFFFF_EEEA) == 0x3FFF_FBCE
  {
    assert NextDigit(2 * BAD_A, BAD_B, 0xFFFF_EEEA) == (0x2_0000_000F_FDB8_B364_9BE5_707E_FFF7, 0x3FFF_FBBB);
    assert NextDigit(0x2_0000_000F_FDB8_B364_9BE5_707E_FFF7, BAD_B, 0xFFFF_EEEA)
        == (0x2_0000_000F_FDB8_B824_AAC9_D07E_FFF7, 0x3FFF_FBBB);
    assert NextDigit(0x2_0000_000F_FDB8_B824_AAC9_D07E_FFF7, BAD_B, 0xFFFF_EEEA)
        == (0x2_0000_00A7_FF95_4424_AAC9_D07E_FFF7, 0x3FFF_FBBB);
  }

  lemma {:induction false} ExampleRounding()
    ensures Round16((0x3FFF_FBBB * P58 + 0x3FFF_FBBB * P29 + 0x3FFF_FBBB) * P29 + 0x3FFF_FBCE, 1, MinMag) + 1
         == Round16(2 * BAD_A * P116, BAD_B, MinMag)
  {
    var z := (0x3FFF_FBBB * P58 + 0x3FFF_FBBB * P29 + 0x3FFF_FBBB) * P29 + 0x3FFF_FBCE;
    var n := 2 * BAD_A * P116;
    var f := z / 16 + 1;
    DivModUnique(n, 16 * BAD_B, f, n - f * (16 * BAD_B));
  }

  // ---- the whole operation ----

  datatype Outcome =
    | PropagateNaN
    | Invalid
    | Infinity(sign: bool, divByZero: bool)
    | Zero(sign: bool)
    | RoundPack(sign: bool, z: Packed)

  /** f128_div: the special operands, then the finite quotient. The significands s, t and exponents
      named by the last clause are the normalised forms of the operands. */
  method F128Div(a: U128, b: U128) returns (o: Outcome)
    ensures o.PropagateNaN? <==> IsNaN(a) || IsNaN(b)
    ensures o.Invalid? <==> (IsInf(a) && IsInf(b)) || (IsZero(a) && IsZero(b))
    ensures o.Infinity? <==> (IsInf(a) && IsFinite(b)) || (IsFinite(a) && !IsZero(a) && IsZero(b))
    ensures o.Infinity? ==> o.sign == (Sign(a) != Sign(b)) && (o.divByZero <==> IsFinite(a))
    ensures o.Zero? <==> (IsFinite(a) && IsInf(b)) || (IsZero(a) && IsFinite(b) && !IsZero(b))
    ensures o.Zero? || o.RoundPack? ==> o.sign == (Sign(a) != Sign(b))
    ensures o.RoundPack? ==> exists s: U128, e: int, t: U128, f: int ::
              DivSpec(a, b, s, e, t, f, o.z)
  {
    var signZ := Sign(a) != Sign(b);
    if Exp(a) == 0x7FFF {
      if Val(Frac(a)) != 0 { return PropagateNaN; }
      if Exp(b) == 0x7FFF {
        if Val(Frac(b)) != 0 { return PropagateNaN; }
        return Invalid;
      }
      return Infinity(signZ, false);
    }
    if Exp(b) == 0x7FFF {
      if Val(Frac(b)) != 0 { return PropagateNaN; }
      return Zero(signZ);
    }
    if Exp(b) == 0 && Val(Frac(b)) == 0 {
      if Exp(a) == 0 && Val(Frac(a)) == 0 { return Invalid; }
      return Infinity(signZ, true);
    }
    var expB, sigB := NormalParts(b);
    if Exp(a) == 0 && Val(Frac(a)) == 0 { return Zero(signZ); }
    var expA, sigA := NormalParts(a);
    var z := DivFinite(expA, sigA, expB, sigB);
    assert DivSpec(a, b, sigA, expA, sigB, expB, z);
    o := RoundPack(signZ, z);
  }

  /** z is the quotient of a = s * 2^e by b = t * 2^f, on the right side of every rounding boundary
      unless the last digit was misjudged. */
  ghost predicate DivSpec(a: U128, b: U128, s: U128, e: int, t: U128, f: int, z: Packed) {
    && P112 <= Val(s) < P113 && P112 <= Val(t) < P113 && -111 <= e && -111 <= f
    && Val(s) * Pow2(e + 112) == Mag(a) && Val(t) * Pow2(f + 112) == Mag(b)
    && z.expZ == e - f + (if Val(s) < Val(t) then 0x3FFD else 0x3FFE)
    && (SameSide(Assembled(z), RemOf(s, t) * P116, Val(t)) <==>
        !Misjudged(ThreeDigits(RemOf(s, t), Val(t), RecipOf(t)).x3, Val(t), RecipOf(t)))
  }

  // ---- the number handed to rounding ----

  /** A packed significand, four bits longer than the result's, at a biased exponent stands for
      Assembled(z) / 2^116 * 2^(expZ - 0x3FFE). In this unit, its exponent included, it is on the same side of every
      rounding boundary as the quotient of the operands themselves, exactly when the last digit was not misjudged. */
  lemma {:induction false} QuotientValue(a: U128, b: U128, s: U128, e: int, t: U128, f: int, z: Packed, u: nat, v: nat)
    requires DivSpec(a, b, s, e, t, f, z) && u - v == 116 + 0x3FFE - z.expZ
    ensures Mag(b) * Pow2(v) > 0
    ensures SameSide(Assembled(z), Mag(a) * Pow2(u), Mag(b) * Pow2(v)) <==>
            !Misjudged(ThreeDigits(RemOf(s, t), Val(t), RecipOf(t)).x3, Val(t), RecipOf(t))
  {
    var d: nat := if Val(s) < Val(t) then 1 else 0;
    var w := Pow2At116();
    PowersAgree(e + 112, u, d, w, f + 112, v);
    RemIs(s, t, d);
    Cross(Val(s), Val(t), Pow2(e + 112), Pow2(f + 112), Pow2(u), Pow2(v), Pow2(d), P116);
    SameSideCross(Assembled(z), RemOf(s, t) * P116, Val(t), Mag(a) * Pow2(u), Mag(b) * Pow2(v));
  }

  lemma {:induction false} RemIs(s: U128, t: U128, d: nat)
    requires d == if Val(s) < Val(t) then 1 else 0
    ensures RemOf(s, t) == Val(s) * Pow2(d)
  {
    assert Pow2(1) == 2 * Pow2(0);
  }

  lemma {:induction false} Pow2At116() returns (w: nat)
    ensures w == 116 && Pow2(w) == P116
  {
    w := 116;
    Pow2Values();
    Pow2Add(64, 52);
    Pow2Add(32, 20);
    Pow2Add(16, 4);
  }

  lemma {:induction false} PowersAgree(x: nat, y: nat, d: nat, w: nat, g: nat, v: nat)
    requires x + y == d + w + g + v
    ensures Pow2(x) * Pow2(y) == ((Pow2(d) * Pow2(w)) * Pow2(g)) * Pow2(v)
  {
    Pow2Add(x, y);
    Pow2Add(d, w);
    Pow2Add(d + w, g);
    Pow2Add(d + w + g, v);
  }

  lemma {:induction false} Cross(s: int, t: int, p: int, q: int, u: int, v: int, d: int, k: int)
    requires 0 < t && 0 < q && 0 < v && p * u == ((d * k) * q) * v
    ensures (((s * d) * k) * ((t * q) * v)) == ((s * p) * u) * t && 0 < (t * q) * v
  {
    var w := p * u;
    assert (s * p) * u == s * w by { MulAssoc(s, p, u); }
    assert ((s * d) * k) * ((t * q) * v) == (s * w) * t by { Shuffle(s, t, q, v, d, k); }
    MulLeft(t, 1, q);
    MulLeft(t * q, 1, v);
  }

  lemma {:induction false} Shuffle(s: int, t: int, q: int, v: int, d: int, k: int)
    ensures ((s * d) * k) * ((t * q) * v) == (s * (((d * k) * q) * v)) * t
  {
    var x, y := d * k, q * v;
    assert (s * d) * k == s * x by { MulAssoc(s, d, k); }
    assert (t * q) * v == t * y by { MulAssoc(t, q, v); }
    assert (x * q) * v == x * y by { MulAssoc(x, q, v); }
    assert (s * x) * (t * y) == (s * (x * y)) * t by { FourFactors(s, x, t, y); }
  }

  lemma {:induction false} FourFactors(s: int, x: int, t: int, y: int)
    ensures (s * x) * (t * y) == (s * (x * y)) * t
  {
    MulAssoc(s * x, t, y);
    MulSwap(s * x, t, y);
    MulAssoc(s, x, y);
  }

  /** The sides of a quotient do not depend on how it is written. */
  lemma {:induction false} SameSideCross(z: int, n: int, b: int, n': int, b': int)
    requires 0 < b && 0 < b' && n * b' == n' * b
    ensures SameSide(z, n, b) <==> SameSide(z, n', b')
  {
    forall m: int ensures (n < (8 * m) * b <==> n' < (8 * m) * b') && (n == (8 * m) * b <==> n' == (8 * m) * b') {
      SameOrder(n, b, n', b', 8 * m);
    }
  }

  lemma {:induction false} SameOrder(n: int, b: int, n': int, b': int, k: int)
    requires 0 < b && 0 < b' && n * b' == n' * b
    ensures (n < k * b <==> n' < k * b') && (n == k * b <==> n' == k * b')
  {
    assert (k * b) * b' == (k * b') * b by { MulSwap(k, b, b'); }
    Ordered(n, k * b, b');
    Ordered(n', k * b', b);
  }

  lemma {:induction false} Ordered(x: int, y: int, c: int)
    requires 0 < c
    ensures (x < y <==> x * c < y * c) && (x == y <==> x * c == y * c)
  {
    if x < y { MulLeft(c, x + 1, y); assert (x + 1) * c == x * c + c; }
    if y < x { MulLeft(c, y + 1, x); assert (y + 1) * c == y * c + c; }
  }
}
