/** f128_roundToInt, the two-word form. */
module F128Round {
  import opened Words
  import opened RoundSpec

  const P48: int := 0x1_0000_0000_0000
  const P63: int := 0x8000_0000_0000_0000

  /** A NaN outcome stands for the call of softfloat_propagateNaNF128UI. */
  datatype Outcome = PropagateNaN | Value(z: U128, inexactRaised: bool)

  function Code(a: U128): u128 { Val(a) }

  lemma {:induction false} FieldsOfWords(a: U128)
    ensures SignOf(Code(a)) <==> a.v64 >= P63
    ensures ExpOf(Code(a)) == (a.v64 / P48) % 0x8000
    ensures FracOf(Code(a)) == (a.v64 % P48) * W64 + a.v0
  {
    DivModUnique(Code(a), P112, a.v64 / P48, (a.v64 % P48) * W64 + a.v0);
  }

  // ---- the last kept bit in the low word: 0x402F <= exponent < 0x406F ----

  lemma {:induction false} LowPart(v64: int, v0: int, d: int, c: int)
    requires 0 < d && c * d == W64 && 0 <= v0 < W64
    ensures (v64 * W64 + v0) % d == v0 % d
    ensures (v64 * W64 + v0) / d == v64 * c + v0 / d
  {
    MulAssoc(v64, c, d);
    assert v64 * W64 + v0 == (v64 * c + v0 / d) * d + v0 % d;
    DivModUnique(v64 * W64 + v0, d, v64 * c + v0 / d, v0 % d);
  }

  /** `uiZ.v0 &= ~roundBitsMask` */
  function MaskLow(a: U128, d: int): U128
    requires 0 < d <= W64
  {
    U128(a.v64, a.v0 - a.v0 % d)
  }

  /** `uiZ.v0 &= ~lastBitMask0` for a one-bit mask */
  function ClearLow(a: U128, d: int): U128
    requires 0 < d
  {
    if (a.v0 / d) % 2 == 1 then AtLeastOne(a.v0, d); U128(a.v64, a.v0 - d) else a
  }

  lemma {:induction false} AtLeastOne(x: int, d: int)
    requires 0 < d && 0 <= x && (x / d) % 2 == 1
    ensures d <= x
  {
    assert x == (x / d) * d + x % d;
    MulLeft(d, 1, x / d);
  }

  lemma {:induction false} MaskLowIs(a: U128, d: int, c: int)
    requires 0 < d && c * d == W64
    ensures d <= W64 && Val(MaskLow(a, d)) == Val(a) - Val(a) % d
  {
    if d > W64 { MulLeft(d, 1, c); }
    LowPart(a.v64, a.v0, d, c);
  }

  lemma {:induction false} ClearLowIs(a: U128, d: int, c: int)
    requires 0 < d && c * d == W64 && c % 2 == 0
    ensures Val(ClearLow(a, d)) == if (Val(a) / d) % 2 == 1 then Val(a) - d else Val(a)
  {
    LowPart(a.v64, a.v0, d, c);
    assert a.v64 * c == 2 * (a.v64 * (c / 2));
    ModOffset(a.v0 / d, 2, a.v64 * (c / 2));
  }

  /** f128_roundToInt.c:76-106, with lastBitMask0 = d (0 in the code when d is 2^64) */
  method RoundLow(a: U128, d: int, ghost c: int, mode: int, sign: bool) returns (z: U128)
    requires 2 <= d && c * d == W64 && d % 2 == 0 && (d == W64 || c % 2 == 0) && Val(a) + W64 < W128
    ensures Val(z) == RoundEnc(Val(a), d, mode, sign)
  {
    MaskFits(d, c);
    if mode == NEAR_EVEN || mode == NEAR_MAX_MAG {
      NearMatches(Val(a), d, d / 2, sign);
      if d == W64 {
        z := RoundHalfWord(a, mode);
      } else {
        z := RoundNearLow(a, d, c, mode);
      }
    } else {
      z := RoundDirectedLow(a, d, c, mode, sign);
    }
  }

  method RoundDirectedLow(a: U128, d: int, ghost c: int, mode: int, sign: bool) returns (z: U128)
    requires 2 <= d <= W64 && c * d == W64 && Val(a) + W64 < W128 && mode != NEAR_EVEN && mode != NEAR_MAX_MAG
    ensures Val(z) == RoundEnc(Val(a), d, mode, sign)
  {
    if mode == (if sign then MIN else MAX) {
      z := AddSmall(a, d - 1);
      UpMatches(Val(a), d, mode, sign);
      MaskLowIs(z, d, c);
      z := MaskLow(z, d);
    } else {
      TruncMatches(Val(a), d, mode, sign);
      MaskLowIs(a, d, c);
      z := MaskLow(a, d);
    }
  }

  lemma {:induction false} MaskFits(d: int, c: int)
    requires 0 < d && c * d == W64
    ensures d <= W64
  {
    if d > W64 { MulLeft(d, 1, c); }
  }

  method AddSmall(a: U128, x: u64) returns (z: U128)
    requires Val(a) + x < W128
    ensures Val(z) == Val(a) + x
  {
    z := Add128(a, U128(0, x));
    DivModUnique(Val(a) + x, W128, 0, Val(a) + x);
  }

  method RoundNearLow(a: U128, d: int, ghost c: int, mode: int) returns (z: U128)
    requires 0 < d && d % 2 == 0 && c * d == W64 && c % 2 == 0 && Val(a) + W64 < W128
    requires mode == NEAR_EVEN || mode == NEAR_MAX_MAG
    ensures var w := Val(a) + d / 2;
            Val(z) == if mode == NEAR_EVEN && w % d == 0 && (w / d) % 2 == 1 then w - d else w - w % d
  {
    MaskFits(d, c);
    z := AddSmall(a, d / 2);
    LowPart(z.v64, z.v0, d, c);
    if mode == NEAR_EVEN && z.v0 % d == 0 {
      ClearLowIs(z, d, c);
      ghost var w := Val(z);
      z := ClearLow(z, d);
      assert Val(z) % d == 0 by { if Val(z) != w { ModOffset(w, d, -1); } }
    }
    MaskLowIs(z, d, c);
    z := MaskLow(z, d);
  }

  /** The boundary case exp == 0x402F: the rounding bit is bit 63 of the low word. */
  method RoundHalfWord(a: U128, mode: int) returns (z: U128)
    requires Val(a) + W64 < W128 && (mode == NEAR_EVEN || mode == NEAR_MAX_MAG)
    ensures var w := Val(a) + P63;
            Val(z) == if mode == NEAR_EVEN && w % W64 == 0 && (w / W64) % 2 == 1 then w - W64 else w - w % W64
  {
    ghost var w := Val(a) + P63;
    z := a;
    if P63 <= z.v0 {
      z := U128(z.v64 + 1, z.v0);
      DivModUnique(w, W64, z.v64, a.v0 - P63);
      if mode == NEAR_EVEN && z.v0 == P63 {
        z := U128(z.v64 - z.v64 % 2, z.v0);
      }
    } else {
      DivModUnique(w, W64, z.v64, a.v0 + P63);
    }
    z := U128(z.v64, 0);
  }

  // ---- the last kept bit in the high word: 0x3FFF <= exponent < 0x402F ----

  lemma {:induction false} HighPart(v64: int, v0: int, d: int)
    requires 0 < d && 0 <= v0 < W64
    ensures (v64 * W64 + v0) / (d * W64) == v64 / d
    ensures (v64 * W64 + v0) % (d * W64) == (v64 % d) * W64 + v0
  {
    assert v64 == (v64 / d) * d + v64 % d;
    MulAssoc(v64 / d, d, W64);
    DivModUnique(v64 * W64 + v0, d * W64, v64 / d, (v64 % d) * W64 + v0);
  }

  /** f128_roundToInt.c:137-156, with lastBitMask64 = d */
  method RoundHigh(a: U128, d: int, mode: int, sign: bool) returns (z: U128)
    requires 2 <= d <= P48 && d % 2 == 0 && a.v64 + P48 < W64
    ensures Val(z) == RoundEnc(Val(a), d * W64, mode, sign)
  {
    if mode == NEAR_EVEN || mode == NEAR_MAX_MAG {
      NearMatches(Val(a), d * W64, (d / 2) * W64, sign);
      z := RoundNearHigh(a, d, mode);
    } else {
      z := RoundDirectedHigh(a, d, mode, sign);
    }
  }

  /** `(uiZ.v64 | (uiA0 != 0)) + roundBitsMask` */
  function UpWord(a: U128, d: int): int {
    (if a.v0 != 0 && a.v64 % 2 == 0 then a.v64 + 1 else a.v64) + (d - 1)
  }

  function MaskWord(v: int, d: int): (m: int)
    requires 0 < d && 0 <= v
    ensures 0 <= m <= v
  {
    assert v == (v / d) * d + v % d;
    MulLeft(d, 0, v / d);
    v - v % d
  }

  method RoundDirectedHigh(a: U128, d: int, mode: int, sign: bool) returns (z: U128)
    requires 2 <= d <= P48 && d % 2 == 0 && a.v64 + P48 < W64 && mode != NEAR_EVEN && mode != NEAR_MAX_MAG
    ensures Val(z) == RoundEnc(Val(a), d * W64, mode, sign)
  {
    if mode == (if sign then MIN else MAX) {
      UpHigh(a, d, d / 2, UpWord(a, d));
      UpMatches(Val(a), d * W64, mode, sign);
      z := U128(MaskWord(UpWord(a, d), d), 0);
    } else {
      HighPart(a.v64, a.v0, d);
      TruncMatches(Val(a), d * W64, mode, sign);
      z := U128(MaskWord(a.v64, d), 0);
    }
  }

  /** f128_roundToInt.c:144-147,155: the high word after clearing a tied last bit and masking */
  function NearHighWord(v: int, v0: int, d: int, mode: int): int
    requires 0 < d
  {
    if mode == NEAR_EVEN && v % d == 0 && v0 == 0 && (v / d) % 2 == 1 then v - d else v - v % d
  }

  method RoundNearHigh(a: U128, d: int, mode: int) returns (z: U128)
    requires 2 <= d <= P48 && d % 2 == 0 && a.v64 + P48 < W64
    requires mode == NEAR_EVEN || mode == NEAR_MAX_MAG
    ensures var w := Val(a) + (d / 2) * W64; var dd := d * W64;
            Val(z) == if mode == NEAR_EVEN && w % dd == 0 && (w / dd) % 2 == 1 then w - dd else w - w % dd
  {
    var v := a.v64 + d / 2;
    NearHighValue(v, a.v0, d, mode);
    z := U128(NearHighWord(v, a.v0, d, mode), 0);
  }

  lemma {:induction false} NearHighValue(v: int, v0: int, d: int, mode: int)
    requires 2 <= d && 0 <= v && 0 <= v0 < W64
    ensures var w := v * W64 + v0; var dd := d * W64;
            NearHighWord(v, v0, d, mode) * W64 ==
            if mode == NEAR_EVEN && w % dd == 0 && (w / dd) % 2 == 1 then w - dd else w - w % dd
    ensures 0 <= NearHighWord(v, v0, d, mode) <= v
  {
    HighPart(v, v0, d);
    assert v == (v / d) * d + v % d;
    MulLeft(d, 0, v / d);
    if (v / d) % 2 == 1 { AtLeastOne(v, d); }
  }

  lemma {:induction false} UpHigh(a: U128, d: int, h: int, v: int)
    requires 0 < h && d == 2 * h
    requires v == UpWord(a, d)
    ensures var w := Val(a) + d * W64 - 1; (v - v % d) * W64 == w - w % (d * W64)
  {
    var q, r := a.v64 / d, a.v64 % d;
    assert a.v64 == q * d + r;
    assert r % 2 == a.v64 % 2 by { MulAssoc(q, 2, h); MulSwap(q, 2, h); ModOffset(r, 2, q * h); }
    var up := if r > 0 || a.v0 > 0 then 1 else 0;
    assert (q + up) * d == q * d + up * d;
    DivModUnique(v, d, q + up, v - (q + up) * d);
    var w := Val(a) + d * W64 - 1;
    MulAssoc(q + up, d, W64);
    DivModUnique(w, d * W64, q + up, w - ((q + up) * d) * W64);
  }

  // ---- magnitudes below one: f128_roundToInt.c:110-134 ----

  method RoundBelowOne(a: U128, mode: int) returns (z: U128)
    requires ExpOf(Code(a)) < 0x3FFF
    ensures Val(z) == RoundSmall(Code(a), mode)
  {
    FieldsOfWords(a);
    var exp := (a.v64 / P48) % 0x8000;
    var v64 := if a.v64 >= P63 then P63 else 0;
    if mode == NEAR_EVEN {
      if a.v64 % P48 != 0 || a.v0 != 0 {
        if exp == 0x3FFE { v64 := v64 + 0x3FFF * P48; }
      }
    } else if mode == NEAR_MAX_MAG {
      if exp == 0x3FFE { v64 := v64 + 0x3FFF * P48; }
    } else if mode == MIN {
      if v64 != 0 { v64 := P63 + 0x3FFF * P48; }
    } else if mode == MAX {
      if v64 == 0 { v64 := 0x3FFF * P48; }
    }
    z := U128(v64, 0);
  }

  // ---- the whole function ----

  lemma {:induction false} LowMask(p: nat)
    requires 1 <= p <= 64
    ensures Pow2(64 - p) * Pow2(p) == W64 && 2 <= Pow2(p) && Pow2(p) % 2 == 0
    ensures Pow2(p) == W64 || Pow2(64 - p) % 2 == 0
  {
    WordSplit(p);
    EvenPow(p);
    if p < 64 { EvenPow(64 - p); }
  }

  lemma {:induction false} WordSplit(p: nat)
    requires p <= 64
    ensures Pow2(64 - p) * Pow2(p) == W64 && (p == 64 ==> Pow2(p) == W64)
  {
    Pow2Add(64 - p, p); Pow2Values();
  }

  lemma {:induction false} EvenPow(p: nat)
    requires 1 <= p
    ensures 2 <= Pow2(p) && Pow2(p) % 2 == 0
  {
    assert Pow2(p) == 2 * Pow2(p - 1);
  }

  lemma {:induction false} HighMask(p: nat)
    requires 65 <= p <= 112
    ensures Pow2(p) == Pow2(p - 64) * W64 && 2 <= Pow2(p - 64) <= P48 && Pow2(p - 64) % 2 == 0
  {
    Pow2Add(p - 64, 64); Pow2Values();
    Pow2Below48(p - 64);
  }

  lemma {:induction false} Pow2Below48(k: nat)
    requires 1 <= k <= 48
    ensures 2 <= Pow2(k) <= P48 && Pow2(k) % 2 == 0
  {
    Pow2Values();
    Pow2Add(32, 16);
    Pow2Monotone(k, 48);
  }

  method RoundToInt(a: U128, mode: int, exact: bool) returns (o: Outcome)
    ensures o.PropagateNaN? <==> IsNaN(Code(a))
    ensures o.Value? ==> var r := RoundBits(Code(a), mode); Val(o.z) == r.z && (o.inexactRaised <==> exact && r.inexact)
  {
    FieldsOfWords(a);
    var exp := (a.v64 / P48) % 0x8000;
    if 0x406F <= exp {
      if exp == 0x7FFF && (a.v64 % P48 != 0 || a.v0 != 0) { return PropagateNaN; }
      return Value(a, false);
    }
    if exp < 0x3FFF {
      if exp == 0 && a.v64 % P48 == 0 && a.v0 == 0 { return Value(a, false); }
      var z := RoundBelowOne(a, mode);
      return Value(z, exact);
    }
    var z := RoundMiddle(a, exp, mode);
    ChangedIffInexact(Code(a), mode);
    o := Value(z, exact && z != a);
  }

  method RoundMiddle(a: U128, exp: int, mode: int) returns (z: U128)
    requires exp == ExpOf(Code(a)) && 0x3FFF <= exp < 0x406F
    ensures Val(z) == RoundBits(Code(a), mode).z
  {
    FieldsOfWords(a);
    RoomAbove(a);
    if 0x402F <= exp {
      LowMask(UNIT_EXP - exp);
      z := RoundLow(a, Pow2(UNIT_EXP - exp), Pow2(64 - (UNIT_EXP - exp)), mode, a.v64 >= P63);
    } else {
      HighMask(UNIT_EXP - exp);
      z := RoundHigh(a, Pow2(UNIT_EXP - exp - 64), mode, a.v64 >= P63);
    }
  }

  lemma {:induction false} RoomAbove(a: U128)
    requires ExpOf(Code(a)) < 0x406F
    ensures a.v64 + P48 < W64 && Val(a) + W64 < W128
  {
    FieldsOfWords(a);
    var q := a.v64 / P48;
    assert q < 0x8000 || q - 0x8000 == q % 0x8000;
  }
}
