/** The table-driven reciprocal estimate used by the SoftFloat remainder and
    division routines, and the accuracy contract they rely on. */
module Recip {
  import opened Words

  // The tables softfloat_approxRecip_1k0s and softfloat_approxRecip_1k1s.
  function K0(i: int): int {
    if i == 0 then 0xFFC4 else if i == 1 then 0xF0BE else if i == 2 then 0xE363 else if i == 3 then 0xD76F else
    if i == 4 then 0xCCAD else if i == 5 then 0xC2F0 else if i == 6 then 0xBA16 else if i == 7 then 0xB201 else
    if i == 8 then 0xAA97 else if i == 9 then 0xA3C6 else if i == 10 then 0x9D7A else if i == 11 then 0x97A6 else
    if i == 12 then 0x923C else if i == 13 then 0x8D32 else if i == 14 then 0x887E else 0x8417
  }

  function K1(i: int): int {
    if i == 0 then 0xF0F1 else if i == 1 then 0xD62C else if i == 2 then 0xBFA1 else if i == 3 then 0xAC77 else
    if i == 4 then 0x9C0A else if i == 5 then 0x8DDB else if i == 6 then 0x8185 else if i == 7 then 0x76BA else
    if i == 8 then 0x6D3B else if i == 9 then 0x64D4 else if i == 10 then 0x5D5C else if i == 11 then 0x56B1 else
    if i == 12 then 0x50B6 else if i == 13 then 0x4B55 else if i == 14 then 0x4679 else 0x4211
  }

  const P37: int := 0x20_0000_0000
  const P47: int := 0x8000_0000_0000
  const P48: int := 0x1_0000_0000_0000
  const P57: int := 0x200_0000_0000_0000
  const P63: int := 0x8000_0000_0000_0000
  const P67: int := 0x8_0000_0000_0000_0000

  /** 2^63 / a is the true reciprocal of the 1.31 fixed-point number a, in units of 2^-32. */
  ghost predicate RecipOk(a: int, r: int) {
    0 <= r < W32 && r * a < P63 && 125 * (P63 - r * a) <= 251 * a
  }

  function Interpolate(k0: int, k1: int, eps: int): int { (k0 - (k1 * eps) / 0x10_0000) % W16 }

  function R0(a: u32): int {
    var index := (a / 0x800_0000) % 16;
    Interpolate(K0(index), K1(index), (a / 0x800) % W16)
  }

  function Sigma0(r0: int, a: u32): int { (W32 - 1 - (r0 * a) / 128) % W32 }

  function Wrap32(x: int): u32 { x % W32 }

  function Square0(sigma0: int): int { (sigma0 * sigma0) / W32 }

  function Refine(r0: int, sigma0: int, sqrSigma0: int): u32 {
    var r := Wrap32(r0 * 0x1_0000 + (r0 * sigma0) / 0x100_0000);
    Wrap32(r + (r * sqrSigma0) / P48)
  }

  function ApproxRecip32(a: u32): u32 {
    var r0 := R0(a);
    var sigma0 := Sigma0(r0, a);
    Refine(r0, sigma0, Square0(sigma0))
  }

  // ---- the first estimate: r0 * a lies in [2^47 - 2^37, 2^47) ----

  /** What the two tables must satisfy: with the rounding slack of one unit, the interpolation
      parabola stays strictly below 2^67, and both ends of each segment are high enough. */
  predicate Segment(k0: int, k: int, base: int) {
    var p := (k0 + 1) * 0x10_0000;
    var p' := k0 * 0x10_0000;
    var c0 := P67 - p * (base + 2048);
    var c1 := p * 2048 - k * (base + 2048);
    && 4 * c0 * (k * 2048) > c1 * c1
    && p' * base >= P67 - P57
    && (p' - k * 65535) * (base + 2048 * 65535) >= P67 - P57
    && 0 < k < W16 && k * 65535 < p' < W16 * 0x10_0000
  }

  predicate SegmentOk(i: int)
    requires 0 <= i < 16
  {
    Segment(K0(i), K1(i), 0x8000_0000 + i * 0x800_0000)
  }

  lemma {:induction false} Segments0To3()
    ensures forall i | 0 <= i <= 3 :: SegmentOk(i)
  {
    assert Segment(0xFFC4, 0xF0F1, 0x80000000);
    assert Segment(0xF0BE, 0xD62C, 0x88000000);
    assert Segment(0xE363, 0xBFA1, 0x90000000);
    assert Segment(0xD76F, 0xAC77, 0x98000000);
  }

  lemma {:induction false} Segments4To7()
    ensures forall i | 4 <= i <= 7 :: SegmentOk(i)
  {
    assert Segment(0xCCAD, 0x9C0A, 0xA0000000);
    assert Segment(0xC2F0, 0x8DDB, 0xA8000000);
    assert Segment(0xBA16, 0x8185, 0xB0000000);
    assert Segment(0xB201, 0x76BA, 0xB8000000);
  }

  lemma {:induction false} Segments8To11()
    ensures forall i | 8 <= i <= 11 :: SegmentOk(i)
  {
    assert Segment(0xAA97, 0x6D3B, 0xC0000000);
    assert Segment(0xA3C6, 0x64D4, 0xC8000000);
    assert Segment(0x9D7A, 0x5D5C, 0xD0000000);
    assert Segment(0x97A6, 0x56B1, 0xD8000000);
  }

  lemma {:induction false} Segments12To15()
    ensures forall i | 12 <= i <= 15 :: SegmentOk(i)
  {
    assert Segment(0x923C, 0x50B6, 0xE0000000);
    assert Segment(0x8D32, 0x4B55, 0xE8000000);
    assert Segment(0x887E, 0x4679, 0xF0000000);
    assert Segment(0x8417, 0x4211, 0xF8000000);
  }

  lemma {:induction false} SegmentsOk(i: int)
    requires 0 <= i < 16
    ensures SegmentOk(i)
  {
    Segments0To3(); Segments4To7(); Segments8To11(); Segments12To15();
  }

  lemma {:induction false} QuadPositive(c0: int, c1: int, c2: int, e: int)
    requires c2 > 0 && 4 * c0 * c2 > c1 * c1
    ensures c0 - c1 * e + c2 * (e * e) > 0
  {
    var f := c0 - c1 * e + c2 * (e * e);
    var t := 2 * c2 * e - c1;
    assert t * t == 4 * c2 * (c2 * (e * e)) - 4 * c2 * (c1 * e) + c1 * c1;
    assert 4 * c2 * f == 4 * c0 * c2 - 4 * c2 * (c1 * e) + 4 * c2 * (c2 * (e * e));
    assert 4 * c2 * f == t * t + 4 * c0 * c2 - c1 * c1;
    assert t * t >= 0;
    if f <= 0 { MulLeft(4 * c2, f, 0); }
  }

  /** A concave parabola on [0, n] is no lower than the smaller of its ends. */
  lemma {:induction false} ConcaveAbove(f0: int, s: int, c: int, n: int, e: int, lo: int)
    requires 0 <= e <= n && 0 <= c
    requires f0 >= lo && f0 + s * n - c * (n * n) >= lo
    ensures f0 + s * e - c * (e * e) >= lo
  {
    if s >= c * e {
      MulLeft(e, c * e, s);
    } else {
      MulLeft(c, e, e + n);
      MulLeft(n - e, 0, c * (e + n) - s);
      Chord(s, c, n, e);
    }
  }

  lemma {:induction false} Chord(s: int, c: int, n: int, e: int)
    ensures (n - e) * (c * (e + n) - s) == (s * e - c * (e * e)) - (s * n - c * (n * n))
  {
    assert (n - e) * (c * (e + n)) == c * ((n - e) * (n + e));
    assert (n - e) * (n + e) == n * n - e * e;
  }

  lemma {:induction false} Expand(p: int, k: int, b: int, m: int, e: int)
    ensures (p - k * e) * (b + m * e) == p * b + (p * m - k * b) * e - (k * m) * (e * e)
  {
    assert (p - k * e) * (b + m * e) == p * b + p * (m * e) - (k * e) * b - (k * e) * (m * e);
    assert p * (m * e) == (p * m) * e;
    assert (k * e) * b == (k * b) * e;
    assert (k * e) * (m * e) == (k * m) * (e * e);
    assert (p * m - k * b) * e == (p * m) * e - (k * b) * e;
  }

  lemma {:induction false} FirstEstimate(a: u32)
    requires 0x8000_0000 <= a
    ensures 0 < R0(a) < W16
    ensures P47 - P37 <= R0(a) * a < P47
  {
    var i, eps, l := (a / 0x800_0000) % 16, (a / 0x800) % W16, a % 0x800;
    Fields(a);
    SegmentBounds(i, eps);
    EstimateBounds(K0(i), K1(i) * eps, 0x8000_0000 + i * 0x800_0000, eps, l, a);
  }

  lemma {:induction false} SegmentBounds(i: int, eps: int)
    requires 0 <= i < 16 && 0 <= eps < W16
    ensures var base := 0x8000_0000 + i * 0x800_0000;
            ((K0(i) + 1) * 0x10_0000 - K1(i) * eps) * (base + 2048 + 2048 * eps) < P67 &&
            (K0(i) * 0x10_0000 - K1(i) * eps) * (base + 2048 * eps) >= P67 - P57
    ensures 0 <= K1(i) * eps < K0(i) * 0x10_0000 < W16 * 0x10_0000
  {
    SegmentsOk(i);
    ParabolaBelow(K0(i), K1(i), 0x8000_0000 + i * 0x800_0000, eps);
    ParabolaAbove(K0(i), K1(i), 0x8000_0000 + i * 0x800_0000, eps);
    MulLeft(K1(i), 0, eps); MulLeft(K1(i), eps, 65535);
  }

  lemma {:induction false} Fields(a: int)
    requires 0x8000_0000 <= a < W32
    ensures a == 0x8000_0000 + ((a / 0x800_0000) % 16) * 0x800_0000 + 2048 * ((a / 0x800) % W16) + a % 0x800
  {
    var t := a / 0x800;
    assert a == t * 0x800 + a % 0x800;
    assert a / 0x800_0000 == t / W16;
    assert t == (t / W16) * W16 + t % W16;
  }

  lemma {:induction false} EstimateBounds(k0: int, ke: int, base: int, eps: int, l: int, a: int)
    requires ((k0 + 1) * 0x10_0000 - ke) * (base + 2048 + 2048 * eps) < P67
    requires (k0 * 0x10_0000 - ke) * (base + 2048 * eps) >= P67 - P57
    requires 0 <= ke < k0 * 0x10_0000 < W16 * 0x10_0000
    requires 0 <= eps && 0 <= l < 2048 && 0 < base && a == base + 2048 * eps + l
    ensures 0 < (k0 - ke / 0x10_0000) % W16 < W16
    ensures P47 - P37 <= ((k0 - ke / 0x10_0000) % W16) * a < P47
  {
    var r0 := k0 - ke / 0x10_0000;
    DivModUnique(r0, W16, 0, r0);
    Sandwich(k0 * 0x10_0000 - ke, r0, (k0 + 1) * 0x10_0000 - ke, base + 2048 * eps, a, base + 2048 + 2048 * eps);
  }

  lemma {:induction false} ParabolaBelow(k0: int, k: int, base: int, eps: int)
    requires Segment(k0, k, base)
    ensures ((k0 + 1) * 0x10_0000 - k * eps) * (base + 2048 + 2048 * eps) < P67
  {
    var p, b := (k0 + 1) * 0x10_0000, base + 2048;
    Expand(p, k, b, 2048, eps);
    QuadPositive(P67 - p * b, p * 2048 - k * b, k * 2048, eps);
  }

  lemma {:induction false} ParabolaAbove(k0: int, k: int, base: int, eps: int)
    requires Segment(k0, k, base) && 0 <= eps < W16
    ensures (k0 * 0x10_0000 - k * eps) * (base + 2048 * eps) >= P67 - P57
  {
    var p := k0 * 0x10_0000;
    Expand(p, k, base, 2048, eps);
    Expand(p, k, base, 2048, 65535);
    ConcaveAbove(p * base, p * 2048 - k * base, k * 2048, 65535, eps, P67 - P57);
  }

  lemma {:induction false} Sandwich(lo: int, r0: int, hi: int, al: int, a: int, ah: int)
    requires 0 < lo <= 0x10_0000 * r0 < hi && 0 < al <= a <= ah
    requires hi * ah < P67 && lo * al >= P67 - P57
    ensures P47 - P37 <= r0 * a < P47
  {
    MulLeft(hi, a, ah);
    MulLeft(a, 0x10_0000 * r0, hi);
    MulLeft(lo, al, a);
    MulLeft(a, lo, 0x10_0000 * r0);
    assert a * (0x10_0000 * r0) == 0x10_0000 * (r0 * a);
  }

  // ---- the two Newton-like corrections leave a relative error of x^4 and two floors ----

  // In the lemmas below p = r0 * a, y = r1 * a and dd = d * d.

  lemma {:induction false} AfterFirstUpper(a: int, r0: int, p: int, d: int, s: int, r1: int)
    requires 0 < a && p == r0 * a && p == P47 - d && 0 < p
    requires 0 <= 128 * s <= d
    requires 0x100_0000 * (r1 - r0 * 0x1_0000) <= r0 * s
    ensures 0x8000_0000 * (r1 * a) <= P47 * P47 - d * d
  {
    MulLeft(a, 0x100_0000 * (r1 - r0 * 0x1_0000), r0 * s);
    Scale24(a, r0, r1, 0);
    Swap(a, r0, s);
    MulLeft(p, 128 * s, d);
    SquareOf(p, d);
    Linear1(r1 * a, p, d, p * s, p * d, d * d);
  }

  lemma {:induction false} Linear1(y: int, p: int, d: int, ps: int, pd: int, dd: int)
    requires 0x100_0000 * y <= 0x100_0000 * 0x1_0000 * p + ps
    requires 128 * ps <= pd && pd == P47 * d - dd && p == P47 - d
    ensures 0x8000_0000 * y <= P47 * P47 - dd
  {}

  lemma {:induction false} Scale24(a: int, r0: int, r1: int, k: int)
    ensures a * (0x100_0000 * (r1 - r0 * 0x1_0000 + k)) ==
            0x100_0000 * (r1 * a) - 0x100_0000 * 0x1_0000 * (r0 * a) + 0x100_0000 * k * a
  {}

  lemma {:induction false} Scale48(a: int, r: int, r1: int, k: int)
    ensures a * (P48 * (r - r1 + k)) == P48 * (r * a) - P48 * (r1 * a) + P48 * k * a
  {}

  lemma {:induction false} Swap(a: int, x: int, s: int)
    ensures a * (x * s) == (x * a) * s
  {}

  lemma {:induction false} SquareOf(p: int, d: int)
    requires p == P47 - d
    ensures p * d == P47 * d - d * d
  {}

  lemma {:induction false} SquareLe(x: int, y: int)
    requires 0 <= x <= y
    ensures x * x <= y * y
  { MulLeft(x, x, y); MulLeft(y, x, y); }

  lemma {:induction false} RecipUpper(a: int, r0: int, d: int, s: int, r1: int, sq: int, r: int)
    requires 0 < a && r0 * a == P47 - d && 0 < d <= P37 && 0 < r0
    requires 0 <= 128 * s <= d - 1
    requires 0x100_0000 * (r1 - r0 * 0x1_0000) <= r0 * s && 0 <= r1
    requires W32 * sq <= s * s && 0 <= sq
    requires P48 * (r - r1) <= r1 * sq
    ensures r * a < P63
  {
    AfterFirstUpper(a, r0, r0 * a, d, s, r1);
    SquareLe(128 * s, d); SquareLe(1, d); SquareLe(d, P37);
    assert 0x4000_0000_0000 * sq <= d * d by { assert (128 * s) * (128 * s) == 0x4000 * (s * s); }
    MulLeft(a, P48 * (r - r1), r1 * sq);
    Scale48(a, r, r1, 0);
    Swap(a, r1, sq);
    MulLeft(r1, 0, a);
    UpperTail(r1 * a, r * a, sq, d * d);
  }

  lemma {:induction false} UpperTail(y: int, ra: int, sq: int, dd: int)
    requires 0 <= y && 0x8000_0000 * y <= P47 * P47 - dd && 0x4000_0000_0000 * sq <= dd && 0 < dd <= P37 * P37
    requires P48 * ra <= P48 * y + y * sq
    ensures ra < P63
  {
    var n := P47 * P47;
    MulLeft(y, 0x4000_0000_0000 * sq, dd);
    assert y * (0x4000_0000_0000 * sq) == 0x4000_0000_0000 * (y * sq);
    assert n * ra <= n * y + y * dd;
    MulLeft(n + dd, 0x8000_0000 * y, n - dd);
    assert (n + dd) * (0x8000_0000 * y) == 0x8000_0000 * (n * y + y * dd);
    assert (n + dd) * (n - dd) == n * n - dd * dd;
    MulLeft(dd, 1, dd);
  }

  lemma {:induction false} AfterFirstLower(a: int, r0: int, p: int, d: int, s: int, r1: int)
    requires 0 < a && p == r0 * a && p == P47 - d && 0 < p
    requires d <= 128 * s + 128
    requires r0 * s < 0x100_0000 * (r1 - r0 * 0x1_0000 + 1)
    ensures 0x8000_0000 * (r1 * a) >= P47 * P47 - d * d - 128 * p - 0x8000_0000 * a
  {
    MulLeft(a, r0 * s, 0x100_0000 * (r1 - r0 * 0x1_0000 + 1));
    Scale24(a, r0, r1, 1);
    Swap(a, r0, s);
    MulLeft(p, d, 128 * s + 128);
    SquareOf(p, d);
    assert p * (128 * s + 128) == 128 * (p * s) + 128 * p;
    Linear2(r1 * a, a, p, d, p * s, p * d, d * d);
  }

  lemma {:induction false} Linear2(y: int, a: int, p: int, d: int, ps: int, pd: int, dd: int)
    requires 0x100_0000 * y >= 0x100_0000 * 0x1_0000 * p - 0x100_0000 * a + ps
    requires pd <= 128 * ps + 128 * p && pd == P47 * d - dd && p == P47 - d
    ensures 0x8000_0000 * y >= P47 * P47 - dd - 128 * p - 0x8000_0000 * a
  {}

  lemma {:induction false} SqrSigmaLower(d: int, s: int, sq: int)
    requires 0 < d <= P37 && d <= 128 * s + 128 && 0 <= 128 * s <= d && s * s < W32 * (sq + 1)
    ensures d * d <= 0x4000_0000_0000 * (sq + 2)
  {
    SquareLe(d, 128 * s + 128);
    assert (128 * s + 128) * (128 * s + 128) == 0x4000 * (s * s) + 0x8000 * s + 0x4000;
  }

  lemma {:induction false} RecipLower(a: int, r0: int, d: int, s: int, r1: int, sq: int, r: int)
    requires 0x8000_0000 <= a < W32 && r0 * a == P47 - d && 0 < d <= P37 && 0 < r0
    requires d <= 128 * s + 128 && 0 <= 128 * s <= d
    requires r0 * s < 0x100_0000 * (r1 - r0 * 0x1_0000 + 1) && 0 <= r1
    requires s * s < W32 * (sq + 1) && 0 <= sq
    requires r1 * sq < P48 * (r - r1 + 1)
    ensures 125 * (P63 - r * a) <= 251 * a
  {
    AfterFirstLower(a, r0, r0 * a, d, s, r1);
    SqrSigmaLower(d, s, sq);
    MulLeft(a, r1 * sq, P48 * (r - r1 + 1));
    Scale48(a, r, r1, 1);
    Swap(a, r1, sq);
    MulLeft(r1, 0, a);
    MulLeft(r1 * a, d * d, 0x4000_0000_0000 * (sq + 2));
    Linear3(r1 * a, r * a, a, sq, (r1 * a) * sq, (r1 * a) * (d * d));
    RecipTail(a, r0 * a, d, d * d, r1 * a, r * a);
  }

  lemma {:induction false} Linear3(y: int, ra: int, a: int, sq: int, ysq: int, ydd: int)
    requires ysq == y * sq && ydd <= y * (0x4000_0000_0000 * (sq + 2))
    requires P48 * ra >= P48 * y - P48 * a + ysq
    ensures P47 * P47 * ra >= P47 * P47 * y + ydd - P47 * y - P47 * P47 * a
  {
    assert y * (0x4000_0000_0000 * (sq + 2)) == 0x4000_0000_0000 * ysq + 0x8000_0000_0000 * y;
  }

  lemma {:induction false} RecipTail(a: int, p: int, d: int, dd: int, y: int, ra: int)
    requires 0x8000_0000 <= a < W32 && 0 < d <= P37 && dd == d * d && 0 < p < P47 && 0 <= y
    requires 0x8000_0000 * y >= P47 * P47 - dd - 128 * p - 0x8000_0000 * a
    requires P47 * P47 * ra >= P47 * P47 * y + y * dd - P47 * y - P47 * P47 * a
    ensures 125 * (P63 - ra) <= 251 * a
  {
    SquareLe(d, P37);
    var n := P47 * P47;
    var loss := dd + 128 * p + 0x8000_0000 * a;
    var w := n + dd - P47;
    assert n * y + y * dd - P47 * y == w * y;
    MulLeft(w, n - loss, 0x8000_0000 * y);
    assert w * (0x8000_0000 * y) == 0x8000_0000 * (w * y);
    // w (n - loss) = n^2 - n 2^47 + n dd - w loss, and w <= n + 2^74
    MulLeft(loss, w, n + P37 * P37);
    assert w * (n - loss) == n * n + n * dd - n * P47 - w * loss;
    Linear4(a, p, dd, ra, loss, w * loss);
  }

  lemma {:induction false} Linear4(a: int, p: int, dd: int, ra: int, loss: int, wl: int)
    requires 0x8000_0000 <= a < W32 && 0 <= dd <= P37 * P37 && 0 < p < P47
    requires loss == dd + 128 * p + 0x8000_0000 * a
    requires wl <= (P47 * P47 + P37 * P37) * loss
    requires 0x8000_0000 * (P47 * P47 * ra + P47 * P47 * a)
          >= P47 * P47 * (P47 * P47) + P47 * P47 * dd - P47 * P47 * P47 - wl
    ensures 125 * (P63 - ra) <= 251 * a
  {}

  lemma {:induction false} SigmaRange(r0: int, a: u32, d: int)
    requires r0 * a == P47 - d && 0 < d <= P37
    ensures var s := Sigma0(r0, a); 0 <= 128 * s <= d - 1 && d <= 128 * s + 128 && 0 <= s <= 0x4000_0000
  {
    var m := (P47 - d) / 128;
    DivModUnique(W32 - 1 - m, W32, -255, 256 * W32 - 1 - m);
  }

  /** What the floors of the two correction steps give; neither wraps around. */
  lemma {:induction false} RefineOk(a: u32, r0: int, s: int)
    requires 0x8000_0000 <= a && 0 < r0 < W16 && P47 - P37 <= r0 * a < P47 && s == Sigma0(r0, a)
    ensures RecipOk(a, Refine(r0, s, Square0(s)))
  {
    SigmaRange(r0, a, P47 - r0 * a);
    MulLeft(r0, 0, s); MulLeft(s, 0, s);
    RefineSteps(a, r0, P47 - r0 * a, s, r0 * s, Square0(s));
  }

  lemma {:induction false} RefineSteps(a: u32, r0: int, d: int, s: int, r0s: int, sq: int)
    requires 0x8000_0000 <= a && 0 < r0 && r0 * a == P47 - d && 0 < d <= P37
    requires 0 <= 128 * s <= d - 1 && d <= 128 * s + 128
    requires r0s == r0 * s && 0 <= r0s && 0 <= sq && W32 * sq <= s * s < W32 * (sq + 1)
    ensures RecipOk(a, Refine(r0, s, sq))
  {
    var r1 := r0 * 0x1_0000 + r0s / 0x100_0000;
    MulLeft(r1, 0, sq);
    var r := r1 + (r1 * sq) / P48;
    Floor48(r1 * sq);
    RecipUpper(a, r0, d, s, r1, sq, r);
    RecipLower(a, r0, d, s, r1, sq, r);
    NotW32(a, r);
    RefineValue(r0, s, sq, r1, r);
  }

  lemma {:induction false} RefineValue(r0: int, s: int, sq: int, r1: int, r: int)
    requires r1 == r0 * 0x1_0000 + (r0 * s) / 0x100_0000 && r == r1 + (r1 * sq) / P48
    requires 0 <= r1 <= r < W32
    ensures Refine(r0, s, sq) == r
  {
    assert Wrap32(r1) == r1 && Wrap32(r) == r;
  }

  lemma {:induction false} Floor48(x: int)
    ensures P48 * (x / P48) <= x < P48 * (x / P48 + 1)
  {}

  /** The estimate is never above the true reciprocal and at most 2.008 units in the last place below it. */
  lemma {:induction false} ApproxRecip32Ok(a: u32)
    requires 0x8000_0000 <= a
    ensures RecipOk(a, ApproxRecip32(a))
  {
    FirstEstimate(a);
    RefineOk(a, R0(a), Sigma0(R0(a), a));
  }

  /** No wrap-around: a product below 2^63 with a >= 2^31 keeps the estimate in 32 bits. */
  lemma {:induction false} NotW32(a: int, r: int)
    requires 0x8000_0000 <= a && r * a < P63
    ensures r < W32
  {
    if r >= W32 { MulLeft(r, 0x8000_0000, a); }
  }
}
