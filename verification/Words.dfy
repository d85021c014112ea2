/** Machine words and the two-word primitives of SoftFloat.
    A `struct uint128` is a pair of 64-bit words; each primitive is written
    word by word, as the C code writes it, and is proved equal to one
    operation on the 128-bit value modulo 2^128. */
module Words {
  const W16: int := 0x1_0000
  const W32: int := 0x1_0000_0000
  const W64: int := 0x1_0000_0000_0000_0000
  const W128: int := 0x1_0000_0000_0000_0000_0000_0000_0000_0000

  type u16 = x: int | 0 <= x < 0x1_0000
  type u32 = x: int | 0 <= x < 0x1_0000_0000
  type u64 = x: int | 0 <= x < 0x1_0000_0000_0000_0000

  datatype U128 = U128(v64: u64, v0: u64)

  function Val(a: U128): int { a.v64 * W64 + a.v0 }

  /** The two's-complement reading, used by every `& 0x8000000000000000` test. */
  function Signed(a: U128): int {
    if a.v64 < 0x8000_0000_0000_0000 then Val(a) else Val(a) - W128
  }

  predicate Negative(a: U128) { a.v64 >= 0x8000_0000_0000_0000 }

  function Pow2(n: nat): (r: int)
    ensures r >= 1
  {
    if n == 0 then 1 else 2 * Pow2(n - 1)
  }

  lemma {:induction false} Pow2Add(m: nat, n: nat)
    ensures Pow2(m + n) == Pow2(m) * Pow2(n)
  {
    if m == 0 {
    } else {
      Pow2Add(m - 1, n);
      assert Pow2(m + n) == 2 * (Pow2(m - 1) * Pow2(n));
    }
  }

  lemma {:induction false} Pow2Monotone(m: nat, n: nat)
    requires m <= n
    ensures Pow2(m) <= Pow2(n)
  {
    Pow2Add(m, n - m);
    MulLeft(Pow2(m), 1, Pow2(n - m));
  }

  lemma {:induction false} Pow2Values()
    ensures Pow2(1) == 2 && Pow2(16) == W16 && Pow2(32) == W32 && Pow2(64) == W64 && Pow2(128) == W128
    ensures Pow2(29) == 0x2000_0000
  {
    assert Pow2(8) == 0x100;
    Pow2Add(8, 8);
    Pow2Add(16, 16);
    Pow2Add(32, 32);
    Pow2Add(64, 64);
    assert Pow2(13) == 0x2000;
    Pow2Add(16, 13);
  }

  // ---- arithmetic facts the solver needs one at a time ----

  lemma {:induction false} MulLeft(k: int, x: int, y: int)
    requires 0 <= k && x <= y
    ensures k * x <= k * y
  {}

  lemma {:induction false} MulAssoc(x: int, y: int, z: int)
    ensures (x * y) * z == x * (y * z)
  {}

  lemma {:induction false} MulSwap(x: int, y: int, z: int)
    ensures (x * y) * z == (x * z) * y
  {}

  /** The quotient and remainder by a positive divisor are determined by their defining equation. */
  lemma {:induction false} DivModUnique(n: int, d: int, q: int, r: int)
    requires 0 < d && n == q * d + r && 0 <= r < d
    ensures n / d == q && n % d == r
  {
    var q', r' := n / d, n % d;
    assert n == q' * d + r';
    assert (q - q') * d == r' - r;
    if q - q' >= 1 { MulLeft(d, 1, q - q'); }
    if q - q' <= -1 { MulLeft(d, q - q', -1); }
  }

  lemma {:induction false} ModOffset(n: int, d: int, k: int)
    requires 0 < d
    ensures (n + k * d) % d == n % d
  {
    var q, r := n / d, n % d;
    assert n + k * d == (q + k) * d + r;
    DivModUnique(n + k * d, d, q + k, r);
  }

  // ---- s_add128.c, s_sub128.c, s_le128.c, s_lt128.c ----

  function Add128(a: U128, b: U128): (z: U128)
    ensures Val(z) == (Val(a) + Val(b)) % W128
  {
    var v0 := (a.v0 + b.v0) % W64;
    AddCarry(a, b);
    U128((a.v64 + b.v64 + (if v0 < a.v0 then 1 else 0)) % W64, v0)
  }

  function Sub128(a: U128, b: U128): (z: U128)
    ensures Val(z) == (Val(a) - Val(b)) % W128
  {
    var v0 := (a.v0 - b.v0) % W64;
    SubBorrow(a, b);
    U128((a.v64 - b.v64 - (if a.v0 < b.v0 then 1 else 0)) % W64, v0)
  }

  lemma {:induction false} AddCarry(a: U128, b: U128)
    ensures var v0 := (a.v0 + b.v0) % W64;
            ((a.v64 + b.v64 + (if v0 < a.v0 then 1 else 0)) % W64) * W64 + v0 == (Val(a) + Val(b)) % W128
  {
    var c := if a.v0 + b.v0 >= W64 then 1 else 0;
    var t := a.v64 + b.v64 + c;
    DivModUnique(a.v0 + b.v0, W64, c, a.v0 + b.v0 - c * W64);
    DivModUnique(Val(a) + Val(b), W128, t / W64, (t % W64) * W64 + (a.v0 + b.v0) % W64);
  }

  lemma {:induction false} SubBorrow(a: U128, b: U128)
    ensures ((a.v64 - b.v64 - (if a.v0 < b.v0 then 1 else 0)) % W64) * W64 + (a.v0 - b.v0) % W64
         == (Val(a) - Val(b)) % W128
  {
    var c := if a.v0 < b.v0 then 1 else 0;
    var t := a.v64 - b.v64 - c;
    DivModUnique(a.v0 - b.v0, W64, -c, a.v0 - b.v0 + c * W64);
    DivModUnique(Val(a) - Val(b), W128, t / W64, (t % W64) * W64 + (a.v0 - b.v0) % W64);
  }

  predicate Le128(a: U128, b: U128)
    ensures Le128(a, b) <==> Val(a) <= Val(b)
  {
    a.v64 < b.v64 || (a.v64 == b.v64 && a.v0 <= b.v0)
  }

  predicate Lt128(a: U128, b: U128)
    ensures Lt128(a, b) <==> Val(a) < Val(b)
  {
    a.v64 < b.v64 || (a.v64 == b.v64 && a.v0 < b.v0)
  }

  // ---- s_shortShiftLeft128.c: the two shifted halves occupy disjoint bits, so `|` is `+` ----

  function ShortShiftLeft128(a: U128, dist: nat): (z: U128)
    requires 1 <= dist <= 63
    ensures Val(z) == (Val(a) * Pow2(dist)) % W128
  {
    ShiftSplit(a.v0, a.v64, dist);
    U128((a.v64 * Pow2(dist)) % W64 + a.v0 / Pow2(64 - dist), (a.v0 * Pow2(dist)) % W64)
  }

  lemma {:induction false} ShiftSplit(x: int, h: int, dist: nat)
    requires 0 <= x < W64 && 0 <= h < W64 && 1 <= dist <= 63
    ensures 0 <= (h * Pow2(dist)) % W64 + x / Pow2(64 - dist) < W64
    ensures ((h * Pow2(dist)) % W64 + x / Pow2(64 - dist)) * W64 + (x * Pow2(dist)) % W64
         == ((h * W64 + x) * Pow2(dist)) % W128
  {
    var p, q := Pow2(dist), Pow2(64 - dist);
    Pow2Add(dist, 64 - dist); Pow2Values();
    ShiftOne(x, p, q);
    ShiftOne(h, p, q);
    ShiftJoin(x, h, p, x / q, h / q, (x * p) % W64, (h * p) % W64);
  }

  lemma {:induction false} ShiftJoin(x: int, h: int, p: int, xt: int, ht: int, xlp: int, hlp: int)
    requires x * p == xt * W64 + xlp && h * p == ht * W64 + hlp
    requires 0 <= xlp < W64 && 0 <= hlp <= W64 - p && 0 <= xt < p
    ensures (hlp + xt) * W64 + xlp == ((h * W64 + x) * p) % W128
  {
    assert (h * W64 + x) * p == (h * p) * W64 + x * p;
    DivModUnique((h * W64 + x) * p, W128, ht, (hlp + xt) * W64 + xlp);
  }

  lemma {:induction false} ShiftOne(x: int, p: int, q: int)
    requires 0 < p && 0 < q && p * q == W64 && 0 <= x < W64
    ensures x * p == (x / q) * W64 + (x * p) % W64
    ensures 0 <= (x * p) % W64 <= W64 - p && 0 <= x / q < p
  {
    var xt, xl := x / q, x % q;
    assert x == xt * q + xl;
    assert x * p == xt * (q * p) + xl * p;
    MulLeft(p, xl, q - 1); MulLeft(p, 0, xl);
    if xt >= p { MulLeft(q, p, xt); }
    DivModUnique(x * p, W64, xt, xl * p);
  }

  // ---- s_mul128By32.c: the middle carry is recovered by a wrapping subtraction ----

  function Mul128By32(a: U128, b: u32): (z: U128)
    ensures Val(z) == (Val(a) * b) % W128
  {
    MulCarry(a.v0, a.v64, b);
    var v0 := (a.v0 * b) % W64;
    var mid := (a.v0 / W32) * b;
    var carry := (v0 / W32 - mid) % W32;
    U128((a.v64 * b + (mid + carry) / W32) % W64, v0)
  }

  lemma {:induction false} MulCarry(x: int, h: int, b: int)
    requires 0 <= x < W64 && 0 <= h < W64 && 0 <= b < W32
    ensures var v0 := (x * b) % W64;
            var mid := (x / W32) * b;
            var carry := (v0 / W32 - mid) % W32;
            (mid + carry) / W32 == (x * b) / W64 &&
            ((h * b + (mid + carry) / W32) % W64) * W64 + v0 == ((h * W64 + x) * b) % W128
  {
    CarryIsMiddle(x, b);
    var top, v0 := (x * b) / W64, (x * b) % W64;
    var t := h * b + top;
    assert (h * W64 + x) * b == (h * b) * W64 + x * b;
    DivModUnique((h * W64 + x) * b, W128, t / W64, (t % W64) * W64 + v0);
  }

  lemma {:induction false} CarryIsMiddle(x: int, b: int)
    requires 0 <= x < W64 && 0 <= b < W32
    ensures var mid := (x / W32) * b;
            (mid + ((x * b) % W64 / W32 - mid) % W32) / W32 == (x * b) / W64
  {
    var hi, lo := x / W32, x % W32;
    assert x * b == (hi * b) * W32 + lo * b by { assert x == hi * W32 + lo; }
    MulLeft(b, 0, lo); MulLeft(b, lo, W32 - 1);
    CarryLinear(x * b, hi * b, lo * b);
  }

  lemma {:induction false} CarryLinear(xb: int, mid: int, lb: int)
    requires xb == mid * W32 + lb && 0 <= lb < W32 * W32
    ensures (mid + (xb % W64 / W32 - mid) % W32) / W32 == xb / W64
  {
    var c, top := lb / W32, xb / W64;
    assert xb % W64 / W32 == mid + c - top * W32;
    ModOffset(c, W32, -top);
    DivModUnique(mid + c, W32, top, xb % W64 / W32);
  }

  // ---- signed readings ----

  lemma {:induction false} SignedWrap(a: U128, v: int)
    requires -0x8000_0000_0000_0000_0000_0000_0000_0000 <= v < 0x8000_0000_0000_0000_0000_0000_0000_0000
    requires Val(a) == v % W128
    ensures Signed(a) == v && (Negative(a) <==> v < 0)
  {
    if v >= 0 { DivModUnique(v, W128, 0, v); } else { DivModUnique(v, W128, -1, v + W128); }
  }

  lemma {:induction false} SubMods(a: int, b: int)
    ensures (a % W128 - b % W128) % W128 == (a - b) % W128
  {
    var k := a / W128 - b / W128;
    assert a - b == (a % W128 - b % W128) + k * W128;
    ModOffset(a % W128 - b % W128, W128, k);
  }

  lemma {:induction false} AddMods(a: int, b: int)
    ensures (a % W128 + b % W128) % W128 == (a + b) % W128
  {
    var k := a / W128 + b / W128;
    assert a + b == (a % W128 + b % W128) + k * W128;
    ModOffset(a % W128 + b % W128, W128, k);
  }

  lemma {:induction false} SignedMod(a: U128)
    ensures Val(a) == Signed(a) % W128
  {
    if Negative(a) { ModOffset(Val(a), W128, -1); }
  }

  /** The sum of two signed readings that does not overflow. */
  lemma {:induction false} SignedAdd(a: U128, b: U128)
    requires -(W128 / 2) <= Signed(a) + Signed(b) < W128 / 2
    ensures Signed(Add128(a, b)) == Signed(a) + Signed(b)
    ensures Negative(Add128(a, b)) <==> Signed(a) + Signed(b) < 0
  {
    SignedMod(a); SignedMod(b);
    AddMods(Signed(a), Signed(b));
    SignedWrap(Add128(a, b), Signed(a) + Signed(b));
  }

  lemma {:induction false} SignedSub(a: U128, b: U128)
    requires -(W128 / 2) <= Signed(a) - Signed(b) < W128 / 2
    ensures Signed(Sub128(a, b)) == Signed(a) - Signed(b)
    ensures Negative(Sub128(a, b)) <==> Signed(a) - Signed(b) < 0
  {
    SignedMod(a); SignedMod(b);
    SubMods(Signed(a), Signed(b));
    SignedWrap(Sub128(a, b), Signed(a) - Signed(b));
  }

  /** Shifting the remainder and subtracting a multiple wraps, but the difference does not. */
  lemma {:induction false} ShiftSubtract(rem: U128, dist: nat, sigB: U128, q: u32, v: int)
    requires 1 <= dist <= 63 && v == Val(rem) * Pow2(dist) - Val(sigB) * q
    requires -(W128 / 2) <= v < W128 / 2
    ensures Signed(Sub128(ShortShiftLeft128(rem, dist), Mul128By32(sigB, q))) == v
    ensures Negative(Sub128(ShortShiftLeft128(rem, dist), Mul128By32(sigB, q))) <==> v < 0
  {
    SubMods(Val(rem) * Pow2(dist), Val(sigB) * q);
    SignedWrap(Sub128(ShortShiftLeft128(rem, dist), Mul128By32(sigB, q)), v);
  }
}
