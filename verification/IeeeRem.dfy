/** The remainder operation of section 5.3.1 of IEEE 754-2008, on magnitudes scaled to integers. */
module IeeeRem {
  import opened Words

  function Abs(x: int): int { if x < 0 then -x else x }

  /** n is the integer nearest a / b, ties to even. */
  ghost predicate NearestEven(a: int, b: int, n: int) {
    2 * Abs(a - n * b) <= b && (2 * Abs(a - n * b) == b ==> n % 2 == 0)
  }

  /** r is the IEEE remainder of a by b. */
  ghost predicate IeeeRemainder(a: int, b: int, r: int) {
    exists n :: NearestEven(a, b, n) && r == a - n * b
  }

  /** The specification determines the quotient and so the remainder. */
  lemma {:induction false} NearestUnique(a: int, b: int, n: int, n': int)
    requires 0 < b && NearestEven(a, b, n) && NearestEven(a, b, n')
    ensures n == n'
  {
    var d := (n' - n) * b;
    assert (a - n * b) - (a - n' * b) == d;
    if n' - n >= 2 { MulLeft(b, 2, n' - n); }
    if n' - n <= -2 { MulLeft(b, n' - n, -2); }
    assert n' - n == 1 ==> d == b;
    assert n' - n == -1 ==> d == -b;
  }

  lemma {:induction false} ScaleNearest(a: int, b: int, n: int, k: int)
    requires 0 < k && NearestEven(a, b, n)
    ensures NearestEven(a * k, b * k, n) && (a - n * b) * k == a * k - n * (b * k)
  {
    var x := a - n * b;
    assert a * k - n * (b * k) == x * k by { assert n * (b * k) == (n * b) * k; }
    ScaleAbs(x, b, k);
  }

  lemma {:induction false} ScaleAbs(x: int, b: int, k: int)
    requires 0 < k && 2 * Abs(x) <= b
    ensures 2 * Abs(x * k) <= b * k && (2 * Abs(x * k) == b * k ==> 2 * Abs(x) == b)
  {
    if x >= 0 { MulLeft(k, 0, x); } else { MulLeft(k, x, 0); }
    assert Abs(x * k) == k * Abs(x);
    MulLeft(k, 2 * Abs(x), b);
    if 2 * Abs(x) < b { MulLeft(k, 2 * Abs(x), b - 1); }
  }

  /** Removing an even multiple of the divisor first does not change which quotient is nearest. */
  lemma {:induction false} ShiftQuotient(a: int, b: int, base: int, n0: int)
    requires NearestEven(a - base * b, b, n0) && base % 2 == 0
    ensures NearestEven(a, b, base + n0) && a - (base + n0) * b == (a - base * b) - n0 * b
  {
    assert (base + n0) * b == base * b + n0 * b;
  }
}
