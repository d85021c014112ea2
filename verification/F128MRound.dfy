/** f128M_roundToInt, the 32-bit-limb form: words are written in place while a carry runs upward. */
module F128MRound {
  import opened Words
  import opened RoundSpec
  import opened Limbs

  datatype Outcome = PropagateNaN | Done(inexactRaised: bool)

  ghost predicate Quad(a: array<u32>) { a.Length == 4 }

  ghost function Code(a: array<u32>): (u: u128)
    requires Quad(a)
    reads a
  {
    FourWords(a[..]);
    V(a[..])
  }

  lemma {:induction false} FourWords(s: seq<u32>)
    requires |s| == 4
    ensures V(s) == s[0] + W32 * s[1] + W64 * s[2] + W64 * W32 * s[3] && 0 <= V(s) < W128
  {
    assert V(s) == s[0] + W32 * V(s[1..]);
    assert V(s[1..]) == s[1] + W32 * V(s[2..]) by { assert s[1..][1..] == s[2..]; }
    assert V(s[2..]) == s[2] + W32 * V(s[3..]) by { assert s[2..][1..] == s[3..]; }
    assert V(s[3..]) == s[3] by { assert s[3..][1..] == []; }
  }

  lemma {:induction false} FieldsOfWords(s: seq<u32>)
    requires |s| == 4
    ensures 0 <= V(s) < W128
    ensures SignOf(V(s)) <==> s[3] >= 0x8000_0000
    ensures ExpOf(V(s)) == (s[3] / W16) % 0x8000
    ensures FracOf(V(s)) == 0 <==> s[3] % W16 == 0 && s[2] == 0 && s[1] == 0 && s[0] == 0
  {
    FourWords(s);
    var low := s[0] + W32 * s[1] + W64 * s[2];
    DivModUnique(V(s), P112, s[3] / W16, (s[3] % W16) * (W64 * W32) + low);
  }

  // ---- the skip loop: f128M_roundToInt.c:151-161 ----

  method SkipWords(a: array<u32>, z: array<u32>, bitPos0: nat) returns (index: nat, bitPos: nat, extra: bool)
    requires Quad(a) && Quad(z) && bitPos0 < 128
    modifies z
    ensures index == bitPos0 / 32 && bitPos == bitPos0 % 32
    ensures forall k :: 0 <= k < index ==> z[k] == 0
    ensures forall k :: index <= k < 4 ==> a[k] == old(a[k])
    ensures extra <==> V(old(a[..])[..index]) != 0
  {
    index, bitPos, extra := 0, bitPos0, false;
    while bitPos >= 32
      invariant bitPos + 32 * index == bitPos0 && index <= 3
      invariant forall k :: 0 <= k < index ==> z[k] == 0
      invariant forall k :: index <= k < 4 ==> a[k] == old(a[k])
      invariant extra <==> exists k :: 0 <= k < index && old(a[..])[k] != 0
    {
      if a[index] != 0 { extra := true; }
      z[index] := 0;
      index, bitPos := index + 1, bitPos - 32;
    }
    VZero(old(a[..])[..index]);
    assert forall k :: 0 <= k < index ==> old(a[..])[..index][k] == old(a[..])[k];
  }

  // ---- the carry loop: f128M_roundToInt.c:207-213 ----

  method PropagateCarry(a: array<u32>, z: array<u32>, index0: nat, carry0: int)
    requires Quad(a) && Quad(z) && index0 <= 3 && 0 <= carry0 <= 1
    requires V(a[index0 + 1..]) + carry0 < Weight(3 - index0)
    modifies z
    ensures forall k :: 0 <= k <= index0 ==> z[k] == old(z[k])
    ensures V(z[index0 + 1..]) == V(old(a[..])[index0 + 1..]) + carry0
  {
    var index, carry := index0, carry0;
    ghost var was := a[..];
    assert was[index0 + 1..] == a[index0 + 1..];
    while index != 3
      invariant index0 <= index <= 3 && 0 <= carry <= 1
      invariant forall k :: 0 <= k <= index0 ==> z[k] == old(z[k])
      invariant forall k :: index < k < 4 ==> a[k] == was[k]
      invariant Carried(z[index0 + 1..index + 1], was[index0 + 1..index + 1], carry, carry0)
      decreases 3 - index
    {
      ghost var zs, s := z[index0 + 1..index + 1], was[index0 + 1..index + 1];
      index := index + 1;
      var wordZ := (a[index] + carry) % W32;
      CarryStep(zs, s, a[index], carry, wordZ, carry0);
      z[index] := wordZ;
      carry := if wordZ == 0 then carry else 0;       // carry &= !wordZ
      assert z[index0 + 1..index + 1] == zs + [wordZ];
      assert was[index0 + 1..index + 1] == s + [was[index]];
    }
    assert was[index0 + 1..4] == was[index0 + 1..] && z[index0 + 1..4] == z[index0 + 1..];
    CarriedOut(z[index0 + 1..], was[index0 + 1..], carry, carry0);
  }

  /** The words zs, with the carry out of them, are the words s and the carry into them. */
  ghost predicate Carried(zs: seq<u32>, s: seq<u32>, carry: int, carry0: int) {
    |zs| == |s| && V(zs) + Weight(|s|) * carry == V(s) + carry0
  }

  lemma {:induction false} CarriedOut(zs: seq<u32>, s: seq<u32>, carry: int, carry0: int)
    requires Carried(zs, s, carry, carry0) && 0 <= carry <= 1 && V(s) + carry0 < Weight(|s|)
    ensures V(zs) == V(s) + carry0
  {
    VBound(zs);
  }

  lemma {:induction false} CarryStep(zs: seq<u32>, s: seq<u32>, w: u32, carry: int, wz: u32, carry0: int)
    requires 0 <= carry <= 1 && wz == (w + carry) % W32 && Carried(zs, s, carry, carry0)
    ensures Carried(zs + [wz], s + [w], if wz == 0 then carry else 0, carry0)
  {
    VAppend(zs, wz);
    VAppend(s, w);
    OneCarry(w, carry, wz, if carry == 1 && wz == 0 then 1 else 0, Weight(|s|));
  }

  lemma {:induction false} OneCarry(w: u32, carry: int, wz: int, carry': int, t: int)
    requires 0 <= carry <= 1 && wz == (w + carry) % W32 && carry' == (if carry == 1 && wz == 0 then 1 else 0)
    ensures wz + W32 * carry' == w + carry
    ensures t * wz + (W32 * t) * carry' == t * w + t * carry
  {
    if w + carry == W32 { DivModUnique(w + carry, W32, 1, 0); } else { DivModUnique(w + carry, W32, 0, w + carry); }
    assert t * (wz + W32 * carry') == t * (w + carry);
  }

  // ---- one word decides the rounding ----

  /** u = lo + t * g with lo < t: dividing by b * t is dividing g by b. */
  lemma {:induction false} WordDivMod(lo: int, t: int, g: int, b: int)
    requires 0 <= lo < t && 0 < b
    ensures (lo + t * g) / (b * t) == g / b && (lo + t * g) % (b * t) == (g % b) * t + lo
  {
    var q, r := g / b, g % b;
    assert t * g == q * (b * t) + r * t by { assert g == q * b + r; MulAssoc(q, b, t); }
    MulLeft(t, r, b - 1); MulLeft(t, 0, r);
    DivModUnique(lo + t * g, b * t, q, r * t + lo);
  }

  /** What the near modes must leave above the discarded words. */
  function NearWord(g: int, b: int, h: int, extra: bool, mode: int): int
    requires 0 < b
  {
    if mode == NEAR_EVEN && !extra && (g + h) % b == 0 && ((g + h) / b) % 2 == 1 then g + h - b
    else (g + h) - (g + h) % b
  }

  lemma {:induction false} NearIsWord(lo: int, t: int, g: int, b: int, h: int, mode: int, sign: bool)
    requires 0 <= lo < t && 0 < h && b == 2 * h && (mode == NEAR_EVEN || mode == NEAR_MAX_MAG)
    ensures RoundEnc(lo + t * g, b * t, mode, sign) == t * NearWord(g, b, h, lo != 0, mode)
  {
    NearIdentities(t, g, b, h, (g + h) % b);
    NearMatches(lo + t * g, b * t, h * t, sign);
    WordDivMod(lo, t, g + h, b);
    var r := (g + h) % b;
    if r > 0 { MulLeft(t, 1, r); }
  }

  lemma {:induction false} NearIdentities(t: int, g: int, b: int, h: int, r: int)
    requires b == 2 * h
    ensures b * t == 2 * (h * t) && t * g + h * t == t * (g + h)
    ensures t * (g + h) - r * t == t * ((g + h) - r) && t * (g + h) - b * t == t * (g + h - b)
  {}

  /** What the directed modes must leave above the discarded words. */
  function DirectedWord(g: int, b: int, extra: bool, up: bool): int
    requires 0 < b
  {
    g - g % b + (if up && (extra || g % b != 0) then b else 0)
  }

  lemma {:induction false} DirectedIsWord(lo: int, t: int, g: int, b: int, mode: int, sign: bool)
    requires 0 <= lo < t && 0 < b && mode != NEAR_EVEN && mode != NEAR_MAX_MAG
    ensures RoundEnc(lo + t * g, b * t, mode, sign)
         == t * DirectedWord(g, b, lo != 0, mode == (if sign then MIN else MAX))
  {
    WordDivMod(lo, t, g, b);
    var q, r := g / b, g % b;
    if r > 0 { MulLeft(t, 1, r); }
    assert g == q * b + r;
    DirectedIdentities(t, q, b);
  }

  lemma {:induction false} DirectedIdentities(t: int, q: int, b: int)
    ensures q * (b * t) == t * (q * b) && (q + 1) * (b * t) == t * (q * b + b)
  {
    MulSwap(q, b, t); MulAssoc(q, b, t);
  }

  // ---- the same in 32-bit words ----

  lemma {:induction false} WordMask(x: int, h: int, wz: int, b: int, c: int)
    requires 0 < b && c * b == W32 && x == wz + W32 * h
    ensures x % b == wz % b && x / b == c * h + wz / b
  {
    assert W32 * h == (c * h) * b by { MulAssoc(h, c, b); }
    assert x == (c * h + wz / b) * b + wz % b;
    DivModUnique(x, b, c * h + wz / b, wz % b);
  }

  function AddWord(w: u32, x: int): (r: (u32, int))
    requires 0 <= x <= W32
    ensures r.0 + W32 * r.1 == w + x && 0 <= r.1 <= 1
    ensures x < W32 ==> (r.1 == 1 <==> r.0 < w)
  {
    ((w + x) % W32, if w + x >= W32 then 1 else 0)
  }

  /** The near branch when the doubled bit still fits the word: clear a tied last bit, then mask. */
  function NearMasked(wz: u32, b: int, extra: bool, mode: int): (r: u32)
    requires 0 < b
  {
    MaskRange(wz, b);
    if mode == NEAR_EVEN && !extra && wz % b == 0 && (wz / b) % 2 == 1 then wz - b else wz - wz % b
  }

  lemma {:induction false} MaskRange(wz: int, b: int)
    requires 0 < b && 0 <= wz
    ensures 0 <= wz - wz % b && ((wz / b) % 2 == 1 ==> b <= wz)
  {
    assert wz == (wz / b) * b + wz % b;
    MulLeft(b, 0, wz / b);
    if (wz / b) % 2 == 1 { MulLeft(b, 1, wz / b); }
  }

  /** The parity of the quotient is that of this word because the words above weigh an even number of last bits. */
  lemma {:induction false} NearSameWord(w: u32, hi: int, b: int, h: int, c: int, extra: bool, mode: int)
    requires 0 < h < W32 && b == 2 * h && c * b == W32 && c % 2 == 0 && 0 <= hi
    ensures var (wz, carry) := AddWord(w, h);
            NearMasked(wz, b, extra, mode) + W32 * (hi + carry) == NearWord(w + W32 * hi, b, h, extra, mode)
  {
    var (wz, carry) := AddWord(w, h);
    WordMask(w + W32 * hi + h, hi + carry, wz, b, c);
    EvenWeight(c, hi + carry, wz / b);
  }

  lemma {:induction false} EvenWeight(c: int, x: int, y: int)
    requires c % 2 == 0
    ensures (c * x + y) % 2 == y % 2
  {
    var k := c / 2;
    assert c * x == (k * x) * 2 by { MulSwap(k, 2, x); }
    ModOffset(y, 2, k * x);
  }

  lemma {:induction false} DirectedSameWord(w: u32, hi: int, b: int, c: int, extra: bool, up: bool)
    requires 0 < b < W32 && c * b == W32 && 0 <= hi
    ensures var (wz, carry) := if up && (extra || w % b != 0) then AddWord(w, b) else (w, 0);
            wz - wz % b + W32 * (hi + carry) == DirectedWord(w + W32 * hi, b, extra, up) && 0 <= wz - wz % b
  {
    WordMask(w + W32 * hi, hi, w, b, c);
    var (wz, carry) := if up && (extra || w % b != 0) then AddWord(w, b) else (w, 0);
    MaskRange(wz, b);
    if up && (extra || w % b != 0) {
      WordMask(w + b, carry, wz, b, c);
      ModOffset(w, b, 1);
    }
  }

  // ---- room above: the carry never leaves the top word ----

  lemma {:induction false} Room(s: seq<u32>, i: nat)
    requires |s| == 4 && i <= 3 && s[3] <= 0xC06E_FFFF
    ensures i < 3 ==> V(s[i + 1..]) + 1 < Weight(3 - i)
    ensures V(s[4..]) == 0 && Weight(0) == 1
  {
    if i < 3 {
      VSplit(s[i + 1..], 2 - i);
      assert s[i + 1..][2 - i..] == [s[3]];
      VBound(s[i + 1..][..2 - i]);
      MulLeft(Weight(2 - i), s[3], 0xC06E_FFFF);
    }
  }

  // ---- near modes: f128M_roundToInt.c:163-184 ----

  ghost predicate Ready(a: array<u32>, z: array<u32>, index: nat)
    reads a, z
  {
    && Quad(a) && Quad(z) && index <= 3 && a[3] <= 0xC06E_FFFF
    && forall k :: 0 <= k < index ==> z[k] == 0
  }

  lemma {:induction false} ZerosBelow(s: seq<u32>, index: nat)
    requires index < |s| && forall k :: 0 <= k < index ==> s[k] == 0
    ensures V(s) == Weight(index) * (s[index] + W32 * V(s[index + 1..]))
  {
    VThree(s, index);
    VZero(s[..index]);
  }

  method StoreAndCarry(a: array<u32>, z: array<u32>, index: nat, word: u32, carry: int)
    requires Ready(a, z, index) && 0 <= carry <= 1 && (index == 3 ==> carry == 0)
    modifies z
    ensures V(z[..]) == Weight(index) * (word + W32 * (V(old(a[..])[index + 1..]) + carry))
  {
    ghost var was := a[..];
    Room(was, index);
    z[index] := word;
    assert a[index + 1..] == a[..][index + 1..] == was[index + 1..];
    PropagateCarry(a, z, index, carry);
    ZerosBelow(z[..], index);
    assert z[..][index + 1..] == z[index + 1..];
  }

  method RoundNear(a: array<u32>, z: array<u32>, index: nat, bit: int, ghost c: int, extra: bool, mode: int)
    requires Ready(a, z, index) && 1 <= bit <= 0x8000_0000 && c * (2 * bit) == W32
    requires (bit == 0x8000_0000 || c % 2 == 0) && (index == 3 ==> bit <= 0x8000)
    requires mode == NEAR_EVEN || mode == NEAR_MAX_MAG
    modifies z
    ensures V(z[..]) ==
            Weight(index) * NearWord(old(a[index]) + W32 * V(old(a[..])[index + 1..]), 2 * bit, bit, extra, mode)
  {
    var b := 2 * bit;                     // the code keeps this modulo 2^32, so it may be 0 there
    var (wordZ, carry) := AddWord(a[index], bit);
    if mode == NEAR_EVEN && !extra && wordZ % b == 0 && b == W32 {
      TieAcrossWords(a, z, index, wordZ, carry);
    } else {
      if b == W32 {
        NearFullWord(a[index], V(a[..][index + 1..]), extra, mode);
      } else {
        NearSameWord(a[index], V(a[..][index + 1..]), b, bit, c, extra, mode);
      }
      StoreAndCarry(a, z, index, NearMasked(wordZ, b, extra, mode), carry);
    }
  }

  /** With b = 2^32 the whole word is discarded; outside the tie the carry alone is the result. */
  lemma {:induction false} NearFullWord(w: u32, hi: int, extra: bool, mode: int)
    requires 0 <= hi
    requires !(mode == NEAR_EVEN && !extra && (w + 0x8000_0000) % W32 == 0)
    ensures var (wz, carry) := AddWord(w, 0x8000_0000);
            NearMasked(wz, W32, extra, mode) + W32 * (hi + carry) ==
              NearWord(w + W32 * hi, W32, 0x8000_0000, extra, mode)
  {
    var (wz, carry) := AddWord(w, 0x8000_0000);
    DivModUnique(w + W32 * hi + 0x8000_0000, W32, hi + carry, wz);
  }

  /** The tie whose last kept bit is the lowest bit of the next word. */
  method TieAcrossWords(a: array<u32>, z: array<u32>, index: nat, wordZ0: u32, carry0: int)
    requires Ready(a, z, index) && index < 3 && (wordZ0, carry0) == AddWord(a[index], 0x8000_0000) && wordZ0 == 0
    modifies z
    ensures V(z[..]) == Weight(index) * NearWord(old(a[index]) + W32 * V(old(a[..])[index + 1..]), W32, 0x8000_0000,
                                                 false, NEAR_EVEN)
  {
    ghost var was := a[..];
    z[index] := wordZ0;
    var next := index + 1;
    var (wordZ, carry) := AddWord(a[next], carry0);      // carry & !wordZ
    z[next] := wordZ - wordZ % 2;
    Room(was, next);
    assert a[next + 1..] == a[..][next + 1..] == was[next + 1..];
    PropagateCarry(a, z, next, carry);
    assert z[..][next + 1..] == z[next + 1..];
    TieTotal(z[..], was, index);
  }

  lemma {:induction false} TieTotal(zs: seq<u32>, s: seq<u32>, index: nat)
    requires |zs| == |s| == 4 && index < 3 && AddWord(s[index], 0x8000_0000).0 == 0
    requires forall k :: 0 <= k <= index ==> zs[k] == 0
    requires var (wz, carry) := AddWord(s[index + 1], AddWord(s[index], 0x8000_0000).1);
             zs[index + 1] == wz - wz % 2 && V(zs[index + 2..]) == V(s[index + 2..]) + carry
    ensures V(zs) == Weight(index) * NearWord(s[index] + W32 * V(s[index + 1..]), W32, 0x8000_0000, false, NEAR_EVEN)
  {
    ZerosBelow(zs, index);
    VTail(s, index + 1); VTail(zs, index + 1);
    TieValue(s[index], s[index + 1], V(s[index + 2..]));
  }

  lemma {:induction false} TieValue(w: u32, n: u32, up: int)
    requires AddWord(w, 0x8000_0000).0 == 0
    ensures AddWord(w, 0x8000_0000).1 == 1
    ensures var (wz, carry) := AddWord(n, 1);
            W32 * ((wz - wz % 2) + W32 * (up + carry)) ==
              NearWord(w + W32 * (n + W32 * up), W32, 0x8000_0000, false, NEAR_EVEN)
  {
    var hi := n + W32 * up;
    DivModUnique(w + W32 * hi + 0x8000_0000, W32, hi + 1, 0);
    ParityOfSum(n, up);
  }

  lemma {:induction false} ParityOfSum(n: u32, up: int)
    ensures (n + W32 * up + 1) % 2 == (n + 1) % 2
    ensures var (wz, c) := AddWord(n, 1); wz % 2 == (n + 1) % 2
  {
    ModOffset(n + 1, 2, 0x8000_0000 * up);
    var (wz, c) := AddWord(n, 1);
    ModOffset(wz, 2, 0x8000_0000 * c);
  }

  // ---- directed modes: f128M_roundToInt.c:186-204 ----

  method RoundDirected(a: array<u32>, z: array<u32>, index: nat, bit: int, ghost c: int, extra: bool, up: bool)
    requires Ready(a, z, index) && 1 <= bit <= 0x8000_0000 && c * bit == W32 && (index == 3 ==> bit <= 0x1_0000)
    modifies z
    ensures V(z[..]) == Weight(index) * DirectedWord(old(a[index]) + W32 * V(old(a[..])[index + 1..]), bit, extra, up)
  {
    var wordZ: u32, carry := a[index], 0;
    if up && (extra || a[index] % bit != 0) {
      wordZ, carry := AddWord(a[index], bit).0, AddWord(a[index], bit).1;
    }
    DirectedSameWord(a[index], V(a[..][index + 1..]), bit, c, extra, up);
    StoreAndCarry(a, z, index, wordZ - wordZ % bit, carry);
  }

  // ---- the middle range ----

  lemma {:induction false} PowParts(bitPos0: nat, k: nat)
    requires bitPos0 < 128 && k <= 1
    ensures Pow2(bitPos0 + k) == (if k == 1 then 2 * Pow2(bitPos0 % 32) else Pow2(bitPos0 % 32)) * Weight(bitPos0 / 32)
  {
    WeightIsPow2(bitPos0 / 32);
    Pow2Add(bitPos0 % 32, 32 * (bitPos0 / 32));
    if k == 1 { MulAssoc(2, Pow2(bitPos0 % 32), Weight(bitPos0 / 32)); }
  }

  lemma {:induction false} BitInWord(bitPos: nat)
    requires bitPos < 32
    ensures 1 <= Pow2(bitPos) <= 0x8000_0000 && Pow2(32 - bitPos) * Pow2(bitPos) == W32
    ensures Pow2(31 - bitPos) * (2 * Pow2(bitPos)) == W32
    ensures bitPos < 31 ==> Pow2(31 - bitPos) % 2 == 0
    ensures bitPos == 31 ==> Pow2(bitPos) == 0x8000_0000
  {
    WordHalves(bitPos);
    MulLeft(Pow2(bitPos), 1, Pow2(31 - bitPos));
    if bitPos < 31 { assert Pow2(31 - bitPos) == 2 * Pow2(30 - bitPos); }
  }

  lemma {:induction false} WordHalves(bitPos: nat)
    requires bitPos < 32
    ensures Pow2(32 - bitPos) * Pow2(bitPos) == W32 && Pow2(31 - bitPos) * (2 * Pow2(bitPos)) == W32
    ensures Pow2(31 - bitPos) * Pow2(bitPos) == 0x8000_0000
  {
    Pow2Values();
    Pow2Add(32 - bitPos, bitPos);
    Pow2Add(31 - bitPos, bitPos);
    assert Pow2(31 - bitPos + bitPos + 1) == 2 * Pow2(31 - bitPos + bitPos);
    MulSwap(Pow2(31 - bitPos), 2, Pow2(bitPos)); MulAssoc(Pow2(31 - bitPos), 2, Pow2(bitPos));
  }

  lemma {:induction false} SmallPow(k: nat)
    ensures k <= 16 ==> Pow2(k) <= 0x1_0000
    ensures k <= 15 ==> Pow2(k) <= 0x8000
  {
    Pow2Values();
    assert Pow2(15) == 0x8000;
    if k <= 15 { Pow2Monotone(k, 15); }
    if k <= 16 { Pow2Monotone(k, 16); }
  }

  /** The encoding-level rounding read off at one word. */
  lemma {:induction false} SpecNear(s: seq<u32>, index: nat, bit: int, c: int, mode: int, sign: bool)
    requires index < |s| && 0 < bit && c * (2 * bit) == W32 && (mode == NEAR_EVEN || mode == NEAR_MAX_MAG)
    ensures RoundEnc(V(s), (2 * bit) * Weight(index), mode, sign)
         == Weight(index) * NearWord(s[index] + W32 * V(s[index + 1..]), 2 * bit, bit, V(s[..index]) != 0, mode)
    ensures V(s) % ((2 * bit) * Weight(index)) != 0 <==> V(s[..index]) != 0 || s[index] % (2 * bit) != 0
  {
    Around(s, index);
    var lo, t, hi := V(s[..index]), Weight(index), V(s[index + 1..]);
    LimbInexact(lo, t, s[index], hi, 2 * bit, c);
    NearIsWord(lo, t, s[index] + W32 * hi, 2 * bit, bit, mode, sign);
  }

  lemma {:induction false} SpecDirected(s: seq<u32>, index: nat, bit: int, c: int, mode: int, sign: bool)
    requires index < |s| && 0 < bit && c * bit == W32 && mode != NEAR_EVEN && mode != NEAR_MAX_MAG
    ensures RoundEnc(V(s), bit * Weight(index), mode, sign)
         == Weight(index) * DirectedWord(s[index] + W32 * V(s[index + 1..]), bit, V(s[..index]) != 0,
                                         mode == (if sign then MIN else MAX))
    ensures V(s) % (bit * Weight(index)) != 0 <==> V(s[..index]) != 0 || s[index] % bit != 0
  {
    Around(s, index);
    var lo, t, hi := V(s[..index]), Weight(index), V(s[index + 1..]);
    LimbInexact(lo, t, s[index], hi, bit, c);
    DirectedIsWord(lo, t, s[index] + W32 * hi, bit, mode, sign);
  }

  /** The same for the word in which bit p - 1, or bit p, lies. */
  lemma {:induction false} NearAt(s: seq<u32>, p: nat, mode: int, sign: bool)
    requires |s| == 4 && 1 <= p <= 112 && (mode == NEAR_EVEN || mode == NEAR_MAX_MAG)
    ensures var index, bit := (p - 1) / 32, Pow2((p - 1) % 32);
            && RoundEnc(V(s), Pow2(p), mode, sign) ==
                 Weight(index) * NearWord(s[index] + W32 * V(s[index + 1..]), 2 * bit, bit, V(s[..index]) != 0, mode)
            && (V(s) % Pow2(p) != 0 <==> V(s[..index]) != 0 || s[index] % (2 * bit) != 0)
  {
    BitInWord((p - 1) % 32);
    PowParts(p - 1, 1);
    SpecNear(s, (p - 1) / 32, Pow2((p - 1) % 32), Pow2(31 - (p - 1) % 32), mode, sign);
  }

  lemma {:induction false} DirectedAt(s: seq<u32>, p: nat, mode: int, sign: bool)
    requires |s| == 4 && 1 <= p <= 112 && mode != NEAR_EVEN && mode != NEAR_MAX_MAG
    ensures var index, bit := p / 32, Pow2(p % 32);
            && RoundEnc(V(s), Pow2(p), mode, sign) ==
                 Weight(index) * DirectedWord(s[index] + W32 * V(s[index + 1..]), bit, V(s[..index]) != 0,
                                              mode == (if sign then MIN else MAX))
            && (V(s) % Pow2(p) != 0 <==> V(s[..index]) != 0 || s[index] % bit != 0)
  {
    BitInWord(p % 32);
    PowParts(p, 0);
    SpecDirected(s, p / 32, Pow2(p % 32), Pow2(32 - p % 32), mode, sign);
  }

  method NearMiddle(a: array<u32>, z: array<u32>, p: nat, mode: int, sign: bool) returns (inexact: bool)
    requires Quad(a) && Quad(z) && 1 <= p <= 112 && a[3] <= 0xC06E_FFFF
    requires mode == NEAR_EVEN || mode == NEAR_MAX_MAG
    modifies z
    ensures V(z[..]) == RoundEnc(V(old(a[..])), Pow2(p), mode, sign) && (inexact <==> V(old(a[..])) % Pow2(p) != 0)
  {
    ghost var was := a[..];
    NearAt(was, p, mode, sign);
    var index, bitPos, extra := SkipWords(a, z, p - 1);
    var bit := Pow2(bitPos);
    BitInWord(bitPos); SmallPow(bitPos);
    inexact := extra || a[index] % (2 * bit) != 0;
    assert a[..][index + 1..] == was[index + 1..] && a[index] == was[index] && a[3] == was[3];
    RoundNear(a, z, index, bit, Pow2(31 - bitPos), extra, mode);
  }

  method DirectedMiddle(a: array<u32>, z: array<u32>, p: nat, mode: int, sign: bool) returns (inexact: bool)
    requires Quad(a) && Quad(z) && 1 <= p <= 112 && a[3] <= 0xC06E_FFFF
    requires mode != NEAR_EVEN && mode != NEAR_MAX_MAG
    modifies z
    ensures V(z[..]) == RoundEnc(V(old(a[..])), Pow2(p), mode, sign) && (inexact <==> V(old(a[..])) % Pow2(p) != 0)
  {
    ghost var was := a[..];
    DirectedAt(was, p, mode, sign);
    var index, bitPos, extra := SkipWords(a, z, p);
    var bit := Pow2(bitPos);
    BitInWord(bitPos); SmallPow(bitPos);
    inexact := extra || a[index] % bit != 0;
    assert a[..][index + 1..] == was[index + 1..] && a[index] == was[index] && a[3] == was[3];
    RoundDirected(a, z, index, bit, Pow2(32 - bitPos), extra, mode == (if sign then MIN else MAX));
  }

  /** f128M_roundToInt.c:146-214 */
  method RoundMiddle(a: array<u32>, z: array<u32>, exp: int, mode: int) returns (inexact: bool)
    requires Quad(a) && Quad(z) && exp == ExpOf(Code(a)) && 0x3FFF <= exp < 0x406F
    modifies z
    ensures Code(z) == RoundBits(old(Code(a)), mode).z && inexact == RoundBits(old(Code(a)), mode).inexact
  {
    FieldsOfWords(a[..]);
    TopWord(a[3]);
    var sign := a[3] >= 0x8000_0000;
    if mode == NEAR_EVEN || mode == NEAR_MAX_MAG {
      inexact := NearMiddle(a, z, UNIT_EXP - exp, mode, sign);
    } else {
      inexact := DirectedMiddle(a, z, UNIT_EXP - exp, mode, sign);
    }
  }

  lemma {:induction false} TopWord(w: u32)
    requires (w / W16) % 0x8000 < 0x406F
    ensures w <= 0xC06E_FFFF
  {
    var q := w / W16;
    assert q < 0x8000 || q - 0x8000 == q % 0x8000;
  }

  lemma {:induction false} Around(s: seq<u32>, index: nat)
    requires index < |s|
    ensures 0 <= V(s[..index]) < Weight(index)
    ensures V(s) == V(s[..index]) + Weight(index) * (s[index] + W32 * V(s[index + 1..]))
  {
    VBound(s[..index]);
    VThree(s, index);
  }

  lemma {:induction false} LimbInexact(lo: int, t: int, w: u32, hi: int, b: int, c: int)
    requires 0 <= lo < t && 0 < b && c * b == W32 && 0 <= hi
    ensures (lo + t * (w + W32 * hi)) % (b * t) != 0 <==> lo != 0 || w % b != 0
  {
    WordDivMod(lo, t, w + W32 * hi, b);
    WordMask(w + W32 * hi, hi, w, b, c);
    if w % b > 0 { MulLeft(t, 1, w % b); }
  }

  // ---- magnitudes below one: f128M_roundToInt.c:93-126 ----

  function Mag1(ui96: u32, sigExtra: bool, mode: int): bool {
    var exp := (ui96 / W16) % 0x8000;
    if mode == NEAR_EVEN then !(ui96 % W16 == 0 && !sigExtra) && exp == 0x3FFE
    else if mode == NEAR_MAX_MAG then exp == 0x3FFE
    else if mode == MIN then ui96 >= 0x8000_0000
    else if mode == MAX then ui96 < 0x8000_0000
    else false
  }

  lemma {:induction false} BelowOneSpec(s: seq<u32>, mode: int)
    requires |s| == 4 && 0 <= V(s) < W128 && ExpOf(V(s)) < 0x3FFF
    ensures var sigExtra := s[2] != 0 || s[1] != 0 || s[0] != 0;
            RoundBits(V(s), mode) ==
            if !sigExtra && s[3] % 0x8000_0000 == 0 then Rounded(V(s), false)
            else Rounded((if s[3] >= 0x8000_0000 then P127 else 0) +
                         (if Mag1(s[3], sigExtra, mode) then 0x3FFF * P112 else 0), true)
  {
    FieldsOfWords(s);
    ZeroWord(s[3]);
  }

  lemma {:induction false} ZeroWord(w: u32)
    ensures w % 0x8000_0000 == 0 <==> (w / W16) % 0x8000 == 0 && w % W16 == 0
  {
    var q := w / W16;
    assert w == q * W16 + w % W16;
    assert q == (q / 0x8000) * 0x8000 + q % 0x8000;
    DivModUnique(w, 0x8000_0000, q / 0x8000, (q % 0x8000) * W16 + w % W16);
  }

  /** The three low words of the output are cleared before those of the input are looked at: when both are the same
      array, the number without them is rounded. */
  method RoundBelowOne(a: array<u32>, z: array<u32>, mode: int) returns (inexact: bool)
    requires Quad(a) && Quad(z) && ExpOf(Code(a)) < 0x3FFF
    modifies z
    ensures var r := RoundBits(Rounds(old(a[..]), a == z), mode); Code(z) == r.z && inexact == r.inexact
  {
    ghost var s := if a == z then [0, 0, 0, a[3]] else a[..];
    FieldsOfWords(a[..]);
    HighWordOnly(a[..]);
    BelowOneSpec(s, mode);
    var ui96 := a[3];
    z[2], z[1], z[0] := 0, 0, 0;
    var sigExtra := a[2] != 0;
    if !sigExtra { sigExtra := a[1] != 0 || a[0] != 0; }
    if !sigExtra && ui96 % 0x8000_0000 == 0 {
      z[3] := ui96;
      assert z[..] == s;
      return false;
    }
    z[3] := (if ui96 >= 0x8000_0000 then 0x8000_0000 else 0) + (if Mag1(ui96, sigExtra, mode) then 0x3FFF * W16 else 0);
    FourWords(z[..]);
    inexact := true;
  }

  // ---- the same array for input and output ----

  /** The number that is rounded: with one array for input and output, what is below one loses its low words. */
  ghost function Rounds(s: seq<u32>, same: bool): (u: u128)
    requires |s| == 4
    ensures 0 <= V(s) < W128 && ExpOf(u) == ExpOf(V(s)) && (ExpOf(V(s)) >= 0x3FFF || !same ==> u == V(s))
  {
    FieldsOfWords(s);
    HighWordOnly(s);
    if same && ExpOf(V(s)) < 0x3FFF then V([0, 0, 0, s[3]]) else V(s)
  }

  lemma {:induction false} HighWordOnly(s: seq<u32>)
    requires |s| == 4
    ensures 0 <= V(s) < W128 && 0 <= V([0, 0, 0, s[3]]) < W128 && ExpOf(V([0, 0, 0, s[3]])) == ExpOf(V(s))
  {
    VBound([0, 0, 0, s[3]]);
    FieldsOfWords(s);
    FieldsOfWords([0, 0, 0, s[3]]);
  }

  /** On one array the answer is the right one exactly when the number is not below one, or the low words hold nothing,
      or are neither all there is of the number nor what tells it from one half when rounding to nearest even. */
  lemma {:induction false} InPlaceIff(s: seq<u32>, mode: int)
    requires |s| == 4 && 0 <= V(s) < W128 && !IsNaN(V(s))
    ensures RoundBits(Rounds(s, true), mode) == RoundBits(V(s), mode) <==>
            ExpOf(V(s)) >= 0x3FFF || (s[2] == 0 && s[1] == 0 && s[0] == 0) ||
            (s[3] % 0x8000_0000 != 0 && !(mode == NEAR_EVEN && s[3] % 0x8000_0000 == 0x3FFE * W16))
  {
    HighWordOnly(s);
    if ExpOf(V(s)) < 0x3FFF {
      BelowOneSpec(s, mode);
      BelowOneSpec([0, 0, 0, s[3]], mode);
      HalfWord(s[3]);
      if s[2] == 0 && s[1] == 0 && s[0] == 0 { assert s == [0, 0, 0, s[3]]; }
    }
  }

  lemma {:induction false} HalfWord(w: u32)
    ensures w % 0x8000_0000 == 0x3FFE * W16 <==> (w / W16) % 0x8000 == 0x3FFE && w % W16 == 0
  {
    var q := w / W16;
    assert w == q * W16 + w % W16;
    assert q == (q / 0x8000) * 0x8000 + q % 0x8000;
    DivModUnique(w, 0x8000_0000, q / 0x8000, (q % 0x8000) * W16 + w % W16);
  }

  // ---- the whole function ----

  /** Input and output may be the same array. */
  method RoundToInt(a: array<u32>, mode: int, exact: bool, z: array<u32>) returns (o: Outcome)
    requires Quad(a) && Quad(z)
    modifies z
    ensures o.PropagateNaN? <==> IsNaN(old(Code(a)))
    ensures o.Done? ==> var r := RoundBits(Rounds(old(a[..]), a == z), mode);
                        Code(z) == r.z && (o.inexactRaised <==> exact && r.inexact)
  {
    FieldsOfWords(a[..]);
    var exp := (a[3] / W16) % 0x8000;
    if exp < 0x3FFF {
      var inexact := RoundBelowOne(a, z, mode);
      return Done(exact && inexact);
    }
    if 0x406F <= exp {
      if exp == 0x7FFF && (a[3] % W16 != 0 || a[2] != 0 || a[1] != 0 || a[0] != 0) { return PropagateNaN; }
      z[2], z[1], z[0], z[3] := a[2], a[1], a[0], a[3];
      assert z[..] == old(a[..]);
      return Done(false);
    }
    var inexact := RoundMiddle(a, z, exp, mode);
    o := Done(exact && inexact);
  }
}
