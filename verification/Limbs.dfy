/** Little-endian sequences of 32-bit limbs. */
module Limbs {
  import opened Words

  function Weight(i: nat): (w: int)
    ensures w >= 1
  {
    if i == 0 then 1 else W32 * Weight(i - 1)
  }

  function V(s: seq<u32>): (v: int)
    ensures v >= 0
  {
    if |s| == 0 then 0 else s[0] + W32 * V(s[1..])
  }

  lemma {:induction false} VBound(s: seq<u32>)
    ensures 0 <= V(s) < Weight(|s|)
  {
    if |s| > 0 { VBound(s[1..]); }
  }

  lemma {:induction false} WeightIsPow2(i: nat)
    ensures Weight(i) == Pow2(32 * i)
  {
    if i > 0 {
      WeightIsPow2(i - 1);
      Pow2Add(32, 32 * (i - 1)); Pow2Values();
    }
  }

  lemma {:induction false} VSplit(s: seq<u32>, i: nat)
    requires i <= |s|
    ensures V(s) == V(s[..i]) + Weight(i) * V(s[i..])
  {
    if i == 0 {
      assert s[..0] == [] && s[0..] == s;
    } else {
      VSplit(s[1..], i - 1);
      assert s[1..][..i - 1] == s[..i][1..];
      assert s[1..][i - 1..] == s[i..];
      MulAssoc(W32, Weight(i - 1), V(s[i..]));
    }
  }

  lemma {:induction false} VZero(s: seq<u32>)
    ensures V(s) == 0 <==> forall k :: 0 <= k < |s| ==> s[k] == 0
  {
    if |s| > 0 {
      VZero(s[1..]);
      assert forall k :: 0 <= k < |s| ==> s[k] == if k == 0 then s[0] else s[1..][k - 1];
      assert forall k :: 0 <= k < |s| - 1 ==> s[1..][k] == s[k + 1];
    }
  }

  lemma {:induction false} VAppend(s: seq<u32>, x: u32)
    ensures V(s + [x]) == V(s) + Weight(|s|) * x
  {
    VSplit(s + [x], |s|);
    assert (s + [x])[..|s|] == s && (s + [x])[|s|..] == [x];
    assert V([x]) == x;
  }

  lemma {:induction false} VHead(s: seq<u32>)
    requires |s| > 0
    ensures V(s) == s[0] + W32 * V(s[1..])
  {}

  /** The word at index i between the words below it and the words above it. */
  lemma {:induction false} VThree(s: seq<u32>, i: nat)
    requires i < |s|
    ensures V(s) == V(s[..i]) + Weight(i) * (s[i] + W32 * V(s[i + 1..]))
  {
    VSplit(s, i);
    VTail(s, i);
  }

  lemma {:induction false} VTail(s: seq<u32>, i: nat)
    requires i < |s|
    ensures V(s[i..]) == s[i] + W32 * V(s[i + 1..])
  {
    VHead(s[i..]);
    assert s[i..][1..] == s[i + 1..];
  }
}
