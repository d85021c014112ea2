/** The structure block of a flattened devicetree (section 5.4 of the Devicetree Specification): words, strings and
    trees, the parser, and what removing the nodes that list a compatible string means.
    Words are the big-endian values of the block, so that each bswap of the source is already applied. */
module Fdt {
  type Word = x: nat | x < 0x1_0000_0000
  type Byte = x: nat | x < 256

  datatype Option<T> = None | Some(value: T)

  const FDT_BEGIN_NODE: Word := 1
  const FDT_END_NODE: Word := 2
  const FDT_PROP: Word := 3
  const FDT_NOP: Word := 4
  const FDT_END: Word := 9

  // ---- bswap ----

  function Bswap(x: bv32): bv32 {
    var y := ((x & 0x00FF00FF) << 8) | ((x & 0xFF00FF00) >> 8);
    ((y & 0x0000FFFF) << 16) | ((y & 0xFFFF0000) >> 16)
  }

  /** bswap reverses the four bytes of a word, so it is its own inverse. */
  lemma {:induction false} BswapReverses(x: bv32)
    ensures Bswap(x) & 0xFF == x >> 24 && (Bswap(x) >> 8) & 0xFF == (x >> 16) & 0xFF
    ensures (Bswap(x) >> 16) & 0xFF == (x >> 8) & 0xFF && Bswap(x) >> 24 == x & 0xFF
    ensures Bswap(Bswap(x)) == x
  {}

  /** The big-endian value of a word in memory: what the source reads through bswap and writes through bswap. */
  function Loaded(x: bv32): Word { Bswap(x) as Word }

  lemma {:induction false} StoreThenLoad(v: bv32)
    ensures Loaded(Bswap(v)) == v as Word
  {
    BswapReverses(v);
  }

  // ---- strings ----

  /** Byte i of a run of words, most significant byte first. */
  function ByteAt(ws: seq<Word>, i: nat): Byte
    requires i < 4 * |ws|
  {
    var w, k := ws[i / 4], i % 4;
    if k == 0 then w / 0x100_0000
    else if k == 1 then w / 0x1_0000 % 256
    else if k == 2 then w / 0x100 % 256
    else w % 256
  }

  function Bytes(ws: seq<Word>): (b: seq<Byte>)
    ensures |b| == 4 * |ws|
  {
    seq(4 * |ws|, i requires 0 <= i < 4 * |ws| => ByteAt(ws, i))
  }

  lemma {:induction false} BytesAppend(a: seq<Word>, b: seq<Word>)
    ensures Bytes(a + b) == Bytes(a) + Bytes(b)
  {
    forall i | 0 <= i < 4 * |a + b|
      ensures Bytes(a + b)[i] == (Bytes(a) + Bytes(b))[i]
    {
      if i >= 4 * |a| { assert (i - 4 * |a|) / 4 == i / 4 - |a| && (i - 4 * |a|) % 4 == i % 4; }
    }
  }

  /** The index of the first zero byte at or after i: i + strlen. */
  function Term(b: seq<Byte>, i: nat): (t: nat)
    requires i <= |b|
    ensures i <= t <= |b| && (t < |b| ==> b[t] == 0) && forall k :: i <= k < t ==> b[k] != 0
    decreases |b| - i
  {
    if i == |b| || b[i] == 0 then i else Term(b, i + 1)
  }

  /** strcmp(b + i, s) == 0 */
  predicate StrEq(b: seq<Byte>, i: nat, s: seq<Byte>) {
    i + |s| < |b| && b[i..i + |s|] == s && b[i + |s|] == 0
  }

  lemma {:induction false} TermPrefix(p: seq<Byte>, q: seq<Byte>, i: nat)
    requires i < |p| && p[|p| - 1] == 0
    ensures Term(p + q, i) == Term(p, i) < |p|
    decreases |p| - i
  {
    if p[i] != 0 { TermPrefix(p, q, i + 1); }
  }

  /** Comparing strings is comparing what lies before the terminator. */
  lemma {:induction false} StrEqIsString(b: seq<Byte>, i: nat, s: seq<Byte>)
    requires i <= |b| && Term(b, i) < |b| && 0 !in s
    ensures StrEq(b, i, s) <==> b[i..Term(b, i)] == s
  {
    var t := Term(b, i);
    if StrEq(b, i, s) {
      assert forall k :: i <= k < i + |s| ==> b[k] == s[k - i];
      assert t == i + |s|;
    }
  }

  predicate HasZero(w: Word) { w < 0x100_0000 || w / 0x1_0000 % 256 == 0 || w / 0x100 % 256 == 0 || w % 256 == 0 }

  /** The first word at or after i with a zero byte in it. */
  function ZeroWord(ws: seq<Word>, i: nat): (z: nat)
    requires i <= |ws|
    ensures i <= z <= |ws|
    decreases |ws| - i
  {
    if i == |ws| || HasZero(ws[i]) then i else ZeroWord(ws, i + 1)
  }

  lemma {:induction false} ZeroWordIsFirst(ws: seq<Word>, i: nat)
    requires i <= |ws|
    ensures var z := ZeroWord(ws, i); (z < |ws| ==> HasZero(ws[z])) && forall k :: i <= k < z ==> !HasZero(ws[k])
    decreases |ws| - i
  {
    if i < |ws| && !HasZero(ws[i]) { ZeroWordIsFirst(ws, i + 1); }
  }

  lemma {:induction false} FirstIsZeroWord(ws: seq<Word>, i: nat, z: nat)
    requires i <= z < |ws| && HasZero(ws[z]) && forall k :: i <= k < z ==> !HasZero(ws[k])
    ensures ZeroWord(ws, i) == z
    decreases z - i
  {
    if i < z { FirstIsZeroWord(ws, i + 1, z); }
  }

  /** strlen divided by four is the number of whole words before the terminator. */
  lemma {:induction false} StrlenWords(ws: seq<Word>, i: nat)
    requires i <= |ws| && ZeroWord(ws, i) < |ws|
    ensures Term(Bytes(ws[i..]), 0) < 4 * |ws[i..]| && Term(Bytes(ws[i..]), 0) / 4 == ZeroWord(ws, i) - i
  {
    ZeroWordIsFirst(ws, i);
    var b, t, z := Bytes(ws[i..]), Term(Bytes(ws[i..]), 0), ZeroWord(ws, i) - i;
    assert ws[i..][z] == ws[i + z] && HasZero(ws[i + z]);
    assert b[4 * z] == 0 || b[4 * z + 1] == 0 || b[4 * z + 2] == 0 || b[4 * z + 3] == 0 by {
      assert 4 * z / 4 == z && (4 * z + 1) / 4 == z && (4 * z + 2) / 4 == z && (4 * z + 3) / 4 == z;
    }
    assert t <= 4 * z + 3;
    assert t >= 4 * z ==> t / 4 == z;
    forall k | 0 <= k < 4 * z ensures b[k] != 0 { assert !HasZero(ws[i + k / 4]) && ws[i..][k / 4] == ws[i + k / 4]; }
  }

  // ---- string lists ----

  /** What fdt_string_list_index computes from offset i on, having passed `index` strings. */
  function ListIndex(b: seq<Byte>, i: nat, len: nat, s: seq<Byte>, index: nat): int
    requires len < |b|
    decreases len - i
  {
    if i >= len then -1
    else if StrEq(b, i, s) then index
    else ListIndex(b, Term(b, i) + 1, len, s, index + 1)
  }

  /** The strings of a list, one after each other, the last ended by the zero after the list if need be. */
  function Strings(b: seq<Byte>, i: nat, len: nat): seq<seq<Byte>>
    requires len < |b|
    decreases len - i
  {
    if i >= len then [] else [b[i..Term(b, i)]] + Strings(b, Term(b, i) + 1, len)
  }

  /** The index found is that of the first string equal to s; -1 means there is none. */
  lemma {:induction false} ListIndexFindsFirst(b: seq<Byte>, i: nat, len: nat, s: seq<Byte>, index: nat)
    requires len < |b| && b[|b| - 1] == 0 && 0 !in s
    ensures var k := ListIndex(b, i, len, s, index); var all := Strings(b, i, len);
            if s in all then index <= k < index + |all| && all[k - index] == s && s !in all[..k - index] else k == -1
    decreases len - i
  {
    if i < len {
      TermPrefix(b, [], i);
      assert b + [] == b;
      StrEqIsString(b, i, s);
      if !StrEq(b, i, s) {
        ListIndexFindsFirst(b, Term(b, i) + 1, len, s, index + 1);
        var all, more := Strings(b, i, len), Strings(b, Term(b, i) + 1, len);
        assert all == [b[i..Term(b, i)]] + more;
        var k := ListIndex(b, i, len, s, index);
        if s in more { assert all[..k - index] == [all[0]] + more[..k - index - 1]; }
      }
    }
  }

  /** A list is read no further than the first zero byte behind it. */
  lemma {:induction false} ListPrefix(p: seq<Byte>, q: seq<Byte>, i: nat, len: nat, s: seq<Byte>, index: nat)
    requires len < |p| && p[|p| - 1] == 0 && 0 !in s
    ensures ListIndex(p + q, i, len, s, index) == ListIndex(p, i, len, s, index)
    decreases len - i
  {
    if i < len {
      TermPrefix(p, q, i);
      TermPrefix(p, [], i);
      assert p + [] == p;
      var t := Term(p, i);
      assert (p + q)[i..t] == p[i..t];
      StrEqIsString(p, i, s);
      StrEqIsString(p + q, i, s);
      ListPrefix(p, q, t + 1, len, s, index + 1);
    }
  }

  // ---- trees ----

  /** A run of siblings: each item, then the rest. */
  datatype Forest =
    | Done
    | Nop(rest: Forest)
    | Prop(len: Word, off: Word, value: seq<Word>, rest: Forest)
    | Sub(name: seq<Word>, body: Forest, rest: Forest)

  function Encode(f: Forest): seq<Word>
    decreases f, 0
  {
    match f
    case Done => []
    case Nop(rest) => [FDT_NOP] + Encode(rest)
    case Prop(len, off, value, rest) => [FDT_PROP, len, off] + value + Encode(rest)
    case Sub(name, body, rest) => EncodeNode(name, body) + Encode(rest)
  }

  function EncodeNode(name: seq<Word>, body: Forest): seq<Word>
    decreases body, 1
  {
    [FDT_BEGIN_NODE] + name + Encode(body) + [FDT_END_NODE]
  }

  /** The words that hold len bytes. */
  function Size(len: nat): nat { (len + 3) / 4 }

  /** A node name fills its words: its terminating zero is in the last one. */
  predicate NameOk(name: seq<Word>) {
    |name| > 0 && ZeroWord(name, 0) == |name| - 1
  }

  /** Well formed: names and values fill their words, and the properties of a node come before its children. */
  predicate WellFormed(f: Forest) {
    match f
    case Done => true
    case Nop(rest) => WellFormed(rest)
    case Prop(len, off, value, rest) => len < 0x7FFF_FFF0 && |value| == Size(len) && WellFormed(rest)
    case Sub(name, body, rest) => NameOk(name) && WellFormed(body) && NoProps(rest) && WellFormed(rest)
  }

  predicate NoProps(f: Forest) {
    match f
    case Done => true
    case Nop(rest) => NoProps(rest)
    case Prop(_, _, _, _) => false
    case Sub(_, _, rest) => NoProps(rest)
  }

  // ---- reading a tree ----

  /** The words ws hold `part` at position i. */
  predicate Holds(ws: seq<Word>, i: nat, part: seq<Word>) {
    i + |part| <= |ws| && ws[i..i + |part|] == part
  }

  lemma {:induction false} HoldsSplit(ws: seq<Word>, i: nat, a: seq<Word>, b: seq<Word>)
    requires Holds(ws, i, a + b)
    ensures Holds(ws, i, a) && Holds(ws, i + |a|, b)
  {
    var s := ws[i..i + |a + b|];
    assert ws[i..i + |a|] == s[..|a|] && ws[i + |a|..i + |a| + |b|] == s[|a|..];
  }

  predicate Ends(t: Word) { t != FDT_NOP && t != FDT_PROP && t != FDT_BEGIN_NODE }

  lemma {:induction false} NameLength(ws: seq<Word>, i: nat, name: seq<Word>)
    requires NameOk(name) && Holds(ws, i, name)
    ensures ZeroWord(ws, i) == i + |name| - 1
  {
    ZeroWordIsFirst(name, 0);
    var n := |name| - 1;
    assert forall k :: 0 <= k <= n ==> ws[i + k] == ws[i..i + |name|][k] == name[k];
    assert HasZero(ws[i + n]);
    forall k | i <= k < i + n ensures !HasZero(ws[k]) { assert !HasZero(name[k - i]); }
    FirstIsZeroWord(ws, i, i + n);
  }

  lemma {:induction false} EncodeSub(name: seq<Word>, body: Forest, rest: Forest)
    ensures Encode(Sub(name, body, rest)) ==
            [FDT_BEGIN_NODE] + (name + (Encode(body) + ([FDT_END_NODE] + Encode(rest))))
  {}

  lemma {:induction false} SplitNop(ws: seq<Word>, i: nat, rest: Forest)
    requires Holds(ws, i, Encode(Nop(rest)))
    ensures |Encode(Nop(rest))| == 1 + |Encode(rest)|
    ensures ws[i] == FDT_NOP && Holds(ws, i + 1, Encode(rest))
  {
    HoldsSplit(ws, i, [FDT_NOP], Encode(rest));
    assert ws[i..i + 1][0] == FDT_NOP;
  }

  lemma {:induction false} SplitProp(ws: seq<Word>, i: nat, len: Word, off: Word, value: seq<Word>, rest: Forest)
    requires Holds(ws, i, Encode(Prop(len, off, value, rest)))
    ensures |Encode(Prop(len, off, value, rest))| == 3 + |value| + |Encode(rest)|
    ensures ws[i] == FDT_PROP && ws[i + 1] == len && ws[i + 2] == off
    ensures Holds(ws, i + 3, value) && Holds(ws, i + 3 + |value|, Encode(rest))
  {
    HoldsSplit(ws, i, [FDT_PROP, len, off] + value, Encode(rest));
    HoldsSplit(ws, i, [FDT_PROP, len, off], value);
    var h := ws[i..i + 3];
    assert ws[i] == h[0] && ws[i + 1] == h[1] && ws[i + 2] == h[2];
  }

  lemma {:induction false} SplitSub(ws: seq<Word>, i: nat, name: seq<Word>, body: Forest, rest: Forest)
    requires Holds(ws, i, Encode(Sub(name, body, rest)))
    ensures |Encode(Sub(name, body, rest))| == 2 + |name| + |Encode(body)| + |Encode(rest)|
    ensures ws[i] == FDT_BEGIN_NODE && Holds(ws, i + 1, name) && Holds(ws, i + 1 + |name|, Encode(body))
    ensures ws[i + 1 + |name| + |Encode(body)|] == FDT_END_NODE
    ensures Holds(ws, i + 2 + |name| + |Encode(body)|, Encode(rest))
  {
    EncodeSub(name, body, rest);
    SplitParts(ws, i, [FDT_BEGIN_NODE], name, Encode(body), [FDT_END_NODE], Encode(rest));
    FirstOf(ws, i, FDT_BEGIN_NODE);
    FirstOf(ws, i + 1 + |name| + |Encode(body)|, FDT_END_NODE);
  }

  lemma {:induction false} SplitParts(ws: seq<Word>, i: nat, a: seq<Word>, b: seq<Word>, c: seq<Word>, d: seq<Word>,
                                      e: seq<Word>)
    requires Holds(ws, i, a + (b + (c + (d + e))))
    ensures Holds(ws, i, a) && Holds(ws, i + |a|, b) && Holds(ws, i + |a| + |b|, c)
    ensures Holds(ws, i + |a| + |b| + |c|, d) && Holds(ws, i + |a| + |b| + |c| + |d|, e)
  {
    HoldsSplit(ws, i, a, b + (c + (d + e)));
    HoldsSplit(ws, i + |a|, b, c + (d + e));
    HoldsSplit(ws, i + |a| + |b|, c, d + e);
    HoldsSplit(ws, i + |a| + |b| + |c|, d, e);
  }

  lemma {:induction false} FirstOf(ws: seq<Word>, i: nat, w: Word)
    requires Holds(ws, i, [w])
    ensures i < |ws| && ws[i] == w
  {
    assert ws[i..i + 1][0] == w;
  }

  /** The words from i to k are the encoding of f, and the word at k ends a run. */
  ghost predicate Written(ws: seq<Word>, i: nat, f: Forest, k: nat) {
    k == i + |Encode(f)| && Holds(ws, i, Encode(f)) && k < |ws| && Ends(ws[k])
  }

  /** Names and values fill their words. */
  ghost predicate Sized(f: Forest) {
    match f
    case Done => true
    case Nop(rest) => Sized(rest)
    case Prop(len, off, value, rest) => |value| == Size(len) && Sized(rest)
    case Sub(name, body, rest) => NameOk(name) && Sized(body) && Sized(rest)
  }

  lemma {:induction false} WellFormedSized(f: Forest)
    requires WellFormed(f)
    ensures Sized(f)
    decreases f
  {
    match f {
      case Done =>
      case Nop(rest) => WellFormedSized(rest);
      case Prop(_, _, _, rest) => WellFormedSized(rest);
      case Sub(_, body, rest) => WellFormedSized(body); WellFormedSized(rest);
    }
  }

  lemma {:induction false} WrittenNop(ws: seq<Word>, i: nat, rest: Forest, k: nat)
    ensures Written(ws, i, Nop(rest), k) <==> i < |ws| && ws[i] == FDT_NOP && Written(ws, i + 1, rest, k)
  {
    if Written(ws, i, Nop(rest), k) { SplitNop(ws, i, rest); }
    if i < |ws| && ws[i] == FDT_NOP && Written(ws, i + 1, rest, k) { HoldsJoin(ws, i, [FDT_NOP], Encode(rest)); }
  }

  lemma {:induction false} WrittenProp(ws: seq<Word>, i: nat, len: Word, off: Word, value: seq<Word>, rest: Forest,
                                       k: nat)
    ensures Written(ws, i, Prop(len, off, value, rest), k) <==>
            i + 3 <= |ws| && ws[i] == FDT_PROP && ws[i + 1] == len && ws[i + 2] == off &&
            Holds(ws, i + 3, value) && Written(ws, i + 3 + |value|, rest, k)
  {
    if Written(ws, i, Prop(len, off, value, rest), k) { SplitProp(ws, i, len, off, value, rest); }
    if i + 3 <= |ws| && ws[i] == FDT_PROP && ws[i + 1] == len && ws[i + 2] == off && Holds(ws, i + 3, value) &&
      Written(ws, i + 3 + |value|, rest, k) {
      HoldsJoin(ws, i, [FDT_PROP, len, off], value);
      HoldsJoin(ws, i, [FDT_PROP, len, off] + value, Encode(rest));
    }
  }

  lemma {:induction false} WrittenSub(ws: seq<Word>, i: nat, name: seq<Word>, body: Forest, rest: Forest, k: nat)
    ensures var j := i + 1 + |name| + |Encode(body)|;
            Written(ws, i, Sub(name, body, rest), k) <==>
            i < |ws| && ws[i] == FDT_BEGIN_NODE && Holds(ws, i + 1, name) &&
            Written(ws, i + 1 + |name|, body, j) && ws[j] == FDT_END_NODE && Written(ws, j + 1, rest, k)
  {
    var j := i + 1 + |name| + |Encode(body)|;
    if Written(ws, i, Sub(name, body, rest), k) { SplitSub(ws, i, name, body, rest); }
    if i < |ws| && ws[i] == FDT_BEGIN_NODE && Holds(ws, i + 1, name) && Written(ws, i + 1 + |name|, body, j) &&
      ws[j] == FDT_END_NODE && Written(ws, j + 1, rest, k) {
      JoinSub(ws, i, name, body, rest);
    }
  }

  lemma {:induction false} JoinSub(ws: seq<Word>, i: nat, name: seq<Word>, body: Forest, rest: Forest)
    requires i < |ws| && ws[i] == FDT_BEGIN_NODE && Holds(ws, i + 1, name) && Holds(ws, i + 1 + |name|, Encode(body))
    requires var j := i + 1 + |name| + |Encode(body)|;
             j < |ws| && ws[j] == FDT_END_NODE && Holds(ws, j + 1, Encode(rest))
    ensures var f := Sub(name, body, rest);
            Holds(ws, i, Encode(f)) && |Encode(f)| == 2 + |name| + |Encode(body)| + |Encode(rest)|
  {
    HoldsJoin(ws, i, [FDT_BEGIN_NODE], name);
    HoldsJoin(ws, i, [FDT_BEGIN_NODE] + name, Encode(body));
    HoldsJoin(ws, i, [FDT_BEGIN_NODE] + name + Encode(body), [FDT_END_NODE]);
    HoldsJoin(ws, i, EncodeNode(name, body), Encode(rest));
  }

  lemma {:induction false} HoldsJoin(ws: seq<Word>, i: nat, a: seq<Word>, b: seq<Word>)
    requires Holds(ws, i, a) && Holds(ws, i + |a|, b)
    ensures Holds(ws, i, a + b)
  {
    assert ws[i..i + |a + b|] == ws[i..i + |a|] + ws[i + |a|..i + |a| + |b|];
  }

  ghost predicate Key(i: nat, f: Forest, k: nat, u: nat) { u == u }

  /** The words from i to k read as f. What that means is only looked up where it is needed, by naming the key. */
  ghost predicate Spells(ws: seq<Word>, i: nat, f: Forest, k: nat) {
    forall u: nat {:trigger Key(i, f, k, u)} :: Key(i, f, k, u) ==> Sized(f) && Written(ws, i, f, k)
  }

  lemma {:induction false} SpellsMeans(ws: seq<Word>, i: nat, f: Forest, k: nat)
    ensures Spells(ws, i, f, k) <==> Sized(f) && Written(ws, i, f, k)
  {
    assert Key(i, f, k, 0);
  }

  lemma {:induction false} SpellsLength(ws: seq<Word>, i: nat, f: Forest, k: nat)
    requires Spells(ws, i, f, k)
    ensures k == i + |Encode(f)| < |ws|
  {
    SpellsMeans(ws, i, f, k);
  }

  lemma {:induction false} SpellsDone(ws: seq<Word>, i: nat, k: nat)
    ensures Spells(ws, i, Done, k) <==> k == i < |ws| && Ends(ws[i])
  {
    SpellsMeans(ws, i, Done, k);
  }

  lemma {:induction false} SpellsNop(ws: seq<Word>, i: nat, rest: Forest, k: nat)
    ensures Spells(ws, i, Nop(rest), k) <==> i < |ws| && ws[i] == FDT_NOP && Spells(ws, i + 1, rest, k)
  {
    SpellsMeans(ws, i, Nop(rest), k);
    SpellsMeans(ws, i + 1, rest, k);
    WrittenNop(ws, i, rest, k);
  }

  lemma {:induction false} SpellsProp(ws: seq<Word>, i: nat, len: Word, off: Word, value: seq<Word>, rest: Forest,
                                      k: nat)
    ensures Spells(ws, i, Prop(len, off, value, rest), k) <==>
            i + 3 <= |ws| && ws[i] == FDT_PROP && ws[i + 1] == len && ws[i + 2] == off &&
            |value| == Size(len) && Holds(ws, i + 3, value) && Spells(ws, i + 3 + |value|, rest, k)
  {
    SpellsMeans(ws, i, Prop(len, off, value, rest), k);
    SpellsMeans(ws, i + 3 + |value|, rest, k);
    WrittenProp(ws, i, len, off, value, rest, k);
  }

  lemma {:induction false} SpellsSub(ws: seq<Word>, i: nat, name: seq<Word>, body: Forest, rest: Forest, k: nat)
    ensures Spells(ws, i, Sub(name, body, rest), k) <==>
            i < |ws| && ws[i] == FDT_BEGIN_NODE && NameOk(name) && Holds(ws, i + 1, name) &&
            SpellsInside(ws, i + 1 + |name|, body, rest, k)
  {
    var b, j := i + 1 + |name|, i + 1 + |name| + |Encode(body)|;
    SpellsMeans(ws, i, Sub(name, body, rest), k);
    SpellsMeans(ws, b, body, j);
    SpellsMeans(ws, j + 1, rest, k);
    WrittenSub(ws, i, name, body, rest, k);
    if Spells(ws, i, Sub(name, body, rest), k) { assert SpellsBetween(ws, b, body, j, rest, k); }
    forall j' | SpellsBetween(ws, b, body, j', rest, k) ensures j' == j { SpellsMeans(ws, b, body, j'); }
  }

  /** A body up to the end token at j, and what follows the node. */
  ghost predicate SpellsBetween(ws: seq<Word>, b: nat, body: Forest, j: nat, rest: Forest, k: nat) {
    j < |ws| && Spells(ws, b, body, j) && ws[j] == FDT_END_NODE && Spells(ws, j + 1, rest, k)
  }

  ghost predicate SpellsInside(ws: seq<Word>, b: nat, body: Forest, rest: Forest, k: nat) {
    exists j :: SpellsBetween(ws, b, body, j, rest, k)
  }

  /** The first word says what a tree starts with. */
  lemma {:induction false} FirstWord(ws: seq<Word>, i: nat, f: Forest, k: nat)
    requires Spells(ws, i, f, k)
    ensures i < |ws|
    ensures f.Done? <==> Ends(ws[i])
    ensures f.Nop? <==> ws[i] == FDT_NOP
    ensures f.Prop? <==> ws[i] == FDT_PROP
    ensures f.Sub? <==> ws[i] == FDT_BEGIN_NODE
  {
    match f {
      case Done => SpellsDone(ws, i, k);
      case Nop(rest) => SpellsNop(ws, i, rest, k);
      case Prop(len, off, value, rest) => SpellsProp(ws, i, len, off, value, rest, k);
      case Sub(name, body, rest) => SpellsSub(ws, i, name, body, rest, k);
    }
  }

  lemma {:induction false} SameSlice(ws: seq<Word>, i: nat, a: seq<Word>, b: seq<Word>)
    requires Holds(ws, i, a) && Holds(ws, i, b) && |a| == |b|
    ensures a == b
  {}

  /** The parts of a node that is spelled at i: the name fills the words up to the first one with a zero byte. */
  lemma {:induction false} NodeParts(ws: seq<Word>, i: nat, name: seq<Word>, body: Forest, rest: Forest, k: nat)
    returns (j: nat)
    requires Spells(ws, i, Sub(name, body, rest), k)
    ensures i < |ws| && ws[i] == FDT_BEGIN_NODE && ZeroWord(ws, i + 1) == i + |name| < |ws|
    ensures name == ws[i + 1..i + 1 + |name|]
    ensures SpellsBetween(ws, i + 1 + |name|, body, j, rest, k)
  {
    SpellsSub(ws, i, name, body, rest, k);
    j :| SpellsBetween(ws, i + 1 + |name|, body, j, rest, k);
    NameLength(ws, i + 1, name);
  }

  /** Words spell at most one tree. */
  lemma {:induction false} SpellsUnique(ws: seq<Word>, i: nat, f: Forest, k: nat, g: Forest, l: nat)
    requires Spells(ws, i, f, k) && Spells(ws, i, g, l)
    ensures f == g && k == l
    decreases f
  {
    FirstWord(ws, i, f, k);
    FirstWord(ws, i, g, l);
    match f {
      case Done => SpellsDone(ws, i, k); SpellsDone(ws, i, l);
      case Nop(rest) =>
        SpellsNop(ws, i, rest, k); SpellsNop(ws, i, g.rest, l);
        SpellsUnique(ws, i + 1, rest, k, g.rest, l);
      case Prop(len, off, value, rest) =>
        SpellsProp(ws, i, len, off, value, rest, k); SpellsProp(ws, i, g.len, g.off, g.value, g.rest, l);
        SameSlice(ws, i + 3, value, g.value);
        SpellsUnique(ws, i + 3 + |value|, rest, k, g.rest, l);
      case Sub(name, body, rest) =>
        var j := NodeParts(ws, i, name, body, rest, k);
        var j' := NodeParts(ws, i, g.name, g.body, g.rest, l);
        SpellsUnique(ws, i + 1 + |name|, body, j, g.body, j');
        SpellsUnique(ws, j + 1, rest, k, g.rest, l);
    }
  }

  // ---- the parser ----

  /** Some tree is spelled at i. */
  ghost predicate Readable(ws: seq<Word>, i: nat) {
    exists f, k :: Spells(ws, i, f, k)
  }

  lemma {:induction false} NopNeedsRest(ws: seq<Word>, i: nat)
    requires i < |ws| && ws[i] == FDT_NOP && Readable(ws, i)
    ensures Readable(ws, i + 1)
  {
    var f, k :| Spells(ws, i, f, k);
    FirstWord(ws, i, f, k);
    SpellsNop(ws, i, f.rest, k);
  }

  lemma {:induction false} PropNeedsRest(ws: seq<Word>, i: nat)
    requires i < |ws| && ws[i] == FDT_PROP && Readable(ws, i)
    ensures i + 3 <= |ws| && i + 3 + Size(ws[i + 1]) <= |ws| && Readable(ws, i + 3 + Size(ws[i + 1]))
  {
    var f, k :| Spells(ws, i, f, k);
    FirstWord(ws, i, f, k);
    SpellsProp(ws, i, f.len, f.off, f.value, f.rest, k);
  }

  lemma {:induction false} NodeNeedsBody(ws: seq<Word>, i: nat)
    requires i < |ws| && ws[i] == FDT_BEGIN_NODE && Readable(ws, i)
    ensures ZeroWord(ws, i + 1) < |ws| && Readable(ws, ZeroWord(ws, i + 1) + 1)
  {
    var f, k :| Spells(ws, i, f, k);
    FirstWord(ws, i, f, k);
    var j := NodeParts(ws, i, f.name, f.body, f.rest, k);
  }

  lemma {:induction false} NodeNeedsRest(ws: seq<Word>, i: nat, body: Forest, j: nat)
    requires i < |ws| && ws[i] == FDT_BEGIN_NODE && Readable(ws, i) && Spells(ws, ZeroWord(ws, i + 1) + 1, body, j)
    ensures j < |ws| && ws[j] == FDT_END_NODE && Readable(ws, j + 1)
  {
    var f, k :| Spells(ws, i, f, k);
    FirstWord(ws, i, f, k);
    var j' := NodeParts(ws, i, f.name, f.body, f.rest, k);
    SpellsUnique(ws, ZeroWord(ws, i + 1) + 1, f.body, j', body, j);
  }

  lemma {:induction false} NameHere(ws: seq<Word>, i: nat)
    requires i <= |ws| && ZeroWord(ws, i) < |ws|
    ensures NameOk(ws[i..ZeroWord(ws, i) + 1])
  {
    var z := ZeroWord(ws, i);
    var name := ws[i..z + 1];
    ZeroWordIsFirst(ws, i);
    forall x | 0 <= x < z - i ensures !HasZero(name[x]) { assert name[x] == ws[i + x]; }
    FirstIsZeroWord(name, 0, z - i);
  }

  lemma {:induction false} NodeFromParts(ws: seq<Word>, i: nat, body: Forest, j: nat, rest: Forest, k: nat)
    requires i < |ws| && ws[i] == FDT_BEGIN_NODE && ZeroWord(ws, i + 1) < |ws|
    requires SpellsBetween(ws, ZeroWord(ws, i + 1) + 1, body, j, rest, k)
    ensures Spells(ws, i, Sub(ws[i + 1..ZeroWord(ws, i + 1) + 1], body, rest), k)
  {
    NameHere(ws, i + 1);
    SpellsSub(ws, i, ws[i + 1..ZeroWord(ws, i + 1) + 1], body, rest, k);
  }

  /** The scan as a parser: it finds the tree the words spell, exactly when there is one. */
  method Parse(ws: seq<Word>, i: nat) returns (ok: bool, f: Forest, k: nat)
    requires i <= |ws|
    ensures ok ==> Spells(ws, i, f, k)
    ensures ok <==> Readable(ws, i)
    decreases |ws| - i, 1
  {
    ok, f, k := false, Done, i;
    if i == |ws| {
      forall g, l ensures !Spells(ws, i, g, l) { if Spells(ws, i, g, l) { FirstWord(ws, i, g, l); } }
    } else if ws[i] == FDT_NOP {
      ok, f, k := Parse(ws, i + 1);
      SpellsNop(ws, i, f, k);
      if Readable(ws, i) { NopNeedsRest(ws, i); }
      f := Nop(f);
    } else if ws[i] == FDT_PROP {
      ok, f, k := ParseProp(ws, i);
    } else if ws[i] == FDT_BEGIN_NODE {
      ok, f, k := ParseNode(ws, i);
    } else {
      SpellsDone(ws, i, i);
      ok := true;
    }
  }

  method ParseProp(ws: seq<Word>, i: nat) returns (ok: bool, f: Forest, k: nat)
    requires i < |ws| && ws[i] == FDT_PROP
    ensures ok ==> Spells(ws, i, f, k)
    ensures ok <==> Readable(ws, i)
    decreases |ws| - i, 0
  {
    ok, f, k := false, Done, i;
    if Readable(ws, i) { PropNeedsRest(ws, i); }
    if i + 3 <= |ws| && i + 3 + Size(ws[i + 1]) <= |ws| {
      var next := i + 3 + Size(ws[i + 1]);
      ok, f, k := Parse(ws, next);
      SpellsProp(ws, i, ws[i + 1], ws[i + 2], ws[i + 3..next], f, k);
      f := Prop(ws[i + 1], ws[i + 2], ws[i + 3..next], f);
    }
  }

  method ParseNode(ws: seq<Word>, i: nat) returns (ok: bool, f: Forest, k: nat)
    requires i < |ws| && ws[i] == FDT_BEGIN_NODE
    ensures ok ==> Spells(ws, i, f, k)
    ensures ok <==> Readable(ws, i)
    decreases |ws| - i, 0
  {
    ok, f, k := false, Done, i;
    var z := ZeroWord(ws, i + 1);
    if Readable(ws, i) { NodeNeedsBody(ws, i); }
    if z == |ws| { return; }
    var body, j, rest;
    ok, body, j := Parse(ws, z + 1);
    if !ok { return; }
    if Readable(ws, i) { NodeNeedsRest(ws, i, body, j); }
    SpellsMeans(ws, z + 1, body, j);
    if ws[j] != FDT_END_NODE { ok := false; return; }
    ok, rest, k := Parse(ws, j + 1);
    if ok { NodeFromParts(ws, i, body, j, rest, k); }
    f := Sub(ws[i + 1..z + 1], body, rest);
  }
}
