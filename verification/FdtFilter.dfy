/** What filter_compat does to a devicetree: the scan with its depth and kill counters, on trees, and the removal of
    every maximal subtree whose root lists the compatible string. */
module FdtFilter {
  import opened Fdt

  /** The strings block and the compatible string looked for. */
  datatype Query = Query(strings: seq<Byte>, compat: seq<Byte>)

  const COMPATIBLE: seq<Byte> := [99, 111, 109, 112, 97, 116, 105, 98, 108, 101]
  const NO_KILL: int := 999

  predicate Lists(q: Query, len: Word, off: Word, value: seq<Word>) {
    StrEq(q.strings, off, COMPATIBLE) && len <= 4 * |value| && ListIndex(Bytes(value) + [0], 0, len, q.compat, 0) >= 0
  }

  /** A node is listed when one of its own properties is a compatible list with the string in it. */
  predicate Listed(q: Query, body: Forest) {
    match body
    case Done => false
    case Nop(rest) => Listed(q, rest)
    case Prop(len, off, value, rest) => Lists(q, len, off, value) || Listed(q, rest)
    case Sub(_, _, rest) => Listed(q, rest)
  }

  // ---- what the filter means ----

  /** The tree without its NOPs. */
  function Clean(f: Forest): Forest {
    match f
    case Done => Done
    case Nop(rest) => Clean(rest)
    case Prop(len, off, value, rest) => Prop(len, off, value, Clean(rest))
    case Sub(name, body, rest) => Sub(name, Clean(body), Clean(rest))
  }

  /** The tree without the maximal subtrees whose root is listed. */
  function Prune(q: Query, f: Forest): Forest {
    match f
    case Done => Done
    case Nop(rest) => Nop(Prune(q, rest))
    case Prop(len, off, value, rest) => Prop(len, off, value, Prune(q, rest))
    case Sub(name, body, rest) => if Listed(q, body) then Prune(q, rest) else Sub(name, Prune(q, body), Prune(q, rest))
  }

  function Nops(n: nat, rest: Forest): Forest { if n == 0 then rest else Nop(Nops(n - 1, rest)) }

  /** The tree with those subtrees overwritten by as many NOPs. */
  function Filter(q: Query, f: Forest): Forest {
    match f
    case Done => Done
    case Nop(rest) => Nop(Filter(q, rest))
    case Prop(len, off, value, rest) => Prop(len, off, value, Filter(q, rest))
    case Sub(name, body, rest) =>
      if Listed(q, body) then Nops(|EncodeNode(name, body)|, Filter(q, rest))
      else Sub(name, Filter(q, body), Filter(q, rest))
  }

  function NopWords(n: nat): seq<Word> { seq(n, _ => FDT_NOP) }

  lemma {:induction false} NopsEncode(n: nat, rest: Forest)
    ensures Encode(Nops(n, rest)) == NopWords(n) + Encode(rest)
    decreases n
  {
    if n > 0 { NopsEncode(n - 1, rest); }
  }

  lemma {:induction false} NopsClean(q: Query, n: nat, rest: Forest)
    ensures Clean(Nops(n, rest)) == Clean(rest) && Listed(q, Nops(n, rest)) == Listed(q, rest)
    ensures WellFormed(Nops(n, rest)) == WellFormed(rest) && NoProps(Nops(n, rest)) == NoProps(rest)
    ensures Filter(q, Nops(n, rest)) == Nops(n, Filter(q, rest)) && Height(Nops(n, rest)) == Height(rest)
    decreases n
  {
    if n > 0 { NopsClean(q, n - 1, rest); }
  }

  lemma {:induction false} ListedCleanAndFiltered(q: Query, f: Forest)
    ensures Listed(q, Clean(f)) == Listed(q, f) && Listed(q, Filter(q, f)) == Listed(q, f)
    decreases f
  {
    match f {
      case Done =>
      case Nop(rest) => ListedCleanAndFiltered(q, rest);
      case Prop(len, off, value, rest) => ListedCleanAndFiltered(q, rest);
      case Sub(name, body, rest) =>
        ListedCleanAndFiltered(q, rest);
        NopsClean(q, |EncodeNode(name, body)|, Filter(q, rest));
    }
  }

  /** Without its NOPs, the filtered tree is the original one without the listed subtrees. */
  lemma {:induction false} FilterIsPrune(q: Query, f: Forest)
    ensures Clean(Filter(q, f)) == Prune(q, Clean(f))
    decreases f
  {
    match f {
      case Done =>
      case Nop(rest) => FilterIsPrune(q, rest);
      case Prop(len, off, value, rest) => FilterIsPrune(q, rest);
      case Sub(name, body, rest) =>
        FilterIsPrune(q, body);
        FilterIsPrune(q, rest);
        ListedCleanAndFiltered(q, body);
        NopsClean(q, |EncodeNode(name, body)|, Filter(q, rest));
    }
  }

  /** Nothing listed is left. */
  ghost predicate NoneListed(q: Query, f: Forest) {
    match f
    case Done => true
    case Nop(rest) => NoneListed(q, rest)
    case Prop(_, _, _, rest) => NoneListed(q, rest)
    case Sub(_, body, rest) => !Listed(q, body) && NoneListed(q, body) && NoneListed(q, rest)
  }

  lemma {:induction false} NopsNoneListed(q: Query, n: nat, rest: Forest)
    ensures NoneListed(q, Nops(n, rest)) == NoneListed(q, rest)
    decreases n
  {
    if n > 0 { NopsNoneListed(q, n - 1, rest); }
  }

  lemma {:induction false} FilterRemovesAll(q: Query, f: Forest)
    ensures NoneListed(q, Filter(q, f))
    decreases f
  {
    match f {
      case Done =>
      case Nop(rest) => FilterRemovesAll(q, rest);
      case Prop(len, off, value, rest) => FilterRemovesAll(q, rest);
      case Sub(name, body, rest) =>
        FilterRemovesAll(q, body);
        FilterRemovesAll(q, rest);
        ListedCleanAndFiltered(q, body);
        NopsNoneListed(q, |EncodeNode(name, body)|, Filter(q, rest));
    }
  }

  lemma {:induction false} FilterIdle(q: Query, f: Forest)
    requires NoneListed(q, f)
    ensures Filter(q, f) == f
    decreases f
  {
    match f {
      case Done =>
      case Nop(rest) => FilterIdle(q, rest);
      case Prop(len, off, value, rest) => FilterIdle(q, rest);
      case Sub(name, body, rest) => FilterIdle(q, body); FilterIdle(q, rest);
    }
  }

  /** The levels of nodes in a tree. */
  function Height(f: Forest): nat {
    match f
    case Done => 0
    case Nop(rest) => Height(rest)
    case Prop(_, _, _, rest) => Height(rest)
    case Sub(_, body, rest) => if Height(rest) > 1 + Height(body) then Height(rest) else 1 + Height(body)
  }

  lemma {:induction false} FilterShape(q: Query, f: Forest)
    requires WellFormed(f)
    ensures WellFormed(Filter(q, f)) && (NoProps(f) ==> NoProps(Filter(q, f))) && Height(Filter(q, f)) <= Height(f)
    decreases f
  {
    match f {
      case Done =>
      case Nop(rest) => FilterShape(q, rest);
      case Prop(len, off, value, rest) => FilterShape(q, rest);
      case Sub(name, body, rest) =>
        FilterShape(q, body);
        FilterShape(q, rest);
        NopsClean(q, |EncodeNode(name, body)|, Filter(q, rest));
    }
  }

  /** No word moves: each one stays or becomes a NOP. */
  ghost predicate Overwritten(was: seq<Word>, now: seq<Word>) {
    |now| == |was| && forall i :: 0 <= i < |was| ==> now[i] == was[i] || now[i] == FDT_NOP
  }

  lemma {:induction false} OverwrittenJoin(a: seq<Word>, a': seq<Word>, b: seq<Word>, b': seq<Word>)
    requires Overwritten(a, a') && Overwritten(b, b')
    ensures Overwritten(a + b, a' + b')
  {}

  lemma {:induction false} FilterOverwrites(q: Query, f: Forest)
    ensures Overwritten(Encode(f), Encode(Filter(q, f)))
    decreases f
  {
    match f {
      case Done =>
      case Nop(rest) =>
        FilterOverwrites(q, rest);
        OverwrittenJoin([FDT_NOP], [FDT_NOP], Encode(rest), Encode(Filter(q, rest)));
      case Prop(len, off, value, rest) =>
        FilterOverwrites(q, rest);
        var h := [FDT_PROP, len, off] + value;
        OverwrittenJoin(h, h, Encode(rest), Encode(Filter(q, rest)));
      case Sub(name, body, rest) =>
        FilterOverwrites(q, body);
        FilterOverwrites(q, rest);
        var n := EncodeNode(name, body);
        var n' := if Listed(q, body) then NopWords(|n|) else EncodeNode(name, Filter(q, body));
        var head := [FDT_BEGIN_NODE] + name;
        NopsEncode(|n|, Filter(q, rest));
        OverwrittenJoin(head, head, Encode(body), Encode(Filter(q, body)));
        OverwrittenJoin(head + Encode(body), head + Encode(Filter(q, body)), [FDT_END_NODE], [FDT_END_NODE]);
        OverwrittenJoin(n, n', Encode(rest), Encode(Filter(q, rest)));
    }
  }

  // ---- the scan: depth and kill ----

  /** scan->kill after the callbacks of a run of items at depth d. */
  function ScanKill(q: Query, f: Forest, d: int, kill: int): int
    decreases f
  {
    match f
    case Done => kill
    case Nop(rest) => ScanKill(q, rest, d, kill)
    case Prop(len, off, value, rest) => ScanKill(q, rest, d, PropKill(q, len, off, value, d, kill))
    case Sub(name, body, rest) => ScanKill(q, rest, d, CloseKill(ScanKill(q, body, d + 1, kill), d + 1))
  }

  /** compat_prop */
  function PropKill(q: Query, len: Word, off: Word, value: seq<Word>, d: int, kill: int): int {
    if Lists(q, len, off, value) && d < kill then d else kill
  }

  /** compat_close */
  function CloseKill(kill: int, d: int): int { if kill == d then NO_KILL else kill }

  /** The words the scan leaves behind. */
  function ScanOut(q: Query, f: Forest, d: int, kill: int): seq<Word>
    decreases f
  {
    match f
    case Done => []
    case Nop(rest) => [FDT_NOP] + ScanOut(q, rest, d, kill)
    case Prop(len, off, value, rest) =>
      [FDT_PROP, len, off] + value + ScanOut(q, rest, d, PropKill(q, len, off, value, d, kill))
    case Sub(name, body, rest) =>
      var k := ScanKill(q, body, d + 1, kill);
      (if k == d + 1 then NopWords(|EncodeNode(name, body)|)
       else [FDT_BEGIN_NODE] + name + ScanOut(q, body, d + 1, kill) + [FDT_END_NODE])
      + ScanOut(q, rest, d, CloseKill(k, d + 1))
  }

  /** Below a node that will be removed, nothing is changed and nothing more is found. */
  lemma {:induction false} ScanDoomed(q: Query, f: Forest, d: int, kill: int)
    requires kill <= d
    ensures ScanKill(q, f, d, kill) == kill && ScanOut(q, f, d, kill) == Encode(f)
    decreases f
  {
    match f {
      case Done =>
      case Nop(rest) => ScanDoomed(q, rest, d, kill);
      case Prop(len, off, value, rest) => ScanDoomed(q, rest, d, kill);
      case Sub(name, body, rest) => ScanDoomed(q, body, d + 1, kill); ScanDoomed(q, rest, d, kill);
    }
  }

  /** From depth 999 on, no match can lower the kill depth any more. */
  lemma {:induction false} ScanTooDeep(q: Query, f: Forest, d: int)
    requires d >= NO_KILL
    ensures ScanKill(q, f, d, NO_KILL) == NO_KILL
    decreases f
  {
    match f {
      case Done =>
      case Nop(rest) => ScanTooDeep(q, rest, d);
      case Prop(len, off, value, rest) => ScanTooDeep(q, rest, d);
      case Sub(name, body, rest) => ScanTooDeep(q, body, d + 1); ScanTooDeep(q, rest, d);
    }
  }

  /** A surviving node at depth 999 that is not listed: kill, at rest, equals its depth. */
  ghost predicate TooDeep(q: Query, f: Forest, d: int) {
    match f
    case Done => false
    case Nop(rest) => TooDeep(q, rest, d)
    case Prop(_, _, _, rest) => TooDeep(q, rest, d)
    case Sub(_, body, rest) =>
      (!Listed(q, body) && (d + 1 == NO_KILL || TooDeep(q, body, d + 1))) || TooDeep(q, rest, d)
  }

  /** While no node is to be removed, the scan finds whether this one is listed, and otherwise filters its
      children, unless one of them is at depth 999 and goes for no reason. */
  lemma {:induction false} ScanLive(q: Query, f: Forest, d: int)
    requires WellFormed(f) && d < NO_KILL
    ensures ScanKill(q, f, d, NO_KILL) == if Listed(q, f) then d else NO_KILL
    ensures !Listed(q, f) ==> |ScanOut(q, f, d, NO_KILL)| == |Encode(f)|
    ensures !Listed(q, f) ==> (ScanOut(q, f, d, NO_KILL) == Encode(Filter(q, f)) <==> !TooDeep(q, f, d))
    decreases f
  {
    FilterOverwrites(q, f);
    match f {
      case Done =>
      case Nop(rest) =>
        ScanLive(q, rest, d);
        SameParts([FDT_NOP], [FDT_NOP], ScanOut(q, rest, d, NO_KILL), Encode(Filter(q, rest)));
      case Prop(len, off, value, rest) =>
        if Lists(q, len, off, value) {
          ScanDoomed(q, rest, d, d);
        } else {
          ScanLive(q, rest, d);
          var h := [FDT_PROP, len, off] + value;
          SameParts(h, h, ScanOut(q, rest, d, NO_KILL), Encode(Filter(q, rest)));
        }
      case Sub(name, body, rest) =>
        NoPropsUnlisted(q, rest);
        ScanLive(q, rest, d);
        ScanLiveNode(q, name, body, rest, d);
    }
  }

  lemma {:induction false} NoPropsUnlisted(q: Query, f: Forest)
    requires NoProps(f)
    ensures !Listed(q, f)
    decreases f
  {
    match f {
      case Done =>
      case Nop(rest) => NoPropsUnlisted(q, rest);
      case Sub(_, _, rest) => NoPropsUnlisted(q, rest);
    }
  }

  /** When the node itself is listed, nothing below it is changed: all of it will go. */
  lemma {:induction false} ScanListed(q: Query, f: Forest, d: int)
    requires WellFormed(f) && d < NO_KILL && Listed(q, f)
    ensures ScanOut(q, f, d, NO_KILL) == Encode(f)
    decreases f
  {
    match f {
      case Nop(rest) => ScanListed(q, rest, d);
      case Prop(len, off, value, rest) =>
        if Lists(q, len, off, value) { ScanDoomed(q, rest, d, d); } else { ScanListed(q, rest, d); }
      case Sub(name, body, rest) => NoPropsUnlisted(q, rest);
    }
  }

  lemma {:induction false} SameParts(a: seq<Word>, a': seq<Word>, b: seq<Word>, b': seq<Word>)
    requires |a| == |a'|
    ensures a + b == a' + b' <==> a == a' && b == b'
  {
    if a + b == a' + b' { assert a == (a + b)[..|a|] == a'; assert b == (a + b)[|a|..] == b'; }
  }

  /** One child and its siblings, given what the scan of the siblings does. */
  lemma {:induction false} ScanLiveNode(q: Query, name: seq<Word>, body: Forest, rest: Forest, d: int)
    requires WellFormed(body) && d < NO_KILL && |name| > 0
    requires ScanKill(q, rest, d, NO_KILL) == NO_KILL && |ScanOut(q, rest, d, NO_KILL)| == |Encode(rest)|
    requires ScanOut(q, rest, d, NO_KILL) == Encode(Filter(q, rest)) <==> !TooDeep(q, rest, d)
    ensures var f := Sub(name, body, rest);
            ScanKill(q, f, d, NO_KILL) == NO_KILL && |ScanOut(q, f, d, NO_KILL)| == |Encode(f)| &&
            (ScanOut(q, f, d, NO_KILL) == Encode(Filter(q, f)) <==> !TooDeep(q, f, d))
    decreases Sub(name, body, rest), 0
  {
    var n := |EncodeNode(name, body)|;
    NopsEncode(n, Filter(q, rest));
    FilterOverwrites(q, body);
    if d + 1 == NO_KILL { ScanTooDeep(q, body, d + 1); } else { ScanLive(q, body, d + 1); }
    var tail, tail' := ScanOut(q, rest, d, NO_KILL), Encode(Filter(q, rest));
    if ScanKill(q, body, d + 1, NO_KILL) == d + 1 {
      if Listed(q, body) {
        SameParts(NopWords(n), NopWords(n), tail, tail');
      } else {
        var kept := EncodeNode(name, Filter(q, body));
        assert NopWords(n)[0] == FDT_NOP && kept[0] == FDT_BEGIN_NODE;
        SameParts(NopWords(n), kept, tail, tail');
      }
    } else {
      var head, inside := [FDT_BEGIN_NODE] + name, ScanOut(q, body, d + 1, NO_KILL);
      var kept, out := EncodeNode(name, Filter(q, body)), head + inside + [FDT_END_NODE];
      SameParts(out, kept, tail, tail');
      SameParts(head, head, inside, Encode(Filter(q, body)));
      SameParts(head + inside, head + Encode(Filter(q, body)), [FDT_END_NODE], [FDT_END_NODE]);
    }
  }

  lemma {:induction false} ShallowIsFine(q: Query, f: Forest, d: int)
    requires d + Height(f) < NO_KILL
    ensures !TooDeep(q, f, d)
    decreases f
  {
    match f {
      case Done =>
      case Nop(rest) => ShallowIsFine(q, rest, d);
      case Prop(len, off, value, rest) => ShallowIsFine(q, rest, d);
      case Sub(name, body, rest) => ShallowIsFine(q, body, d + 1); ShallowIsFine(q, rest, d);
    }
  }

  // ---- what the scan leaves of every tree ----

  /** The tree with the listed subtrees overwritten, and those at depth 999 too. */
  function Left(q: Query, f: Forest, d: int): Forest
    decreases f
  {
    match f
    case Done => Done
    case Nop(rest) => Nop(Left(q, rest, d))
    case Prop(len, off, value, rest) => Prop(len, off, value, Left(q, rest, d))
    case Sub(name, body, rest) =>
      if Listed(q, body) || d + 1 == NO_KILL then Nops(|EncodeNode(name, body)|, Left(q, rest, d))
      else Sub(name, Left(q, body, d + 1), Left(q, rest, d))
  }

  lemma {:induction false} LeftShape(q: Query, f: Forest, d: int)
    requires WellFormed(f)
    ensures WellFormed(Left(q, f, d)) && (NoProps(f) ==> NoProps(Left(q, f, d)))
    ensures Listed(q, Left(q, f, d)) == Listed(q, f)
    decreases f
  {
    match f {
      case Done =>
      case Nop(rest) => LeftShape(q, rest, d);
      case Prop(len, off, value, rest) => LeftShape(q, rest, d);
      case Sub(name, body, rest) =>
        LeftShape(q, body, d + 1);
        LeftShape(q, rest, d);
        NopsClean(q, |EncodeNode(name, body)|, Left(q, rest, d));
    }
  }

  lemma {:induction false} NopsLeft(q: Query, n: nat, rest: Forest, d: int)
    ensures Left(q, Nops(n, rest), d) == Nops(n, Left(q, rest, d))
    decreases n
  {
    if n > 0 { NopsLeft(q, n - 1, rest, d); }
  }

  /** Of what is left nothing more goes. */
  lemma {:induction false} LeftStays(q: Query, f: Forest, d: int)
    requires WellFormed(f)
    ensures Left(q, Left(q, f, d), d) == Left(q, f, d)
    decreases f
  {
    match f {
      case Done =>
      case Nop(rest) => LeftStays(q, rest, d);
      case Prop(len, off, value, rest) => LeftStays(q, rest, d);
      case Sub(name, body, rest) =>
        LeftStays(q, body, d + 1);
        LeftStays(q, rest, d);
        LeftShape(q, body, d + 1);
        NopsLeft(q, |EncodeNode(name, body)|, Left(q, rest, d), d);
    }
  }

  /** The words of a tree that is not listed as a whole are what is left of it, each one kept or a NOP. */
  lemma {:induction false} ScanLeaves(q: Query, f: Forest, d: int)
    requires WellFormed(f) && d < NO_KILL && !Listed(q, f)
    ensures Leaves(q, f, d)
    decreases f
  {
    match f {
      case Done =>
      case Nop(rest) =>
        ScanLeaves(q, rest, d);
        OverwrittenJoin([FDT_NOP], [FDT_NOP], Encode(rest), Encode(Left(q, rest, d)));
      case Prop(len, off, value, rest) =>
        ScanLeaves(q, rest, d);
        var h := [FDT_PROP, len, off] + value;
        OverwrittenJoin(h, h, Encode(rest), Encode(Left(q, rest, d)));
      case Sub(name, body, rest) =>
        ScanLeaves(q, rest, d);
        if d + 1 == NO_KILL {
          ScanTooDeep(q, body, d + 1);
          LeavesWiped(q, name, body, rest, d);
        } else {
          ScanLive(q, body, d + 1);
          if Listed(q, body) {
            LeavesWiped(q, name, body, rest, d);
          } else {
            ScanLeaves(q, body, d + 1);
            LeavesKept(q, name, body, rest, d);
          }
        }
    }
  }

  ghost predicate Leaves(q: Query, f: Forest, d: int) {
    ScanOut(q, f, d, NO_KILL) == Encode(Left(q, f, d)) && Overwritten(Encode(f), Encode(Left(q, f, d)))
  }

  lemma {:induction false} LeavesWiped(q: Query, name: seq<Word>, body: Forest, rest: Forest, d: int)
    requires ScanKill(q, body, d + 1, NO_KILL) == d + 1 && (Listed(q, body) || d + 1 == NO_KILL) && Leaves(q, rest, d)
    ensures Leaves(q, Sub(name, body, rest), d)
  {
    var n := EncodeNode(name, body);
    NopsEncode(|n|, Left(q, rest, d));
    OverwrittenJoin(n, NopWords(|n|), Encode(rest), Encode(Left(q, rest, d)));
  }

  lemma {:induction false} LeavesKept(q: Query, name: seq<Word>, body: Forest, rest: Forest, d: int)
    requires ScanKill(q, body, d + 1, NO_KILL) == NO_KILL && !Listed(q, body) && d + 1 != NO_KILL
    requires Leaves(q, body, d + 1) && Leaves(q, rest, d)
    ensures Leaves(q, Sub(name, body, rest), d)
  {
    var head, inside := [FDT_BEGIN_NODE] + name, Encode(Left(q, body, d + 1));
    OverwrittenJoin(head, head, Encode(body), inside);
    OverwrittenJoin(head + Encode(body), head + inside, [FDT_END_NODE], [FDT_END_NODE]);
    OverwrittenJoin(EncodeNode(name, body), head + inside + [FDT_END_NODE], Encode(rest), Encode(Left(q, rest, d)));
  }

  /** What filter_compat leaves of a whole block: all of it, when a property outside every node lists the string. */
  function Filtered(q: Query, f: Forest): Forest { if Listed(q, f) then f else Left(q, f, 0) }

  lemma {:induction false} FilteredStays(q: Query, f: Forest)
    requires WellFormed(f)
    ensures Filtered(q, Filtered(q, f)) == Filtered(q, f) && WellFormed(Filtered(q, f))
  {
    LeftShape(q, f, 0);
    LeftStays(q, f, 0);
  }
}
