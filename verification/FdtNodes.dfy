/** What filter_compat removes and keeps, said of the nodes: by the strings of their own properties and of those of the
    nodes above them. */
module FdtNodes {
  import opened Fdt
  import opened FdtFilter

  datatype Property = Property(len: Word, off: Word, value: seq<Word>)

  datatype Node = Node(name: seq<Word>, props: seq<Property>)

  /** The properties of the node whose items these are, those of its children apart. */
  function Own(f: Forest): seq<Property> {
    match f
    case Done => []
    case Nop(rest) => Own(rest)
    case Prop(len, off, value, rest) => [Property(len, off, value)] + Own(rest)
    case Sub(_, _, rest) => Own(rest)
  }

  // ---- when a node is listed ----

  /** One of the strings of the list that fills the first len bytes of b is s: it begins there or behind a zero byte,
      and the next zero byte follows it. */
  ghost predicate InList(b: seq<Byte>, len: nat, s: seq<Byte>) { exists i :: StartsAt(b, 0, i, len) && IsAt(b, i, s) }

  predicate StartsAt(b: seq<Byte>, from: nat, i: nat, len: nat) {
    from <= i < len && i <= |b| && (i == from || b[i - 1] == 0)
  }

  predicate IsAt(b: seq<Byte>, i: nat, s: seq<Byte>) {
    i + |s| < |b| && (forall k :: 0 <= k < |s| ==> b[i + k] == s[k]) && b[i + |s|] == 0
  }

  lemma {:induction false} EqualIsAt(b: seq<Byte>, i: nat, s: seq<Byte>)
    ensures StrEq(b, i, s) <==> IsAt(b, i, s)
  {
    if IsAt(b, i, s) { assert b[i..i + |s|] == s; }
    if StrEq(b, i, s) { forall k | 0 <= k < |s| ensures b[i + k] == s[k] { assert b[i..i + |s|][k] == s[k]; } }
  }

  /** The strings that strlen steps through are those that begin behind zero bytes. */
  lemma {:induction false} StringsBegin(b: seq<Byte>, from: nat, len: nat, s: seq<Byte>)
    requires len < |b| && b[|b| - 1] == 0 && 0 !in s
    ensures s in Strings(b, from, len) <==> exists i :: StartsAt(b, from, i, len) && IsAt(b, i, s)
    decreases len - from
  {
    if from < len {
      var t := Term(b, from);
      TermPrefix(b, [], from);
      assert b + [] == b;
      StringsBegin(b, t + 1, len, s);
      StrEqIsString(b, from, s);
      EqualIsAt(b, from, s);
      var first, more := b[from..t], Strings(b, t + 1, len);
      assert Strings(b, from, len) == [first] + more;
      if s in more {
        var i :| StartsAt(b, t + 1, i, len) && IsAt(b, i, s);
        assert StartsAt(b, from, i, len);
      } else if s == first {
        assert StartsAt(b, from, from, len);
      }
      forall i | StartsAt(b, from, i, len) && IsAt(b, i, s) ensures s == first || s in more {
        if i != from {
          assert i > t;
          assert StartsAt(b, t + 1, i, len);
        }
      }
    }
  }

  /** A property that lists the string: its name is "compatible" and one of its strings is the one looked for. */
  ghost predicate Compatible(q: Query, p: Property) {
    && IsAt(q.strings, p.off, COMPATIBLE) && p.len <= 4 * |p.value|
    && InList(Bytes(p.value) + [0], p.len, q.compat)
  }

  lemma {:induction false} TheName()
    ensures |COMPATIBLE| == |"compatible"|
    ensures forall i :: 0 <= i < |COMPATIBLE| ==> COMPATIBLE[i] == "compatible"[i] as int
  {}

  ghost predicate Marked(q: Query, props: seq<Property>) {
    exists k :: 0 <= k < |props| && Compatible(q, props[k])
  }

  lemma {:induction false} ListsIff(q: Query, len: Word, off: Word, value: seq<Word>)
    requires 0 !in q.compat
    ensures Lists(q, len, off, value) <==> Compatible(q, Property(len, off, value))
    ensures len <= 4 * |value| ==>
              (InList(Bytes(value) + [0], len, q.compat) <==> q.compat in Strings(Bytes(value) + [0], 0, len))
  {
    EqualIsAt(q.strings, off, COMPATIBLE);
    if len <= 4 * |value| {
      ListIndexFindsFirst(Bytes(value) + [0], 0, len, q.compat, 0);
      StringsBegin(Bytes(value) + [0], 0, len, q.compat);
    }
  }

  /** A node is listed exactly when one of its own properties lists the string. */
  lemma {:induction false} ListedIff(q: Query, f: Forest)
    requires 0 !in q.compat
    ensures Listed(q, f) <==> Marked(q, Own(f))
    decreases f
  {
    match f {
      case Done =>
      case Nop(rest) => ListedIff(q, rest);
      case Prop(len, off, value, rest) =>
        ListedIff(q, rest);
        ListsIff(q, len, off, value);
        MarkedFirst(q, Property(len, off, value), Own(rest));
      case Sub(_, _, rest) => ListedIff(q, rest);
    }
  }

  lemma {:induction false} MarkedFirst(q: Query, p: Property, props: seq<Property>)
    ensures Marked(q, [p] + props) <==> Compatible(q, p) || Marked(q, props)
  {
    if Compatible(q, p) { assert Compatible(q, ([p] + props)[0]); }
    if Marked(q, props) {
      var k :| 0 <= k < |props| && Compatible(q, props[k]);
      assert Compatible(q, ([p] + props)[k + 1]);
    }
    if Marked(q, [p] + props) {
      var k :| 0 <= k < |[p] + props| && Compatible(q, ([p] + props)[k]);
      if k > 0 { assert Compatible(q, props[k - 1]); }
    }
  }

  // ---- which nodes stay ----

  /** Every node, in the order of the block, with the nodes above it before it. */
  function Chains(f: Forest, above: seq<Node>): seq<seq<Node>>
    decreases f
  {
    match f
    case Done => []
    case Nop(rest) => Chains(rest, above)
    case Prop(_, _, _, rest) => Chains(rest, above)
    case Sub(name, body, rest) =>
      var here := above + [Node(name, Own(body))];
      [here] + Chains(body, here) + Chains(rest, above)
  }

  ghost predicate NoneMarked(q: Query, chain: seq<Node>) {
    forall k :: 0 <= k < |chain| ==> !Marked(q, chain[k].props)
  }

  /** A node stays when neither it nor a node above it lists the string, and it is less than 999 levels deep. */
  ghost predicate Stays(q: Query, chain: seq<Node>) { |chain| < 999 && NoneMarked(q, chain) }

  ghost function Staying(q: Query, chains: seq<seq<Node>>): seq<seq<Node>> {
    if chains == [] then [] else (if Stays(q, chains[0]) then [chains[0]] else []) + Staying(q, chains[1..])
  }

  lemma {:induction false} StayingJoin(q: Query, a: seq<seq<Node>>, b: seq<seq<Node>>)
    ensures Staying(q, a + b) == Staying(q, a) + Staying(q, b)
    decreases |a|
  {
    if a == [] {
      assert a + b == b;
    } else {
      assert (a + b)[0] == a[0] && (a + b)[1..] == a[1..] + b;
      StayingJoin(q, a[1..], b);
    }
  }

  lemma {:induction false} NoneStays(q: Query, chains: seq<seq<Node>>)
    requires forall c :: c in chains ==> !Stays(q, c)
    ensures Staying(q, chains) == []
    decreases |chains|
  {
    if chains != [] { NoneStays(q, chains[1..]); }
  }

  lemma {:induction false} ChainsExtend(f: Forest, above: seq<Node>)
    ensures forall c :: c in Chains(f, above) ==> |c| > |above| && c[..|above|] == above
    decreases f
  {
    match f {
      case Done =>
      case Nop(rest) => ChainsExtend(rest, above);
      case Prop(_, _, _, rest) => ChainsExtend(rest, above);
      case Sub(name, body, rest) =>
        var here := above + [Node(name, Own(body))];
        ChainsExtend(body, here);
        ChainsExtend(rest, above);
        forall c | c in Chains(f, above) ensures |c| > |above| && c[..|above|] == above {
          if c in Chains(body, here) { assert c[..|above|] == c[..|here|][..|above|]; }
        }
    }
  }

  lemma {:induction false} NopsOwn(n: nat, rest: Forest, above: seq<Node>)
    ensures Own(Nops(n, rest)) == Own(rest) && Chains(Nops(n, rest), above) == Chains(rest, above)
    decreases n
  {
    if n > 0 { NopsOwn(n - 1, rest, above); }
  }

  /** A node keeps its own properties. */
  lemma {:induction false} LeftOwn(q: Query, f: Forest, d: int)
    ensures Own(Left(q, f, d)) == Own(f)
    decreases f
  {
    match f {
      case Done =>
      case Nop(rest) => LeftOwn(q, rest, d);
      case Prop(_, _, _, rest) => LeftOwn(q, rest, d);
      case Sub(name, body, rest) => LeftOwn(q, rest, d); NopsOwn(|EncodeNode(name, body)|, Left(q, rest, d), []);
    }
  }

  /** Exactly the nodes stay that should, in their order, with their names and properties. */
  lemma {:induction false} LeftChains(q: Query, f: Forest, above: seq<Node>)
    requires 0 !in q.compat && Stays(q, above)
    ensures Chains(Left(q, f, |above|), above) == Staying(q, Chains(f, above))
    decreases f
  {
    match f {
      case Done =>
      case Nop(rest) => LeftChains(q, rest, above);
      case Prop(_, _, _, rest) => LeftChains(q, rest, above);
      case Sub(name, body, rest) => LeftNode(q, name, body, rest, above);
    }
  }

  lemma {:induction false} LeftNode(q: Query, name: seq<Word>, body: Forest, rest: Forest, above: seq<Node>)
    requires 0 !in q.compat && Stays(q, above)
    ensures Chains(Left(q, Sub(name, body, rest), |above|), above) == Staying(q, Chains(Sub(name, body, rest), above))
    decreases Sub(name, body, rest), 0
  {
    var here := above + [Node(name, Own(body))];
    LeftChains(q, rest, above);
    ListedIff(q, body);
    StaysBelow(q, above, Node(name, Own(body)));
    StayingNode(q, here, Chains(body, here), Chains(rest, above));
    if Stays(q, here) {
      LeftChains(q, body, here);
      LeftOwn(q, body, |here|);
    } else {
      NopsOwn(|EncodeNode(name, body)|, Left(q, rest, |above|), above);
      NoneBelow(q, body, here);
    }
  }

  lemma {:induction false} StayingNode(q: Query, here: seq<Node>, below: seq<seq<Node>>, rest: seq<seq<Node>>)
    ensures Staying(q, [here] + below + rest) ==
            (if Stays(q, here) then [here] else []) + Staying(q, below) + Staying(q, rest)
  {
    StayingJoin(q, [here] + below, rest);
    StayingJoin(q, [here], below);
    assert [here][1..] == [];
  }

  lemma {:induction false} NoneBelow(q: Query, body: Forest, here: seq<Node>)
    requires !Stays(q, here)
    ensures Staying(q, Chains(body, here)) == []
  {
    ChainsExtend(body, here);
    forall c | c in Chains(body, here) ensures !Stays(q, c) { StaysAbove(q, c, |here|); }
    NoneStays(q, Chains(body, here));
  }

  lemma {:induction false} StaysBelow(q: Query, above: seq<Node>, n: Node)
    requires Stays(q, above)
    ensures Stays(q, above + [n]) <==> |above| + 1 < NO_KILL && !Marked(q, n.props)
  {
    var here := above + [n];
    if !Marked(q, n.props) {
      forall k | 0 <= k < |here| ensures !Marked(q, here[k].props) { if k < |above| { assert here[k] == above[k]; } }
    } else {
      assert here[|above|] == n;
    }
  }

  lemma {:induction false} StaysAbove(q: Query, c: seq<Node>, n: nat)
    requires n <= |c|
    ensures Stays(q, c) ==> Stays(q, c[..n])
  {}

  /** Of a whole block: nothing goes when a property outside every node lists the string; otherwise exactly the nodes
      stay that should. */
  lemma {:induction false} FilteredChains(q: Query, f: Forest)
    requires 0 !in q.compat
    ensures Own(Filtered(q, f)) == Own(f)
    ensures Chains(Filtered(q, f), []) == if Marked(q, Own(f)) then Chains(f, []) else Staying(q, Chains(f, []))
  {
    ListedIff(q, f);
    LeftOwn(q, f, 0);
    LeftChains(q, f, []);
  }

  // ---- nodes too deep ----

  /** A node of no listed kind is 999 levels deep. */
  ghost predicate DeepIn(q: Query, chains: seq<seq<Node>>) {
    exists c :: c in chains && |c| == 999 && NoneMarked(q, c)
  }

  /** The depth condition, on the nodes. */
  lemma {:induction false} TooDeepIff(q: Query, f: Forest, above: seq<Node>)
    requires 0 !in q.compat && Stays(q, above)
    ensures TooDeep(q, f, |above|) <==> DeepIn(q, Chains(f, above))
    decreases f
  {
    match f {
      case Done =>
      case Nop(rest) => TooDeepIff(q, rest, above);
      case Prop(_, _, _, rest) => TooDeepIff(q, rest, above);
      case Sub(name, body, rest) => TooDeepNode(q, name, body, rest, above);
    }
  }

  lemma {:induction false} TooDeepNode(q: Query, name: seq<Word>, body: Forest, rest: Forest, above: seq<Node>)
    requires 0 !in q.compat && Stays(q, above)
    ensures TooDeep(q, Sub(name, body, rest), |above|) <==> DeepIn(q, Chains(Sub(name, body, rest), above))
    decreases Sub(name, body, rest), 0
  {
    var here := above + [Node(name, Own(body))];
    TooDeepIff(q, rest, above);
    ListedIff(q, body);
    MarkedBelow(q, above, Node(name, Own(body)));
    DeepJoin(q, [here] + Chains(body, here), Chains(rest, above));
    DeepJoin(q, [here], Chains(body, here));
    ChainsExtend(body, here);
    forall c | c in Chains(body, here) && NoneMarked(q, c) ensures NoneMarked(q, here) {
      forall k | 0 <= k < |here| ensures !Marked(q, here[k].props) { assert here[k] == c[..|here|][k] == c[k]; }
    }
    if |here| < NO_KILL && NoneMarked(q, here) { TooDeepIff(q, body, here); }
    if |here| == NO_KILL && NoneMarked(q, here) { assert here in [here]; }
  }

  lemma {:induction false} MarkedBelow(q: Query, above: seq<Node>, n: Node)
    requires NoneMarked(q, above)
    ensures NoneMarked(q, above + [n]) <==> !Marked(q, n.props)
  {
    var here := above + [n];
    assert here[|above|] == n;
    if !Marked(q, n.props) {
      forall k | 0 <= k < |here| ensures !Marked(q, here[k].props) { if k < |above| { assert here[k] == above[k]; } }
    }
  }

  lemma {:induction false} DeepJoin(q: Query, a: seq<seq<Node>>, b: seq<seq<Node>>)
    ensures DeepIn(q, a + b) <==> DeepIn(q, a) || DeepIn(q, b)
  {
    if DeepIn(q, a) { var c :| c in a && |c| == NO_KILL && NoneMarked(q, c); assert c in a + b; }
    if DeepIn(q, b) { var c :| c in b && |c| == NO_KILL && NoneMarked(q, c); assert c in a + b; }
  }
}
