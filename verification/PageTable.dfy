/** The three-level Sv39 page table of pk/mmap.c, stored as words in a pool of pages.
    The radix walk is shown to implement a flat map from virtual page numbers to leaf words. */
module PageTable {
  const VPNS: nat := 0x800_0000             // 2^(VA_BITS - RISCV_PGSHIFT)

  datatype Node = Node(level: int, prefix: int)

  /** pt_idx, with the level a literal of the three-iteration loop */
  function PtIdx(vpn: nat, level: int): (i: nat)
    requires 0 <= level <= 2
    ensures i < 512
  {
    if level == 0 then vpn % 512 else if level == 1 then vpn / 512 % 512 else vpn / 512 / 512 % 512
  }

  /** The table page that covers vpn at a level. */
  function NodeFor(vpn: nat, level: int): Node {
    Node(level, if level == 0 then vpn / 512 else if level == 1 then vpn / 512 / 512 else 0)
  }

  function Child(n: Node, idx: int): Node { Node(n.level - 1, n.prefix * 512 + idx) }
  function Parent(n: Node): Node { Node(n.level + 1, n.prefix / 512) }

  lemma {:induction false} ChildOnPath(vpn: nat, level: int)
    requires vpn < VPNS && 1 <= level <= 2
    ensures Child(NodeFor(vpn, level), PtIdx(vpn, level)) == NodeFor(vpn, level - 1)
  {}

  lemma {:induction false} ChildUnique(n: Node, i: int, n': Node, i': int)
    requires 0 <= i < 512 && 0 <= i' < 512
    ensures Child(n, i) == Child(n', i') <==> n == n' && i == i'
    ensures Parent(Child(n, i)) == n
  {}

  function PtePpn(pte: nat): nat { pte / 1024 }
  predicate Valid(pte: nat) { pte % 2 == 1 }
  function PtdCreate(ppn: nat): (pte: nat)
    ensures Valid(pte) && PtePpn(pte) == ppn
  {
    assert ppn * 1024 + 1 == 2 * (ppn * 512) + 1;
    ppn * 1024 + 1
  }

  // ---- the shape of a table, on values: the pool words and which pages are tables ----

  ghost predicate HasPage(node: map<nat, Node>, n: Node) {
    exists k :: k in node && node[k] == n
  }

  /** A valid interior word names the one page for its child; an invalid one means there is no such page. */
  ghost predicate Interior(words: seq<nat>, node: map<nat, Node>, base: nat, k: nat, i: int)
    requires k in node && 0 <= i < 512 && 512 * k + 512 <= |words|
  {
    var w := words[512 * k + i];
    if Valid(w)
    then w == PtdCreate(PtePpn(w)) && PtePpn(w) >= base && PtePpn(w) - base in node &&
         node[PtePpn(w) - base] == Child(node[k], i)
    else w == 0 && !HasPage(node, Child(node[k], i))
  }

  ghost predicate Pages(words: seq<nat>, node: map<nat, Node>, next: nat) {
    && 512 * next <= |words|
    && 0 in node && node[0] == Node(2, 0)
    && (forall k :: k in node ==> k < next && 0 <= node[k].level <= 2)
    && (forall k, k' :: k in node && k' in node && node[k] == node[k'] ==> k == k')
    && (forall k :: k in node && node[k].level < 2 ==> HasPage(node, Parent(node[k])))
  }

  ghost predicate Shape(words: seq<nat>, node: map<nat, Node>, base: nat, next: nat) {
    && Pages(words, node, next)
    && (forall k, i :: k in node && node[k].level > 0 && 0 <= i < 512 ==> Interior(words, node, base, k, i))
  }

  ghost function PageOf(node: map<nat, Node>, n: Node): (k: nat)
    requires HasPage(node, n)
    ensures k in node && node[k] == n
  {
    var k :| k in node && node[k] == n; k
  }

  ghost function SlotOf(node: map<nat, Node>, vpn: nat): nat
    requires HasPage(node, NodeFor(vpn, 0))
  {
    512 * PageOf(node, NodeFor(vpn, 0)) + vpn % 512
  }

  /** The flat map: the leaf word of a virtual page, 0 where no table page covers it. */
  ghost function Entry(words: seq<nat>, node: map<nat, Node>, next: nat, vpn: nat): nat {
    if HasPage(node, NodeFor(vpn, 0)) && SlotOf(node, vpn) < |words| then words[SlotOf(node, vpn)] else 0
  }

  /** No two virtual pages share a slot. */
  lemma {:induction false} SlotsDistinct(words: seq<nat>, node: map<nat, Node>, next: nat, v: nat, v': nat)
    requires Pages(words, node, next) && v != v' && HasPage(node, NodeFor(v, 0)) && HasPage(node, NodeFor(v', 0))
    ensures SlotOf(node, v) != SlotOf(node, v') && SlotOf(node, v) < |words|
  {
    var k, k' := PageOf(node, NodeFor(v, 0)), PageOf(node, NodeFor(v', 0));
    assert v == v / 512 * 512 + v % 512 && v' == v' / 512 * 512 + v' % 512;
  }

  /** A covered page has a table page at every level of its path. */
  lemma {:induction false} PathComplete(words: seq<nat>, node: map<nat, Node>, next: nat, vpn: nat)
    requires Pages(words, node, next) && vpn < VPNS && HasPage(node, NodeFor(vpn, 0))
    ensures HasPage(node, NodeFor(vpn, 1))
  {
    var k := PageOf(node, NodeFor(vpn, 0));
    assert HasPage(node, Parent(node[k]));
  }

  /** How many interior levels of the path to vpn have no page yet. */
  ghost function Missing(node: map<nat, Node>, vpn: nat): nat {
    (if HasPage(node, NodeFor(vpn, 1)) then 0 else 1) + (if HasPage(node, NodeFor(vpn, 0)) then 0 else 1)
  }

  /** The tables there are, and the two a page needs below the root. */
  ghost function Have(node: map<nat, Node>): set<Node> { node.Values }
  ghost function Path(vpn: nat): set<Node> { {NodeFor(vpn, 1), NodeFor(vpn, 0)} }

  lemma {:induction false} HaveHas(node: map<nat, Node>, n: Node)
    ensures HasPage(node, n) <==> n in Have(node)
  {}

  /** A path needs as many new pages as it has tables that are not there yet. */
  lemma {:induction false} MissingIs(node: map<nat, Node>, vpn: nat)
    ensures Missing(node, vpn) == |Path(vpn) - Have(node)| == |Have(node) + Path(vpn)| - |Have(node)|
  {
    HaveHas(node, NodeFor(vpn, 1));
    HaveHas(node, NodeFor(vpn, 0));
    TwoMore(Have(node), NodeFor(vpn, 1), NodeFor(vpn, 0));
  }

  lemma {:induction false} TwoMore(have: set<Node>, a: Node, b: Node)
    requires a != b
    ensures |{a, b} - have| == (if a in have then 0 else 1) + (if b in have then 0 else 1)
    ensures |have + {a, b}| == |have| + |{a, b} - have|
  {
    assert {a, b} - have == (if a in have then {} else {a}) + (if b in have then {} else {b});
    assert have + {a, b} == have + ({a, b} - have);
  }

  lemma {:induction false} HaveGrows(node: map<nat, Node>, page: nat, n: Node)
    requires page !in node
    ensures Have(node[page := n]) == Have(node) + {n}
  {
    var node' := node[page := n];
    forall m ensures m in Have(node') <==> m in Have(node) + {n} { GrowNode(node, page, n, m); }
  }

  ghost predicate Between(from: nat, p: nat, to: nat) { from <= p < to }
  ghost function Span(from: nat, to: nat): set<nat> { set p: nat | from <= p < to && Between(from, p, to) }

  lemma {:induction false} SpanJoin(a: nat, b: nat, c: nat)
    requires a <= b <= c
    ensures Span(a, b) + Span(b, c) == Span(a, c) && Span(a, a) == {}
  {}

  /** What creating the path of a page does: exactly the missing tables of the path are new, on the pages from next on.
      The meaning is looked up by naming the key. */
  ghost predicate Grown(node: map<nat, Node>, next: nat, vpn: nat, node': map<nat, Node>, next': nat) {
    forall u: nat {:trigger GrownKey(next, next', u)} :: GrownKey(next, next', u) ==>
      Have(node') == Have(node) + Path(vpn) && node'.Keys == node.Keys + Span(next, next')
  }

  ghost predicate GrownKey(next: nat, next': nat, u: nat) { u == u }

  lemma {:induction false} GrownMeans(node: map<nat, Node>, next: nat, vpn: nat, node': map<nat, Node>, next': nat)
    requires Grown(node, next, vpn, node', next')
    ensures Have(node') == Have(node) + Path(vpn) && node'.Keys == node.Keys + Span(next, next')
  {
    assert GrownKey(next, next', 0);
  }

  lemma {:induction false} GrownNone(node: map<nat, Node>, next: nat, vpn: nat)
    requires HasPage(node, NodeFor(vpn, 1)) && HasPage(node, NodeFor(vpn, 0))
    ensures Grown(node, next, vpn, node, next)
  {
    HaveHas(node, NodeFor(vpn, 1));
    HaveHas(node, NodeFor(vpn, 0));
    assert Have(node) + Path(vpn) == Have(node);
    SpanJoin(next, next, next);
    assert node.Keys + Span(next, next) == node.Keys;
  }

  lemma {:induction false} GrownMore(node: map<nat, Node>, next: nat, vpn: nat, n: Node, mid: map<nat, Node>,
                                     node': map<nat, Node>, next': nat)
    requires next !in node && mid == node[next := n] && n in Path(vpn) && next < next'
    requires Grown(mid, next + 1, vpn, node', next')
    ensures Grown(node, next, vpn, node', next')
  {
    GrownMeans(mid, next + 1, vpn, node', next');
    HaveGrows(node, next, n);
    assert Have(mid) + Path(vpn) == Have(node) + Path(vpn);
    SpanJoin(next, next + 1, next');
    assert Span(next, next + 1) == {next};
    assert mid.Keys == node.Keys + {next};
  }

  /** The words of the pages the allocator has not reached. */
  ghost predicate KeptAbove(words: seq<nat>, words': seq<nat>, next: nat) {
    |words'| == |words| && forall i :: 512 * next <= i < |words| ==> words'[i] == words[i]
  }

  lemma {:induction false} KeptJoin(words: seq<nat>, mid: seq<nat>, next: nat, words': seq<nat>, next': nat)
    requires KeptAbove(words, mid, next) && KeptAbove(mid, words', next') && next <= next'
    ensures KeptAbove(words, words', next')
  {}

  // ---- what creating a path writes ----

  /** A page of the pool that was cleared and into which at most one link was written since. */
  ghost predicate AlmostClear(words: seq<nat>, page: nat) {
    512 * page + 512 <= |words| && exists k: nat :: ClearBut(words, page, k)
  }

  ghost predicate ClearBut(words: seq<nat>, page: nat, k: nat)
    requires 512 * page + 512 <= |words|
  {
    forall i :: 512 * page <= i < 512 * page + 512 && i != k ==> words[i] == 0
  }

  /** At most one of the words of the pages below `next` is changed. */
  ghost predicate OneChanged(words: seq<nat>, words': seq<nat>, next: nat) {
    |words'| == |words| && exists k: nat :: SameBut(words, words', next, k)
  }

  ghost predicate SameBut(words: seq<nat>, words': seq<nat>, next: nat, k: nat)
    requires |words'| == |words|
  {
    forall i :: 0 <= i < 512 * next && i < |words| && i != k ==> words'[i] == words[i]
  }

  /** Page `next` was cleared and linked under one of the pages below it. */
  ghost predicate Hung(words: seq<nat>, words': seq<nat>, next: nat) {
    && OneChanged(words, words', next) && 512 * next + 512 <= |words'|
    && forall i :: 512 * next <= i < 512 * next + 512 ==> words'[i] == 0
  }

  /** What a path with `missing` tables to create writes below next': nothing, one word, or a chain of new tables each
      of which holds at most the link to the next. Looked up by naming the key. */
  ghost predicate Wrote(words: seq<nat>, words': seq<nat>, next: nat, next': nat, missing: nat) {
    forall u: nat {:trigger WroteKey(next, next', u)} :: WroteKey(next, next', u) ==>
      WroteMeans(words, words', next, next', missing)
  }

  ghost predicate WroteKey(next: nat, next': nat, u: nat) { u == u }

  ghost predicate WroteMeans(words: seq<nat>, words': seq<nat>, next: nat, next': nat, missing: nat) {
    && (missing == 0 ==> words' == words)
    && (missing <= 1 ==> OneChanged(words, words', next))
    && (forall p: nat :: next <= p < next' ==> AlmostClear(words', p))
  }

  lemma {:induction false} WroteNone(words: seq<nat>, next: nat)
    ensures Wrote(words, words, next, next, 0)
  {
    assert SameBut(words, words, next, 0);
  }

  lemma {:induction false} WroteMore(words: seq<nat>, mid: seq<nat>, words': seq<nat>, next: nat, next': nat,
                                     missing: nat)
    requires 1 <= missing <= 2 && Hung(words, mid, next) && Wrote(mid, words', next + 1, next', missing - 1)
    ensures Wrote(words, words', next, next', missing)
  {
    assert WroteKey(next + 1, next', 0);
    forall p: nat | next <= p < next' ensures AlmostClear(words', p) {
      if p == next { StillAlmostClear(mid, words', next); }
    }
  }

  lemma {:induction false} StillAlmostClear(mid: seq<nat>, words': seq<nat>, next: nat)
    requires OneChanged(mid, words', next + 1) && 512 * next + 512 <= |mid|
    requires forall i :: 512 * next <= i < 512 * next + 512 ==> mid[i] == 0
    ensures AlmostClear(words', next)
  {
    var k: nat :| SameBut(mid, words', next + 1, k);
    assert ClearBut(words', next, k);
  }

  lemma {:induction false} WroteMeansOf(words: seq<nat>, words': seq<nat>, next: nat, next': nat, missing: nat)
    requires Wrote(words, words', next, next', missing)
    ensures forall p: nat :: next <= p < next' ==> AlmostClear(words', p)
  {
    assert WroteKey(next, next', 0);
  }

  /** Clearing page `next` and writing one word elsewhere below it. */
  lemma {:induction false} HungBy(words: seq<nat>, mid: seq<nat>, words': seq<nat>, next: nat, k: nat, w: nat)
    requires Cleared(words, mid, next) && k < 512 * next && words' == mid[k := w]
    ensures Hung(words, words', next)
  {
    assert SameBut(words, words', next, k);
  }

  // ---- clearing a fresh page and linking it ----

  ghost predicate Cleared(words: seq<nat>, words': seq<nat>, page: nat) {
    && |words'| == |words| && 512 * page + 512 <= |words|
    && (forall i :: 512 * page <= i < 512 * page + 512 ==> words'[i] == 0)
    && (forall i :: 0 <= i < |words| && (i < 512 * page || 512 * page + 512 <= i) ==> words'[i] == words[i])
  }

  lemma {:induction false} ClearKeeps(words: seq<nat>, words': seq<nat>, node: map<nat, Node>, base: nat, page: nat)
    requires Shape(words, node, base, page) && Cleared(words, words', page)
    ensures Shape(words', node, base, page + 1)
    ensures forall v: nat :: Entry(words', node, page + 1, v) == Entry(words, node, page, v)
  {
    forall k, i | k in node && node[k].level > 0 && 0 <= i < 512
      ensures Interior(words', node, base, k, i)
    {
      assert Interior(words, node, base, k, i);
      assert words'[512 * k + i] == words[512 * k + i];
    }
    forall v: nat
      ensures Entry(words', node, page + 1, v) == Entry(words, node, page, v)
    {
      if HasPage(node, NodeFor(v, 0)) { assert SlotOf(node, v) < 512 * page; }
    }
  }

  lemma {:induction false} GrowNode(node: map<nat, Node>, page: nat, n: Node, m: Node)
    requires page !in node
    ensures HasPage(node[page := n], m) <==> HasPage(node, m) || m == n
  {
    var node' := node[page := n];
    if HasPage(node, m) { assert node'[PageOf(node, m)] == m; }
    if m == n { assert node'[page] == m; }
  }

  lemma {:induction false} LinkPages(words: seq<nat>, node: map<nat, Node>, next: nat, page: nat, n: Node)
    requires Pages(words, node, next) && page !in node && page < next && !HasPage(node, n)
    requires 0 <= n.level < 2 && HasPage(node, Parent(n))
    ensures Pages(words, node[page := n], next)
  {
    var node' := node[page := n];
    forall k | k in node' && node'[k].level < 2
      ensures HasPage(node', Parent(node'[k]))
    {
      GrowNode(node, page, n, Parent(node'[k]));
    }
    forall k, k' | k in node' && k' in node' && node'[k] == node'[k']
      ensures k == k'
    {
      assert k != page ==> HasPage(node, node'[k]);
      assert k' != page ==> HasPage(node, node'[k']);
    }
  }

  /** Writing the pointer to the cleared page `page` under the invalid word idx of page t. */
  ghost predicate Linked(words: seq<nat>, node: map<nat, Node>, base: nat, next: nat, t: nat, idx: int, page: nat,
                         words': seq<nat>, node': map<nat, Node>) {
    && Shape(words, node, base, next) && page !in node && page < next
    && (forall i :: 512 * page <= i < 512 * page + 512 ==> words[i] == 0)
    && t in node && node[t].level > 0 && 0 <= idx < 512 && !HasPage(node, Child(node[t], idx))
    && words' == words[512 * t + idx := PtdCreate(base + page)]
    && node' == node[page := Child(node[t], idx)]
  }

  lemma {:induction false} LinkKeeps(words: seq<nat>, node: map<nat, Node>, base: nat, next: nat, t: nat, idx: int,
                                     page: nat, words': seq<nat>, node': map<nat, Node>)
    requires Linked(words, node, base, next, t, idx, page, words', node')
    ensures Shape(words', node', base, next)
    ensures forall v: nat :: Entry(words', node', next, v) == Entry(words, node, next, v)
  {
    var n := Child(node[t], idx);
    ChildUnique(node[t], idx, node[t], idx);
    LinkPages(words, node, next, page, n);
    forall k, i | k in node' && node'[k].level > 0 && 0 <= i < 512
      ensures Interior(words', node', base, k, i)
    {
      if k == page {
        FreshInterior(words, words', node, base, next, t, idx, page, i);
      } else {
        assert Interior(words, node, base, k, i);
        OldInterior(words, words', node, base, next, t, idx, page, k, i);
      }
    }
    forall v: nat
      ensures Entry(words', node', next, v) == Entry(words, node, next, v)
    {
      LinkEntry(words, node, base, next, t, idx, page, words', node', v);
    }
  }

  lemma {:induction false} NoOrphan(words: seq<nat>, node: map<nat, Node>, next: nat, m: Node)
    requires Pages(words, node, next) && m.level < 2 && !HasPage(node, Parent(m))
    ensures !HasPage(node, m)
  {}

  lemma {:induction false} OldInterior(words: seq<nat>, words': seq<nat>, node: map<nat, Node>, base: nat, next: nat,
                                       t: nat, idx: int, page: nat, k: nat, i: int)
    requires Pages(words, node, next) && page !in node && t in node && 0 <= idx < 512
    requires words' == words[512 * t + idx := PtdCreate(base + page)]
    requires k in node && 0 <= i < 512 && Interior(words, node, base, k, i)
    ensures Interior(words', node[page := Child(node[t], idx)], base, k, i)
  {
    GrowNode(node, page, Child(node[t], idx), Child(node[k], i));
    ChildUnique(node[k], i, node[t], idx);
    if k == t && i == idx {
      assert words'[512 * k + i] == PtdCreate(base + page);
    } else {
      assert words'[512 * k + i] == words[512 * k + i];
    }
  }

  lemma {:induction false} FreshInterior(words: seq<nat>, words': seq<nat>, node: map<nat, Node>, base: nat,
                                         next: nat, t: nat, idx: int, page: nat, i: int)
    requires Pages(words, node, next) && page !in node && page < next && t in node && 0 <= idx < 512 && 0 <= i < 512
    requires forall j :: 512 * page <= j < 512 * page + 512 ==> words[j] == 0
    requires words' == words[512 * t + idx := PtdCreate(base + page)]
    requires !HasPage(node, Child(node[t], idx)) && Child(node[t], idx).level > 0
    ensures Interior(words', node[page := Child(node[t], idx)], base, page, i)
  {
    var n := Child(node[t], idx);
    var m := Child(n, i);
    GrowNode(node, page, n, m);
    ChildUnique(n, i, n, i);
    NoOrphan(words, node, next, m);
    assert words'[512 * page + i] == 0;
  }

  lemma {:induction false} SamePage(words: seq<nat>, node: map<nat, Node>, node': map<nat, Node>, next: nat, m: Node,
                                    page: nat, n: Node)
    requires Pages(words, node', next) && HasPage(node, m) && page !in node && node' == node[page := n]
    ensures HasPage(node', m) && PageOf(node', m) == PageOf(node, m)
  {
    assert node'[PageOf(node, m)] == m;
  }

  lemma {:induction false} LinkEntry(words: seq<nat>, node: map<nat, Node>, base: nat, next: nat, t: nat, idx: int,
                                     page: nat, words': seq<nat>, node': map<nat, Node>, v: nat)
    requires Linked(words, node, base, next, t, idx, page, words', node') && Pages(words', node', next)
    ensures Entry(words', node', next, v) == Entry(words, node, next, v)
  {
    var n := Child(node[t], idx);
    GrowNode(node, page, n, NodeFor(v, 0));
    if HasPage(node, NodeFor(v, 0)) {
      OldEntry(words, node, base, next, t, idx, page, words', node', v);
    } else if n == NodeFor(v, 0) {
      assert PageOf(node', n) == page;
    }
  }

  lemma {:induction false} OldEntry(words: seq<nat>, node: map<nat, Node>, base: nat, next: nat, t: nat, idx: int,
                                    page: nat, words': seq<nat>, node': map<nat, Node>, v: nat)
    requires Linked(words, node, base, next, t, idx, page, words', node') && Pages(words', node', next)
    requires HasPage(node, NodeFor(v, 0))
    ensures Entry(words', node', next, v) == Entry(words, node, next, v)
  {
    SamePage(words', node, node', next, NodeFor(v, 0), page, Child(node[t], idx));
    SlotInLeafPage(words, node, next, v, t, idx);
  }

  // ---- the table itself ----

  ghost predicate InvKey(u: nat) { u == u }

  class Table {
    const base: nat                          // page number of the first pool page
    const freePages: nat
    const mem: array<nat>                    // the pool, 512 words a page
    var nextFreePage: nat
    ghost var node: map<nat, Node>           // pool pages in use as page tables

    /** The shape of the tree is looked up where a proof names the key. */
    ghost predicate Inv()
      reads this, mem
    {
      mem.Length == 512 * freePages && nextFreePage <= freePages &&
      forall u: nat {:trigger InvKey(u)} :: InvKey(u) ==> Shape(mem[..], node, base, nextFreePage)
    }

    /** The leaf word of a virtual page. */
    ghost function Leaf(vpn: nat): nat
      reads this, mem
    {
      Entry(mem[..], node, nextFreePage, vpn)
    }

    /** pk_vm_init: the root table is the first page of the pool, cleared. */
    constructor (base: nat, freePages: nat)
      requires freePages >= 1
      ensures Inv() && fresh(mem) && this.base == base && this.freePages == freePages && nextFreePage == 1
      ensures node == map[0 := Node(2, 0)] && forall v: nat :: Leaf(v) == 0
    {
      this.base, this.freePages := base, freePages;
      mem := new nat[512 * freePages](_ => 0);
      nextFreePage := 1;
      node := map[0 := Node(2, 0)];
      new;
      forall v: nat
        ensures !HasPage(node, NodeFor(v, 0))
      {}
    }

    /** __page_alloc, with the failed kassert as a result; the page comes back cleared. */
    method PageAlloc() returns (ok: bool, page: nat)
      requires Inv()
      modifies this`nextFreePage, mem
      ensures Inv()
      ensures ok <==> old(nextFreePage) != freePages
      ensures ok ==> page == old(nextFreePage) && nextFreePage == page + 1 && page !in node
      ensures ok ==> Cleared(old(mem[..]), mem[..], page)
      ensures !ok ==> nextFreePage == old(nextFreePage) && mem[..] == old(mem[..])
      ensures KeptAbove(old(mem[..]), mem[..], nextFreePage)
      ensures forall v: nat :: Leaf(v) == old(Leaf(v))
    {
      assert InvKey(0);
      page := nextFreePage;
      ok := nextFreePage != freePages;
      if ok {
        nextFreePage := nextFreePage + 1;
        forall i | 512 * page <= i < 512 * page + 512 { mem[i] := 0; }
        ClearKeeps(old(mem[..]), mem[..], node, base, page);
      }
    }

    /** The loop of __walk_internal: follow valid interior words from the root. It stops at level 0 with the
        leaf table, or at the page whose word on the path is invalid. */
    method Descend(vpn: nat) returns (t: nat, level: int)
      requires Inv() && vpn < VPNS
      ensures 0 <= level <= 2 && t in node && node[t] == NodeFor(vpn, level)
      ensures level == 0 <==> HasPage(node, NodeFor(vpn, 0))
      ensures level > 0 ==> !HasPage(node, NodeFor(vpn, level - 1))
      ensures level < 2 ==> HasPage(node, NodeFor(vpn, 1))
      ensures level == 0 ==> SlotOf(node, vpn) == 512 * t + PtIdx(vpn, 0) < mem.Length
    {
      assert InvKey(0);
      t, level := 0, 2;
      while level > 0
        invariant 0 <= level <= 2 && t in node && node[t] == NodeFor(vpn, level)
        invariant level < 2 ==> HasPage(node, NodeFor(vpn, 1))
      {
        var w := mem[512 * t + PtIdx(vpn, level)];
        ChildOnPath(vpn, level);
        assert Interior(mem[..], node, base, t, PtIdx(vpn, level));
        if !Valid(w) {
          if HasPage(node, NodeFor(vpn, 0)) { PathComplete(mem[..], node, nextFreePage, vpn); }
          return;
        }
        t := PtePpn(w) - base;
        level := level - 1;
      }
    }

    /** __walk: the slot of vpn, or nothing when a table on its path is missing. */
    method Walk(vpn: nat) returns (found: bool, slot: nat)
      requires Inv() && vpn < VPNS
      ensures found <==> HasPage(node, NodeFor(vpn, 0))
      ensures found ==> slot == SlotOf(node, vpn) && slot < mem.Length && mem[slot] == Leaf(vpn)
      ensures !found ==> Leaf(vpn) == 0
    {
      var t, level := Descend(vpn);
      assert InvKey(0);
      if level > 0 { return false, 0; }
      return true, 512 * t + PtIdx(vpn, 0);
    }

    /** __walk_create. It fails only when the pool cannot supply the missing tables, uses exactly as many
        pages as were missing, and changes no leaf. */
    method WalkCreate(vpn: nat) returns (ok: bool, slot: nat)
      requires Inv() && vpn < VPNS
      modifies this`nextFreePage, this`node, mem
      ensures Inv()
      ensures ok <==> old(nextFreePage) + old(Missing(node, vpn)) <= freePages
      ensures nextFreePage >= old(nextFreePage)
      ensures ok ==> nextFreePage == old(nextFreePage) + old(Missing(node, vpn))
      ensures ok ==> HasPage(node, NodeFor(vpn, 0)) && slot == SlotOf(node, vpn) && slot < mem.Length
      ensures ok ==> Grown(old(node), old(nextFreePage), vpn, node, nextFreePage)
      ensures KeptAbove(old(mem[..]), mem[..], nextFreePage)
      ensures ok ==> Wrote(old(mem[..]), mem[..], old(nextFreePage), nextFreePage, old(Missing(node, vpn)))
      ensures forall v: nat :: Leaf(v) == old(Leaf(v))
      decreases Missing(node, vpn), 1
    {
      var t, level := Descend(vpn);
      if level > 0 {
        ok, slot := ContinueWalkCreate(vpn, t, level);
      } else {
        ok, slot := true, 512 * t + PtIdx(vpn, 0);
        GrownNone(node, nextFreePage, vpn);
        WroteNone(mem[..], nextFreePage);
      }
    }

    /** __continue_walk_create: hang a cleared page under the invalid word of page t and start over. */
    method ContinueWalkCreate(vpn: nat, t: nat, level: int) returns (ok: bool, slot: nat)
      requires Inv() && vpn < VPNS && 1 <= level <= 2 && t in node && node[t] == NodeFor(vpn, level)
      requires !HasPage(node, NodeFor(vpn, level - 1)) && !HasPage(node, NodeFor(vpn, 0))
      requires level == 1 ==> HasPage(node, NodeFor(vpn, 1))
      modifies this`nextFreePage, this`node, mem
      ensures Inv()
      ensures ok <==> old(nextFreePage) + old(Missing(node, vpn)) <= freePages
      ensures nextFreePage >= old(nextFreePage)
      ensures ok ==> nextFreePage == old(nextFreePage) + old(Missing(node, vpn))
      ensures ok ==> HasPage(node, NodeFor(vpn, 0)) && slot == SlotOf(node, vpn) && slot < mem.Length
      ensures ok ==> Grown(old(node), old(nextFreePage), vpn, node, nextFreePage)
      ensures KeptAbove(old(mem[..]), mem[..], nextFreePage)
      ensures ok ==> Wrote(old(mem[..]), mem[..], old(nextFreePage), nextFreePage, old(Missing(node, vpn)))
      ensures forall v: nat :: Leaf(v) == old(Leaf(v))
      decreases Missing(node, vpn), 0
    {
      slot := 0;
      ok := Hang(vpn, t, level);
      if ok {
        ghost var mid, words, next := node, mem[..], nextFreePage;
        ok, slot := WalkCreate(vpn);
        KeptJoin(old(mem[..]), words, next, mem[..], nextFreePage);
        if ok {
          GrownMore(old(node), old(nextFreePage), vpn, NodeFor(vpn, level - 1), mid, node, nextFreePage);
          WroteMore(old(mem[..]), words, mem[..], old(nextFreePage), nextFreePage, old(Missing(node, vpn)));
        }
      }
    }

    /** One page from the pool, linked under page t: the path to vpn has one table more. */
    method Hang(vpn: nat, t: nat, level: int) returns (ok: bool)
      requires Inv() && vpn < VPNS && 1 <= level <= 2 && t in node && node[t] == NodeFor(vpn, level)
      requires !HasPage(node, NodeFor(vpn, level - 1)) && (level == 2 ==> !HasPage(node, NodeFor(vpn, 0)))
      modifies this`nextFreePage, this`node, mem
      ensures Inv()
      ensures ok <==> old(nextFreePage) < freePages
      ensures ok ==> nextFreePage == old(nextFreePage) + 1 && old(nextFreePage) !in old(node) &&
                     node == old(node)[old(nextFreePage) := NodeFor(vpn, level - 1)]
      ensures ok ==> Missing(node, vpn) == old(Missing(node, vpn)) - 1
      ensures !ok ==> nextFreePage == old(nextFreePage) && node == old(node)
      ensures ok ==> Hung(old(mem[..]), mem[..], old(nextFreePage))
      ensures KeptAbove(old(mem[..]), mem[..], nextFreePage)
      ensures forall v: nat :: Leaf(v) == old(Leaf(v))
    {
      var page;
      ok, page := PageAlloc();
      if ok {
        ghost var mid := mem[..];
        Link(vpn, t, level, page);
        HungBy(old(mem[..]), mid, mem[..], page, 512 * t + PtIdx(vpn, level), PtdCreate(base + page));
        KeptJoin(old(mem[..]), mid, nextFreePage, mem[..], nextFreePage);
        GrowNode(old(node), page, NodeFor(vpn, level - 1), NodeFor(vpn, 0));
        GrowNode(old(node), page, NodeFor(vpn, level - 1), NodeFor(vpn, 1));
      }
    }

    method Link(vpn: nat, t: nat, level: int, page: nat)
      requires Inv() && vpn < VPNS && 1 <= level <= 2 && t in node && node[t] == NodeFor(vpn, level)
      requires !HasPage(node, NodeFor(vpn, level - 1)) && page !in node && page < nextFreePage
      requires forall i :: 512 * page <= i < 512 * page + 512 ==> mem[i] == 0
      modifies this`node, mem
      ensures Inv() && node == old(node)[page := NodeFor(vpn, level - 1)]
      ensures t < nextFreePage && t != page && 512 * t + PtIdx(vpn, level) < mem.Length
      ensures mem[..] == old(mem[..])[512 * t + PtIdx(vpn, level) := PtdCreate(base + page)]
      ensures KeptAbove(old(mem[..]), mem[..], nextFreePage)
      ensures forall v: nat :: Leaf(v) == old(Leaf(v))
    {
      assert InvKey(0);
      ChildOnPath(vpn, level);
      var idx := PtIdx(vpn, level);
      mem[512 * t + idx] := PtdCreate(base + page);
      node := node[page := NodeFor(vpn, level - 1)];
      assert mem[..] == old(mem[..])[512 * t + idx := PtdCreate(base + page)];
      LinkKeeps(old(mem[..]), old(node), base, nextFreePage, t, idx, page, mem[..], node);
    }

    /** __page_alloc1: a hundred pages for the region records at a hundred times the index, which moves on by a hundred.
        The failed kassert, and records that would not lie in the pool, are failures here; the source checks only the
        first. */
    method PageAlloc1() returns (ok: bool, page: nat)
      requires Inv()
      modifies this`nextFreePage, mem
      ensures Inv()
      ensures ok <==>
              old(nextFreePage) != freePages && 100 * old(nextFreePage) + 100 <= freePages && old(nextFreePage) > 0
      ensures ok ==> page == 100 * old(nextFreePage) && nextFreePage == old(nextFreePage) + 100
      ensures ok ==> forall i :: 512 * page <= i < 512 * page + 51200 ==> mem[i] == 0
      ensures !ok ==> nextFreePage == old(nextFreePage) && mem[..] == old(mem[..])
      ensures forall v: nat :: Leaf(v) == old(Leaf(v))
    {
      assert InvKey(0);
      page := 100 * nextFreePage;
      ok := nextFreePage != freePages && page + 100 <= freePages && nextFreePage > 0;
      if ok {
        nextFreePage := nextFreePage + 100;
        forall i | 512 * page <= i < 512 * page + 51200 { mem[i] := 0; }
        BelowDecides(old(mem[..]), node, base, old(nextFreePage), mem[..], nextFreePage);
      }
    }

    /** A store beyond the allocator, into a region record, say. */
    method Poke(i: nat, w: nat)
      requires Inv() && 512 * nextFreePage <= i < mem.Length
      modifies mem
      ensures Inv() && mem[..] == old(mem[..])[i := w]
      ensures forall v: nat :: Leaf(v) == old(Leaf(v))
    {
      assert InvKey(0);
      mem[i] := w;
      BelowDecides(old(mem[..]), node, base, nextFreePage, mem[..], nextFreePage);
    }

    /** `*pte = w` through a slot returned by a walk: one leaf changes, every other page keeps its own. */
    method Store(vpn: nat, slot: nat, w: nat)
      requires Inv() && HasPage(node, NodeFor(vpn, 0)) && slot == SlotOf(node, vpn) && slot < mem.Length
      modifies mem
      ensures Inv() && KeptAbove(old(mem[..]), mem[..], nextFreePage)
      ensures forall v: nat :: Leaf(v) == if v == vpn then w else old(Leaf(v))
    {
      assert InvKey(0);
      mem[slot] := w;
      assert mem[..] == old(mem[..])[slot := w];
      StoreKeeps(old(mem[..]), node, base, nextFreePage, vpn, w, mem[..]);
    }
  }

  /** Words beyond the allocator are no part of the tree. */
  lemma {:induction false} BelowDecides(words: seq<nat>, node: map<nat, Node>, base: nat, next: nat, words': seq<nat>,
                                        next': nat)
    requires Shape(words, node, base, next) && next <= next' && 512 * next' <= |words'| == |words|
    requires forall i :: 0 <= i < 512 * next ==> words'[i] == words[i]
    ensures Shape(words', node, base, next')
    ensures forall v: nat :: Entry(words', node, next', v) == Entry(words, node, next, v)
  {
    forall k, i | k in node && node[k].level > 0 && 0 <= i < 512
      ensures Interior(words', node, base, k, i)
    {
      assert Interior(words, node, base, k, i);
      assert words'[512 * k + i] == words[512 * k + i];
    }
    forall v: nat
      ensures Entry(words', node, next', v) == Entry(words, node, next, v)
    {
      if HasPage(node, NodeFor(v, 0)) { assert SlotOf(node, v) < 512 * next; }
    }
  }

  lemma {:induction false} StoreKeeps(words: seq<nat>, node: map<nat, Node>, base: nat, next: nat, vpn: nat, w: nat,
                                      words': seq<nat>)
    requires Shape(words, node, base, next) && HasPage(node, NodeFor(vpn, 0)) && SlotOf(node, vpn) < |words|
    requires words' == words[SlotOf(node, vpn) := w]
    ensures Shape(words', node, base, next) && KeptAbove(words, words', next)
    ensures forall v: nat :: Entry(words', node, next, v) == if v == vpn then w else Entry(words, node, next, v)
  {
    forall k, i | k in node && node[k].level > 0 && 0 <= i < 512
      ensures Interior(words', node, base, k, i)
    {
      SlotInLeafPage(words, node, next, vpn, k, i);
      assert Interior(words, node, base, k, i);
    }
    forall v: nat
      ensures Entry(words', node, next, v) == if v == vpn then w else Entry(words, node, next, v)
    {
      if v != vpn && HasPage(node, NodeFor(v, 0)) { SlotsDistinct(words, node, next, v, vpn); }
    }
  }

  lemma {:induction false} SlotInLeafPage(words: seq<nat>, node: map<nat, Node>, next: nat, vpn: nat, k: nat, i: int)
    requires Pages(words, node, next) && HasPage(node, NodeFor(vpn, 0))
    requires k in node && node[k].level > 0 && 0 <= i < 512
    ensures 512 * k + i != SlotOf(node, vpn)
  {}

  // ---- the pool also holds the region records ----

  /** Page p has been handed out by __page_alloc, with the record allocation at n and m indices used in all. */
  predicate HandedOut(p: nat, n: nat, m: nat) { p < n || n + 100 <= p < m }

  /** Page p holds region records: __page_alloc1 called at n clears pages 100 n to 100 n + 99. */
  predicate HoldsRecords(p: nat, n: nat) { 100 * n <= p < 100 * n + 100 }

  /** Handing out one page leaves the words of the records that start at page `first` alone exactly when it is none of
      theirs, or held nothing. */
  lemma {:induction false} RecordsKeptIff(words: seq<nat>, words': seq<nat>, page: nat, first: nat)
    requires Cleared(words, words', page) && 512 * first + 51200 <= |words|
    ensures (forall i :: 512 * first <= i < 512 * first + 51200 ==> words'[i] == words[i]) <==>
            !(first <= page < first + 100) || forall i :: 512 * page <= i < 512 * page + 512 ==> words[i] == 0
  {
    if first <= page < first + 100 && forall i :: 512 * first <= i < 512 * first + 51200 ==> words'[i] == words[i] {
      forall i | 512 * page <= i < 512 * page + 512 ensures words[i] == 0 { assert words'[i] == words[i]; }
    }
  }

  /** __page_alloc1 strides by 100 pages an index but moves the allocator by only 100 indices. The records share
      no page with the pages of __page_alloc exactly when n is 0, or the allocator has not passed page 100 n, or it
      has not moved since. */
  lemma {:induction false} RecordsDisjointIff(n: nat, m: nat)
    requires n + 100 <= m
    ensures (forall p: nat :: HandedOut(p, n, m) ==> !HoldsRecords(p, n)) <==> (n == 0 || m <= 100 * n || m == n + 100)
  {
    if n > 0 && m > 100 * n && m > n + 100 {
      var p: nat := if n == 1 then 101 else 100 * n;
      assert HandedOut(p, n, m) && HoldsRecords(p, n);
    }
  }
}
