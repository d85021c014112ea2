/** What a processor makes of the page table: the address translation of Sv39 (section 4.3.2 of the RISC-V Privileged
    Architecture), written down from there, run on the words of the pool. */
module Sv39 {
  import opened Vm
  import Words
  import opened PageMap
  import PT = PageTable

  /** VPN[i] of a virtual address: bits 20 to 12, 29 to 21 and 38 to 30. */
  function VpnField(va: nat, i: nat): nat {
    if i == 0 then va / 0x1000 % 512 else if i == 1 then va / 0x20_0000 % 512 else va / 0x4000_0000 % 512
  }

  /** A translation ends in a page fault, at a leaf word of a level, or reads outside the pool. */
  datatype Walk = PageFault | Leaf(pte: nat, level: nat) | Astray

  /** The loop of the algorithm: a is the page number of the table it is at. V, R, W and X are bits 0 to 3. */
  function Translate(words: seq<nat>, base: nat, a: nat, va: nat, i: nat): Walk
    decreases i
  {
    var at := 512 * (a - base) + VpnField(va, i);
    if a < base || at >= |words| then Astray
    else
      var pte := words[at];
      if pte % 2 == 0 || (pte / 2 % 2 == 0 && pte / 4 % 2 == 1) then PageFault
      else if pte / 2 % 2 == 1 || pte / 8 % 2 == 1 then Leaf(pte, i)
      else if i == 0 then PageFault
      else Translate(words, base, pte / 1024, va, i - 1)
  }

  /** A leaf word that the walk accepts. */
  predicate Accepted(pte: nat) {
    pte % 2 == 1 && (pte / 2 % 2 == 1 || (pte / 8 % 2 == 1 && pte / 4 % 2 == 0))
  }

  lemma {:induction false} FieldsAreIndices(va: nat)
    ensures VpnField(va, 0) == PT.PtIdx(va / PGSIZE, 0) == va / PGSIZE % 512
    ensures VpnField(va, 1) == PT.PtIdx(va / PGSIZE, 1) && VpnField(va, 2) == PT.PtIdx(va / PGSIZE, 2)
  {
    Nested(va, 0x1000, va / 0x20_0000, va % 0x20_0000);
    Nested(va, 0x20_0000, va / 0x4000_0000, va % 0x4000_0000);
  }

  lemma {:induction false} Nested(n: nat, a: nat, q: nat, r: nat)
    requires a == 0x1000 || a == 0x20_0000
    requires n == 512 * a * q + r && r < 512 * a
    ensures n / a / 512 == q
  {
    assert n / a == 512 * q + r / a by { Words.DivModUnique(n, a, 512 * q + r / a, r % a); }
    Words.DivModUnique(n / a, 512, q, r / a);
  }

  /** A word that names a table is passed over, not taken for a leaf. */
  lemma {:induction false} PointerPasses(page: nat)
    ensures var pte := PT.PtdCreate(page);
            pte % 2 == 1 && pte / 2 % 2 == 0 && pte / 4 % 2 == 0 && pte / 8 % 2 == 0 && pte / 1024 == page
  {
    var pte := PT.PtdCreate(page);
    Words.DivModUnique(pte, 2, 512 * page, 1);
    Words.DivModUnique(pte, 4, 256 * page, 1);
    Words.DivModUnique(pte, 8, 128 * page, 1);
    Words.DivModUnique(512 * page, 2, 256 * page, 0);
    Words.DivModUnique(256 * page, 2, 128 * page, 0);
    Words.DivModUnique(128 * page, 2, 64 * page, 0);
  }

  lemma {:induction false} Pass(words: seq<nat>, base: nat, k: nat, idx: nat, va: nat, i: nat)
    requires i > 0 && idx == VpnField(va, i) && 512 * k + idx < |words|
    requires var w := words[512 * k + idx]; PT.Valid(w) ==> w == PT.PtdCreate(PT.PtePpn(w))
    ensures var w := words[512 * k + idx];
            Translate(words, base, base + k, va, i) ==
            if PT.Valid(w) then Translate(words, base, PT.PtePpn(w), va, i - 1) else PageFault
  {
    var w := words[512 * k + idx];
    if PT.Valid(w) { PointerPasses(PT.PtePpn(w)); }
  }

  /** The word on the path to p in a table of level i names the next table, if there is one. */
  ghost predicate Leads(words: seq<nat>, node: map<nat, PT.Node>, base: nat, p: nat, i: nat)
    requires 1 <= i <= 2 && PT.HasPage(node, PT.NodeFor(p, i))
  {
    var at := 512 * PT.PageOf(node, PT.NodeFor(p, i)) + PT.PtIdx(p, i);
    && at < |words| && (PT.Valid(words[at]) <==> PT.HasPage(node, PT.NodeFor(p, i - 1)))
    && (PT.Valid(words[at]) ==> words[at] == PT.PtdCreate(PT.PtePpn(words[at])))
    && (PT.Valid(words[at]) ==> PT.PtePpn(words[at]) == base + PT.PageOf(node, PT.NodeFor(p, i - 1)))
  }

  lemma {:induction false} NextTable(words: seq<nat>, node: map<nat, PT.Node>, base: nat, next: nat, p: nat, i: nat)
    requires PT.Shape(words, node, base, next) && p < PT.VPNS && 1 <= i <= 2 && PT.HasPage(node, PT.NodeFor(p, i))
    ensures Leads(words, node, base, p, i)
  {
    PT.ChildOnPath(p, i);
    assert PT.Interior(words, node, base, PT.PageOf(node, PT.NodeFor(p, i)), PT.PtIdx(p, i));
  }

  lemma {:induction false} Down(words: seq<nat>, node: map<nat, PT.Node>, base: nat, va: nat, i: nat)
    requires 1 <= i <= 2 && PT.HasPage(node, PT.NodeFor(va / PGSIZE, i)) && Leads(words, node, base, va / PGSIZE, i)
    ensures var a := base + PT.PageOf(node, PT.NodeFor(va / PGSIZE, i));
            Translate(words, base, a, va, i) ==
            if PT.HasPage(node, PT.NodeFor(va / PGSIZE, i - 1))
            then Translate(words, base, base + PT.PageOf(node, PT.NodeFor(va / PGSIZE, i - 1)), va, i - 1)
            else PageFault
  {
    FieldsAreIndices(va);
    Pass(words, base, PT.PageOf(node, PT.NodeFor(va / PGSIZE, i)), PT.PtIdx(va / PGSIZE, i), va, i);
  }

  function AtLeaf(e: nat): Walk { if Accepted(e) then Leaf(e, 0) else PageFault }

  lemma {:induction false} LastLevel(words: seq<nat>, node: map<nat, PT.Node>, base: nat, next: nat, va: nat)
    requires PT.Pages(words, node, next) && PT.HasPage(node, PT.NodeFor(va / PGSIZE, 0))
    ensures Translate(words, base, base + PT.PageOf(node, PT.NodeFor(va / PGSIZE, 0)), va, 0) ==
            AtLeaf(PT.Entry(words, node, next, va / PGSIZE))
  {
    FieldsAreIndices(va);
    assert PT.SlotOf(node, va / PGSIZE) < |words|;
  }

  lemma {:induction false} MiddleLevel(words: seq<nat>, node: map<nat, PT.Node>, base: nat, next: nat, va: nat)
    requires PT.Pages(words, node, next) && PT.HasPage(node, PT.NodeFor(va / PGSIZE, 1))
    requires Leads(words, node, base, va / PGSIZE, 1)
    ensures Translate(words, base, base + PT.PageOf(node, PT.NodeFor(va / PGSIZE, 1)), va, 1) ==
            AtLeaf(PT.Entry(words, node, next, va / PGSIZE))
  {
    Down(words, node, base, va, 1);
    if PT.HasPage(node, PT.NodeFor(va / PGSIZE, 0)) { LastLevel(words, node, base, next, va); }
  }

  lemma {:induction false} RootPage(words: seq<nat>, node: map<nat, PT.Node>, next: nat, p: nat)
    requires PT.Pages(words, node, next)
    ensures PT.HasPage(node, PT.NodeFor(p, 2)) && PT.PageOf(node, PT.NodeFor(p, 2)) == 0
  {
    assert 0 in node && node[0] == PT.NodeFor(p, 2);
  }

  /** The processor finds the leaf word that the flat map has for the page, and faults where that is not a leaf. */
  lemma {:induction false} TranslateFinds(words: seq<nat>, node: map<nat, PT.Node>, base: nat, next: nat, va: nat)
    requires PT.Shape(words, node, base, next) && va / PGSIZE < PT.VPNS
    ensures Translate(words, base, base, va, 2) == AtLeaf(PT.Entry(words, node, next, va / PGSIZE))
  {
    var p := va / PGSIZE;
    RootPage(words, node, next, p);
    NextTable(words, node, base, next, p, 2);
    if PT.HasPage(node, PT.NodeFor(p, 1)) {
      NextTable(words, node, base, next, p, 1);
    } else if PT.HasPage(node, PT.NodeFor(p, 0)) {
      PT.PathComplete(words, node, next, p);
    }
    FromRoot(words, node, base, next, va);
  }

  lemma {:induction false} FromRoot(words: seq<nat>, node: map<nat, PT.Node>, base: nat, next: nat, va: nat)
    requires PT.Pages(words, node, next) && PT.HasPage(node, PT.NodeFor(va / PGSIZE, 2))
    requires PT.PageOf(node, PT.NodeFor(va / PGSIZE, 2)) == 0 && Leads(words, node, base, va / PGSIZE, 2)
    requires PT.HasPage(node, PT.NodeFor(va / PGSIZE, 0)) ==> PT.HasPage(node, PT.NodeFor(va / PGSIZE, 1))
    requires PT.HasPage(node, PT.NodeFor(va / PGSIZE, 1)) ==> Leads(words, node, base, va / PGSIZE, 1)
    ensures Translate(words, base, base, va, 2) == AtLeaf(PT.Entry(words, node, next, va / PGSIZE))
  {
    Down(words, node, base, va, 2);
    if PT.HasPage(node, PT.NodeFor(va / PGSIZE, 1)) { MiddleLevel(words, node, base, next, va); }
  }

  // ---- permissions ----

  /** What a translation allows: the physical address, and bits 1 to 4, 6 and 7 of the leaf word. */
  datatype Sees = Faults | Maps(pa: nat, r: bool, w: bool, x: bool, u: bool, a: bool, d: bool)

  function Seen(w: Walk, va: nat): Sees {
    if !w.Leaf? then Faults
    else Maps(w.pte / 1024 * PGSIZE + va % PGSIZE, w.pte / 2 % 2 == 1, w.pte / 4 % 2 == 1, w.pte / 8 % 2 == 1,
              w.pte / 16 % 2 == 1, w.pte / 64 % 2 == 1, w.pte / 128 % 2 == 1)
  }

  /** What a processor should see of a page. */
  function Shown(leaf: Leaf, va: nat): Sees {
    match leaf
    case Present(ppn, f) =>
      if f.r || (f.x && !f.w) then Maps(ppn * PGSIZE + va % PGSIZE, f.r, f.w, f.x, f.u, f.a, f.d) else Faults
    case _ => Faults
  }

  lemma {:induction false} WordShown(recs: nat, w: nat, va: nat)
    ensures Seen(AtLeaf(w), va) == Shown(Decode(recs, w), va)
  {}

  /** A processor sees exactly the present pages, at their frames and with their permissions; empty pages, pages that
      wait for a fault, and present ones that can be written but not read or that have no permission at all fault. */
  lemma {:induction false} HardwareSees(m: Map, va: nat)
    requires m.Valid() && va / PGSIZE < PT.VPNS
    ensures Seen(Translate(m.table.mem[..], m.table.base, m.table.base, va, 2), va) == Shown(m.Get(va / PGSIZE), va)
  {
    var p, words := va / PGSIZE, m.table.mem[..];
    assert Key(0) && PT.InvKey(0);
    TranslateFinds(words, m.table.node, m.table.base, m.table.nextFreePage, va);
    var w := m.LeafWords()(p);
    assert w == PT.Entry(words, m.table.node, m.table.nextFreePage, p);
    FlatAt(m.Base(), m.LeafWords(), p);
    WordShown(m.Base(), w, va);
  }

  lemma {:induction false} FlatAt(recs: nat, e: nat -> nat, p: nat)
    requires p < PT.VPNS
    ensures (if p in Flat(recs, e) then Flat(recs, e)[p] else Empty) == Decode(recs, e(p))
  {}

  /** The leaf word that pte_create makes, as the processor reads it. */
  lemma {:induction false} PteSeen(ppn: nat, f: Flags, va: nat)
    ensures var w := PteCreate(ppn, f);
            Accepted(w) <==> f.r || (f.x && !f.w)
    ensures Seen(Leaf(PteCreate(ppn, f), 0), va) == Maps(ppn * PGSIZE + va % PGSIZE, f.r, f.w, f.x, f.u, f.a, f.d)
  {
    DecodePte(0, ppn, f);
  }

  /** A region with write permission alone: its pages fault on every access, although the kernel maps them and says
      that the fault was handled. */
  lemma {:induction false} WriteOnlyFaults(ppn: nat)
    ensures !Accepted(PteCreate(ppn, ProtToType(PROT_WRITE, true)))
    ensures Covers(ProtToType(PROT_WRITE, true), ProtToType(PROT_WRITE, true))
  {
    PteSeen(ppn, ProtToType(PROT_WRITE, true), 0);
  }
}
