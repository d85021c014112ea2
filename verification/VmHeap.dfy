/** The heap and the regions returned by do_mmap share user space without ever overlapping: do_mmap searches
    upward from brk and lowers brk_max to what it found, and do_brk never passes brk_max. */
module VmHeap {
  import opened Vm
  import opened VmAlloc
  import opened VmRuns
  import opened Files
  import VmProps

  /** live[k] are the pages of the k-th region do_mmap returned that have not been unmapped since. */
  datatype Heap = Heap(x: Proc, live: seq<set<nat>>)

  ghost predicate Within(p: nat, n: nat, q: nat) { p <= q < p + n }
  ghost function Range(p: nat, n: nat): set<nat> { set q: nat | p <= q < p + n && Within(p, n, q) }

  /** The address do_mmap returns for a request without MAP_FIXED, or nothing when it fails. */
  ghost function Returned(c: Config, x: Proc, op: Op): Option<nat>
    requires op.SysMmap?
  {
    if op.length == 0 || op.offset % PGSIZE != 0 then None
    else if op.from.Some? && Get(Table(x.s.refs, x.fds), op.from.value).1.None? then None
    else if FirstFree(x.s.vmrs, 0) == |x.s.vmrs| then None
    else Placed(c, x.s.pt, x.brk, op.addr, op.length, op.fixed)
  }

  ghost function HeapStep(c: Config, h: Heap, op: Op): Option<Heap> {
    match Step(c, h.x, op)
    case None => None
    case Some(x') =>
      if op.SysMunmap? && op.addr % PGSIZE == 0 && ValidUserRange(c, op.addr, op.length) then
        Some(Heap(x', Without(h.live, Range(op.addr / PGSIZE, Pages(op.length)))))
      else if op.SysMmap? && Returned(c, h.x, op).Some? then
        Some(Heap(x', h.live + [Range(Returned(c, h.x, op).value / PGSIZE, Pages(op.length))]))
      else Some(Heap(x', h.live))
  }

  ghost function Without(live: seq<set<nat>>, gone: set<nat>): (r: seq<set<nat>>)
    ensures |r| == |live| && forall k :: 0 <= k < |r| ==> r[k] == live[k] - gone
  {
    seq(|live|, k requires 0 <= k < |live| => live[k] - gone)
  }

  ghost predicate BrkOk(c: Config, x: Proc) {
    && ConfigOk(c) && x.brkMin > 0 && x.brk % PGSIZE == 0 && x.brkMax % PGSIZE == 0
    && RoundUp(x.brkMin) <= x.brk <= x.brkMax <= c.mmapMax
  }

  ghost predicate Above(limit: nat, q: nat) { limit <= q * PGSIZE }

  /** Every live page is mapped and at or above brk_max, and no page belongs to two regions. */
  ghost predicate LiveOk(x: Proc, live: seq<set<nat>>) {
    && (forall k, q :: 0 <= k < |live| && q in live[k] ==> q in x.s.pt && Above(x.brkMax, q))
    && (forall i, j :: 0 <= i < j < |live| ==> live[i] !! live[j])
  }

  ghost predicate HeapInv(c: Config, h: Heap) { BrkOk(c, h.x) && LiveOk(h.x, h.live) }

  /** A page the step leaves as it was, its bytes included. */
  ghost predicate Undisturbed(s: State, s': State, q: nat) {
    At(s', q) == At(s, q) && (q in s'.mem <==> q in s.mem) && (q in s.mem ==> s'.mem[q] == s.mem[q])
  }

  // ---- what one operation leaves alone ----

  lemma {:induction false} UnmapElsewhere(s: State, p: nat, n: nat, q: nat)
    requires !(p <= q < p + n)
    ensures Undisturbed(s, UnmapRange(s, p, n), q)
    decreases n
  {
    if n > 0 {
      assert Undisturbed(s, UnmapPage(s, p), q);
      UnmapElsewhere(UnmapPage(s, p), p + 1, n - 1, q);
    }
  }

  lemma {:induction false} MapElsewhere(s: State, p: nat, n: nat, v: nat, q: nat)
    requires !(p <= q < p + n)
    ensures Undisturbed(s, MapRange(s, p, n, v), q)
    decreases n
  {
    if n > 0 {
      assert Undisturbed(s, MapPage(s, p, v), q);
      MapElsewhere(MapPage(s, p, v), p + 1, n - 1, v, q);
    }
  }

  lemma {:induction false} PopulateElsewhere(c: Config, s: State, p: nat, n: nat, prot: Prot, q: nat)
    requires !(p <= q < p + n)
    ensures Populate(c, s, p, n, prot).Some? ==> Undisturbed(s, Populate(c, s, p, n, prot).value, q)
    decreases n
  {
    if n > 0 && PageFault(c, s, p, prot).Fault? {
      assert Undisturbed(s, PageFault(c, s, p, prot).s, q);
      PopulateElsewhere(c, PageFault(c, s, p, prot).s, p + 1, n - 1, prot, q);
    }
  }

  lemma {:induction false} MapRangeKeys(s: State, p: nat, n: nat, v: nat)
    ensures MapRange(s, p, n, v).pt.Keys == s.pt.Keys + Range(p, n)
    decreases n
  {
    if n > 0 {
      MapRangeKeys(MapPage(s, p, v), p + 1, n - 1, v);
      RangeSplit(p, n);
      assert MapPage(s, p, v).pt.Keys == s.pt.Keys + {p};
    }
  }

  lemma {:induction false} RangeSplit(p: nat, n: nat)
    requires n > 0
    ensures Range(p, n) == {p} + Range(p + 1, n - 1)
  {}

  /** __do_mmap maps exactly the pages of its range and disturbs no other. */
  lemma {:induction false} MmapAtEffect(c: Config, s: State, addr: nat, length: nat, prot: Prot, file: Option<nat>,
                                        offset: nat, populate: bool)
    ensures var m := MmapAt(c, s, addr, length, prot, file, offset, populate);
            m.Mapped? ==> m.s.pt.Keys == s.pt.Keys + Range(addr / PGSIZE, Pages(length)) &&
                          forall q :: q !in Range(addr / PGSIZE, Pages(length)) ==> Undisturbed(s, m.s, q)
  {
    var m := MmapAt(c, s, addr, length, prot, file, offset, populate);
    if m.Mapped? {
      var p, n := addr / PGSIZE, Pages(length);
      var (s1, v) := VmrAlloc(s, Vmr(addr, length, file, offset, NPage(length) % W32, prot)).value;
      var s2 := MapRange(s1, p, n, v);
      MapRangeKeys(s1, p, n, v);
      PopulateSizes(c, s2, p, n, prot);
      forall q: nat | q !in Range(p, n) ensures Undisturbed(s, m.s, q) {
        MapElsewhere(s1, p, n, v, q);
        PopulateElsewhere(c, s2, p, n, prot, q);
      }
    }
  }

  // ---- the steps ----

  /** The step from x to x' maps the free pages of a region at `at`, at or above brk, lowers brk_max to it, and changes
      nothing else; without a region it changes nothing. */
  ghost predicate MapsOnly(x: Proc, x': Proc, at: Option<nat>, length: nat) {
    && x'.brk == x.brk && x'.brkMin == x.brkMin
    && match at
       case None => x'.s.pt == x.s.pt && x'.s.mem == x.s.mem && x'.brkMax == x.brkMax
       case Some(a) =>
         var taken := Range(a / PGSIZE, Pages(length));
         && a % PGSIZE == 0 && x.brk <= a && taken !! x.s.pt.Keys && x'.s.pt.Keys == x.s.pt.Keys + taken
         && x'.brkMax == (if a < x.brkMax then a else x.brkMax)
         && forall q :: q !in taken ==> Undisturbed(x.s, x'.s, q)
  }

  /** What a request without MAP_FIXED does: its pages were free, at or above brk, and are all that changes. */
  lemma {:induction false} MmapEffect(c: Config, x: Proc, op: Op)
    requires BrkOk(c, x) && op.SysMmap? && !op.fixed && Sized(c, op) && MmapStep(c, x, op).Some?
    ensures MapsOnly(x, MmapStep(c, x, op).value, Returned(c, x, op), op.length)
  {
    if op.length != 0 && op.offset % PGSIZE == 0 {
      var f, x1 := None, x;
      if op.from.Some? {
        var (t, g) := Get(Table(x.s.refs, x.fds), op.from.value);
        f, x1 := g, x.(s := x.s.(refs := t.refs));
      }
      if op.from.None? || f.Some? {
        MapStepEffect(c, x1, op, f);
        if Returned(c, x, op).Some? { UndisturbedByRefs(c, x, x1, op, f); }
      }
    }
  }

  lemma {:induction false} MapStepEffect(c: Config, x: Proc, op: Op, f: Option<nat>)
    requires BrkOk(c, x) && op.SysMmap? && !op.fixed && 0 < op.length <= c.mmapMax
    requires MapStep(c, x, op.addr, op.length, op.prot, false, op.populate, f, op.offset).Some?
    ensures var x' := MapStep(c, x, op.addr, op.length, op.prot, false, op.populate, f, op.offset).value;
            var at := if FirstFree(x.s.vmrs, 0) == |x.s.vmrs| then None
                      else Placed(c, x.s.pt, x.brk, op.addr, op.length, false);
            MapsOnly(x, x', at, op.length)
  {
    var at := Placed(c, x.s.pt, x.brk, op.addr, op.length, false);
    if at.Some? {
      PlacedOk(c, x.s.pt, x.brk, op.addr, op.length, false);
      MmapAtEffect(c, x.s, at.value, op.length, op.prot, f, op.offset, op.populate || !c.demandPaging);
    }
  }

  /** The references do_mmap takes and drops around the mapping do not touch any page. */
  lemma {:induction false} UndisturbedByRefs(c: Config, x: Proc, x1: Proc, op: Op, f: Option<nat>)
    requires x1 == x.(s := x.s.(refs := x1.s.refs)) && op.SysMmap?
    ensures MapStep(c, x1, op.addr, op.length, op.prot, false, op.populate, f, op.offset).Some? ==>
            var x' := MapStep(c, x1, op.addr, op.length, op.prot, false, op.populate, f, op.offset).value;
            forall q, refs :: Undisturbed(x1.s, x'.s, q) ==> Undisturbed(x.s, x'.s.(refs := refs), q)
  {}

  lemma {:induction false} MmapKeepsHeap(c: Config, h: Heap, op: Op)
    requires HeapInv(c, h) && op.SysMmap? && !op.fixed && Sized(c, op) && HeapStep(c, h, op).Some?
    ensures var h' := HeapStep(c, h, op).value;
            HeapInv(c, h') && forall k, q :: 0 <= k < |h.live| && q in h.live[k] ==> Undisturbed(h.x.s, h'.x.s, q)
  {
    MmapEffect(c, h.x, op);
    RegionKeeps(c, h, MmapStep(c, h.x, op).value, Returned(c, h.x, op), op.length);
  }

  lemma {:induction false} RegionKeeps(c: Config, h: Heap, x': Proc, at: Option<nat>, length: nat)
    requires HeapInv(c, h) && MapsOnly(h.x, x', at, length)
    ensures HeapInv(c, Heap(x', if at.None? then h.live else h.live + [Range(at.value / PGSIZE, Pages(length))]))
    ensures forall k, q :: 0 <= k < |h.live| && q in h.live[k] ==> Undisturbed(h.x.s, x'.s, q)
  {
    if at.Some? {
      var a := at.value;
      forall q | q in Range(a / PGSIZE, Pages(length)) ensures Above(a, q) { assert a == a / PGSIZE * PGSIZE; }
      AddRegion(h, x', a, Range(a / PGSIZE, Pages(length)));
    }
  }

  lemma {:induction false} AddRegion(h: Heap, x': Proc, a: nat, taken: set<nat>)
    requires LiveOk(h.x, h.live) && taken !! h.x.s.pt.Keys && x'.s.pt.Keys == h.x.s.pt.Keys + taken
    requires x'.brkMax == (if a < h.x.brkMax then a else h.x.brkMax) && forall q :: q in taken ==> Above(a, q)
    ensures LiveOk(x', h.live + [taken])
  {
    var live := h.live + [taken];
    forall k, q | 0 <= k < |live| && q in live[k]
      ensures q in x'.s.pt && Above(x'.brkMax, q)
    {
      if k < |h.live| { assert q in h.live[k] && Above(h.x.brkMax, q); } else { assert q in taken; }
    }
  }

  /** do_brk moves only pages below brk_max. */
  lemma {:induction false} BrkEffect(c: Config, x: Proc, addr: nat, q: nat)
    requires BrkOk(c, x) && BrkStep(c, x, addr).Some? && Above(x.brkMax, q)
    ensures var s' := BrkStep(c, x, addr).value.s; (q in s'.pt <==> q in x.s.pt) && Undisturbed(x.s, s', q)
  {
    var brk, page := x.brk, NewBrk(x, addr);
    NewBrkBound(x, addr);
    if brk < page { GrowEffect(c, x.s, brk, page, q); } else if brk > page { ShrinkEffect(x.s, page, brk, q); }
  }

  lemma {:induction false} GrowEffect(c: Config, s: State, brk: nat, page: nat, q: nat)
    requires brk < page && brk % PGSIZE == 0 && page % PGSIZE == 0 && Above(page, q)
    ensures var m := MmapAt(c, s, brk, page - brk, 0xFFFF_FFFF, None, 0, !c.demandPaging);
            m.Mapped? ==> (q in m.s.pt <==> q in s.pt) && Undisturbed(s, m.s, q)
  {
    MmapAtEffect(c, s, brk, page - brk, 0xFFFF_FFFF, None, 0, !c.demandPaging);
    WholePages(brk, page);
    BelowLimit(brk, page, q);
  }

  lemma {:induction false} ShrinkEffect(s: State, page: nat, brk: nat, q: nat)
    requires page < brk && brk % PGSIZE == 0 && page % PGSIZE == 0 && Above(brk, q)
    ensures var s' := UnmapRange(s, page / PGSIZE, (brk - page) / PGSIZE);
            (q in s'.pt <==> q in s.pt) && Undisturbed(s, s', q)
  {
    UnmapRangeSizes(s, page / PGSIZE, (brk - page) / PGSIZE);
    BelowLimit(page, brk, q);
    UnmapElsewhere(s, page / PGSIZE, (brk - page) / PGSIZE, q);
  }

  lemma {:induction false} BrkKeepsHeap(c: Config, h: Heap, addr: nat)
    requires HeapInv(c, h) && BrkStep(c, h.x, addr).Some?
    ensures var h' := Heap(BrkStep(c, h.x, addr).value, h.live);
            HeapInv(c, h') && forall k, q :: 0 <= k < |h.live| && q in h.live[k] ==> Undisturbed(h.x.s, h'.x.s, q)
  {
    var x, x' := h.x, BrkStep(c, h.x, addr).value;
    NewBrkBound(x, addr);
    forall k, q | 0 <= k < |h.live| && q in h.live[k]
      ensures q in x'.s.pt && Undisturbed(x.s, x'.s, q)
    {
      BrkEffect(c, x, addr, q);
    }
  }

  lemma {:induction false} WholePages(lo: nat, hi: nat)
    requires lo <= hi && lo % PGSIZE == 0 && hi % PGSIZE == 0
    ensures Pages(hi - lo) == (hi - lo) / PGSIZE
  {}

  lemma {:induction false} BelowLimit(lo: nat, hi: nat, q: nat)
    requires lo <= hi && lo % PGSIZE == 0 && hi % PGSIZE == 0 && hi <= q * PGSIZE
    ensures q !in Range(lo / PGSIZE, (hi - lo) / PGSIZE)
  {
    assert hi / PGSIZE == lo / PGSIZE + (hi - lo) / PGSIZE;
  }

  lemma {:induction false} NewBrkBound(x: Proc, addr: nat)
    requires x.brkMax % PGSIZE == 0 && RoundUp(x.brkMin) <= x.brkMax
    ensures RoundUp(x.brkMin) <= NewBrk(x, addr) <= x.brkMax && NewBrk(x, addr) % PGSIZE == 0
  {
    RoundUpBound(x.brkMax, x.brkMax);
    assert x.brkMin <= RoundUp(x.brkMin);
    RoundUpBound(x.brkMin, x.brkMax);
    if x.brkMin <= addr <= x.brkMax { RoundUpBound(addr, x.brkMax); }
  }

  lemma {:induction false} MunmapKeepsHeap(c: Config, h: Heap, p: nat, n: nat)
    requires HeapInv(c, h)
    ensures HeapInv(c, Heap(h.x.(s := UnmapRange(h.x.s, p, n)), Without(h.live, Range(p, n))))
  {
    UnmapRangeSizes(h.x.s, p, n);
  }

  /** Without MAP_FIXED, which maps where the caller says, every call keeps the heap and the regions apart. */
  predicate Unforced(c: Config, op: Op) { Sized(c, op) && (op.SysMmap? ==> !op.fixed) }

  lemma {:induction false} HeapStepKeeps(c: Config, h: Heap, op: Op)
    requires HeapInv(c, h) && Unforced(c, op) && HeapStep(c, h, op).Some?
    ensures HeapInv(c, HeapStep(c, h, op).value)
  {
    var x, x' := h.x, HeapStep(c, h, op).value.x;
    match op {
      case SysMmap(_, _, _, _, _, _, _) => MmapKeepsHeap(c, h, op);
      case SysBrk(addr) => BrkKeepsHeap(c, h, addr);
      case SysMunmap(addr, length) =>
        if addr % PGSIZE == 0 && ValidUserRange(c, addr, length) {
          MunmapKeepsHeap(c, h, addr / PGSIZE, Pages(length));
        }
      case SysFault(vaddr, prot) =>
        assert x'.s.pt.Keys == x.s.pt.Keys;
      case SysMprotect(addr, length, prot) =>
        ProtectSizes(x.s, addr / PGSIZE, Pages(length), prot);
        assert x'.s.pt.Keys == x.s.pt.Keys;
      case _ =>
        assert x'.s.pt == x.s.pt;
    }
  }

  ghost function HeapRun(c: Config, h: Heap, ops: seq<Op>): Option<Heap>
    decreases |ops|
  {
    if ops == [] then Some(h)
    else match HeapStep(c, h, ops[0])
         case None => None
         case Some(h') => HeapRun(c, h', ops[1..])
  }

  lemma {:induction false} HeapApart(c: Config, h: Heap)
    requires HeapInv(c, h)
    ensures forall k, q :: 0 <= k < |h.live| && q in h.live[k] ==> Above(h.x.brk, q)
  {
    forall k, q | 0 <= k < |h.live| && q in h.live[k] ensures Above(h.x.brk, q) { assert Above(h.x.brkMax, q); }
  }

  /** In every run the heap and all the regions returned by do_mmap stay pairwise disjoint while mapped. */
  lemma {:induction false} HeapRunKeeps(c: Config, h: Heap, ops: seq<Op>)
    requires HeapInv(c, h) && forall op :: op in ops ==> Unforced(c, op)
    ensures HeapRun(c, h, ops).Some? ==> HeapInv(c, HeapRun(c, h, ops).value)
    ensures HeapRun(c, h, ops).Some? ==>
            var h' := HeapRun(c, h, ops).value;
            (forall i, j :: 0 <= i < j < |h'.live| ==> h'.live[i] !! h'.live[j]) &&
            (forall k, q :: 0 <= k < |h'.live| && q in h'.live[k] ==> Above(h'.x.brk, q))
    decreases |ops|
  {
    if ops != [] && HeapStep(c, h, ops[0]).Some? {
      HeapStepKeeps(c, h, ops[0]);
      HeapRunKeeps(c, HeapStep(c, h, ops[0]).value, ops[1..]);
    }
    if HeapRun(c, h, ops).Some? { HeapApart(c, HeapRun(c, h, ops).value); }
  }

  // ---- the stack ----

  /** A page of the heap as brk makes it: a leaf of the first free record, or with demand paging off a page present in
      its own frame. */
  function HeapLeaf(c: Config, s: State, q: nat): Leaf {
    if c.demandPaging then Lazy(FirstFree(s.vmrs, 0)) else Present(q + c.frame0, ProtToType(0xFFFF_FFFF, true))
  }

  /** Page q of s' is a new page of the heap that starts at brk; what it held is gone. */
  ghost predicate IsHeapPage(c: Config, s: State, brk: nat, s': State, q: nat) {
    && At(s', q) == HeapLeaf(c, s, q) && (!c.demandPaging ==> q in s'.mem && s'.mem[q] == Zeros(PGSIZE))
    && FirstFree(s.vmrs, 0) < |s'.vmrs| && s'.vmrs[FirstFree(s.vmrs, 0)].addr == brk
  }

  /** What do_brk does to a page at or above the end of the heap, the pages of the stack among them: it becomes a page
      of the heap exactly when the new end lies above it, and is left alone otherwise. The record is the first free one,
      to which no page pointed. */
  lemma {:induction false} BrkTakesIff(c: Config, x: Proc, addr: nat, q: nat)
    requires BrkOk(c, x) && BrkStep(c, x, addr).Some? && Above(x.brk, q)
    ensures var s' := BrkStep(c, x, addr).value.s;
            if q * PGSIZE < NewBrk(x, addr) then IsHeapPage(c, x.s, x.brk, s', q) else Undisturbed(x.s, s', q)
    ensures At(x.s, q) != HeapLeaf(c, x.s, q) ==>
            (At(BrkStep(c, x, addr).value.s, q) == HeapLeaf(c, x.s, q) <==> q * PGSIZE < NewBrk(x, addr))
  {
    var page := NewBrk(x, addr);
    NewBrkBound(x, addr);
    if q * PGSIZE < page {
      if c.demandPaging { TakesPage(x.s, x.brk, page, q); } else { TakesEagerly(c, x.s, x.brk, page, q); }
    } else if x.brk < page {
      GrowEffect(c, x.s, x.brk, page, q);
    } else if x.brk > page {
      ShrinkEffect(x.s, page, x.brk, q);
    }
  }

  lemma {:induction false} TakesPage(s: State, brk: nat, page: nat, q: nat)
    requires brk % PGSIZE == 0 && page % PGSIZE == 0 && brk <= q * PGSIZE < page && FirstFree(s.vmrs, 0) < |s.vmrs|
    ensures var r := Vmr(brk, page - brk, None, 0, NPage(page - brk) % W32, 0xFFFF_FFFF);
            var s' := MapRange(VmrAlloc(s, r).value.0, brk / PGSIZE, Pages(page - brk), FirstFree(s.vmrs, 0));
            At(s', q) == Lazy(FirstFree(s.vmrs, 0)) && |s'.vmrs| == |s.vmrs| &&
              s'.vmrs[FirstFree(s.vmrs, 0)] == r.(refcnt := s'.vmrs[FirstFree(s.vmrs, 0)].refcnt)
  {
    var r := Vmr(brk, page - brk, None, 0, NPage(page - brk) % W32, 0xFFFF_FFFF);
    MapRangeLeaves(VmrAlloc(s, r).value.0, brk / PGSIZE, Pages(page - brk), FirstFree(s.vmrs, 0));
    assert brk / PGSIZE <= q < brk / PGSIZE + Pages(page - brk);
  }

  /** The same pages, loaded at once. */
  lemma {:induction false} TakesEagerly(c: Config, s: State, brk: nat, page: nat, q: nat)
    requires ConfigOk(c) && !c.demandPaging && brk % PGSIZE == 0 && page % PGSIZE == 0 && page <= c.mmapMax
    requires brk <= q * PGSIZE < page && FirstFree(s.vmrs, 0) < |s.vmrs|
    ensures var m := MmapAt(c, s, brk, page - brk, 0xFFFF_FFFF, None, 0, true);
            m.Mapped? && IsHeapPage(c, s, brk, m.s, q)
  {
    TakesPage(s, brk, page, q);
    EagerIff(c, s, brk, page - brk, 0xFFFF_FFFF, None, 0);
    var lazy := MmapAt(c, s, brk, page - brk, 0xFFFF_FFFF, None, 0, false).s;
    var p, n := brk / PGSIZE, Pages(page - brk);
    AscendingIs(p, n);
    VmProps.LoadedNothing(c, lazy);
    VmProps.FaultsLoad(c, lazy, {}, lazy, VmProps.Ascending(p, n), 0xFFFF_FFFF);
    var s' := VmProps.FaultAll(c, lazy, VmProps.Ascending(p, n), 0xFFFF_FFFF).value;
    assert q in VmProps.Ascending(p, n);
    VmProps.LoadedPage(c, lazy, {} + VmProps.PagesOf(VmProps.Ascending(p, n)), s', q);
  }

  /** The stack is mapped at boot without lowering brk_max: a brk request up to the end of user space replaces every
      page of it. */
  lemma {:induction false} HeapReplacesStack(c: Config, x: Proc, addr: nat, stack: nat)
    requires BrkOk(c, x) && x.brkMax == c.mmapMax <= addr
    requires x.brk <= stack * PGSIZE < c.mmapMax && BrkStep(c, x, addr).Some?
    ensures IsHeapPage(c, x.s, x.brk, BrkStep(c, x, addr).value.s, stack)
  {
    RoundUpBound(x.brkMax, x.brkMax);
    assert x.brkMin <= RoundUp(x.brkMin);
    BrkTakesIff(c, x, addr, stack);
  }
}
