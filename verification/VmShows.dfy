/** What the process finds in its memory after mmap, munmap and brk: the bytes and permissions of every page of a new
    mapping, the pages that are gone, and that every other page shows what it did. */
module VmShows {
  import opened Vm
  import opened VmRuns
  import opened VmHeap
  import opened VmPerms
  import Files
  import VmProps

  // ---- bytes ----

  /** Byte `at` of a file; past its end, and without a file, zero. */
  function FileByte(c: Config, file: Option<nat>, at: nat): bv8 {
    if file.Some? && file.value < |c.disk| && at < |c.disk[file.value]| then c.disk[file.value][at] else 0
  }

  /** The page holds the file's bytes from `at` on, as far as the mapping goes, and zeros behind it. */
  ghost predicate Bytes(c: Config, file: Option<nat>, at: nat, room: int, page: Page) {
    |page| == PGSIZE && forall i :: 0 <= i < PGSIZE ==> page[i] == if i < room then FileByte(c, file, at + i) else 0
  }

  /** There is no file, or it goes on beyond `at`. */
  predicate Reaches(c: Config, file: Option<nat>, at: nat) {
    file.None? || (file.value < |c.disk| && at < |c.disk[file.value]|)
  }

  lemma {:induction false} ContentShows(c: Config, r: Vmr, q: nat)
    requires r.addr <= q * PGSIZE < r.addr + r.length
    ensures var at := r.offset + (q * PGSIZE - r.addr);
            && (Content(c, r, q).Some? <==> Reaches(c, r.file, at))
            && (Content(c, r, q).Some? ==>
                Bytes(c, r.file, at, r.addr + r.length - q * PGSIZE, Content(c, r, q).value))
  {
    VmProps.ContentBytes(c, r, q);
  }

  // ---- pages of a mapping ----

  /** A mapping of a file from an offset on, at an address, with a protection. */
  datatype Mapping = Mapping(addr: nat, length: nat, prot: Prot, file: Option<nat>, offset: nat) {
    /** Where in the file page q begins. */
    function From(q: nat): nat
      requires addr <= q * PGSIZE
    {
      offset + (q * PGSIZE - addr)
    }

    predicate Has(q: nat) { addr / PGSIZE <= q < addr / PGSIZE + Pages(length) }
  }

  /** Page q is present in its own frame, with exactly the permissions and the bytes of the mapping. */
  ghost predicate Shown(c: Config, s: State, m: Mapping, q: nat)
    requires m.addr <= q * PGSIZE
  {
    && At(s, q).Present? && At(s, q).ppn == q + c.frame0 && Exactly(At(s, q).f, m.prot)
    && q in s.mem && Bytes(c, m.file, m.From(q), m.addr + m.length - q * PGSIZE, s.mem[q])
  }

  /** Page q waits: it has the permissions of the mapping, and any fault on it shows it, or fails the kassert when the
      file does not reach it. */
  ghost predicate Waiting(c: Config, s: State, m: Mapping, q: nat)
    requires m.addr <= q * PGSIZE
  {
    && IsLazy(s, q) && s.vmrs[At(s, q).v].prot == m.prot
    && forall want: Prot :: match PageFault(c, s, q, want)
                            case Panic => !Reaches(c, m.file, m.From(q))
                            case Fault(t, _) => Reaches(c, m.file, m.From(q)) && Shown(c, t, m, q)
  }

  lemma {:induction false} WaitsForRecord(c: Config, s: State, m: Mapping, q: nat)
    requires IsLazy(s, q) && m.addr <= q * PGSIZE < m.addr + m.length && q * PGSIZE < c.mmapMax
    requires var r := s.vmrs[At(s, q).v]; r == Vmr(m.addr, m.length, m.file, m.offset, r.refcnt, m.prot)
    ensures Waiting(c, s, m, q)
  {
    var r := s.vmrs[At(s, q).v];
    ContentShows(c, r, q);
    forall want: Prot
      ensures match PageFault(c, s, q, want)
              case Panic => !Reaches(c, m.file, m.From(q))
              case Fault(t, _) => Reaches(c, m.file, m.From(q)) && Shown(c, t, m, q)
    {
      if PageFault(c, s, q, want).Fault? { FaultGrants(c, s, q, want); }
    }
  }

  // ---- records keep what they say ----

  /** Page q shows what it did: the same leaf, bytes and, when it waits, the same record but for its count. */
  ghost predicate SameView(s: State, s': State, q: nat) {
    && Undisturbed(s, s', q) && |s'.vmrs| == |s.vmrs|
    && (IsLazy(s, q) ==> VmProps.SameRecord(s, s', At(s, q).v))
  }

  ghost predicate SameRecords(s: State, s': State) {
    |s'.vmrs| == |s.vmrs| && forall v :: 0 <= v < |s.vmrs| ==> VmProps.SameRecord(s, s', v)
  }

  lemma {:induction false} SameRecordsTrans(s: State, t: State, u: State)
    requires SameRecords(s, t) && SameRecords(t, u)
    ensures SameRecords(s, u)
  {
    forall v | 0 <= v < |s.vmrs| ensures VmProps.SameRecord(s, u, v) {
      assert VmProps.SameRecord(s, t, v) && VmProps.SameRecord(t, u, v);
    }
  }

  lemma {:induction false} UnmapRecords(s: State, p: nat, n: nat)
    ensures SameRecords(s, UnmapRange(s, p, n))
    decreases n
  {
    if n > 0 {
      UnmapRecords(UnmapPage(s, p), p + 1, n - 1);
      SameRecordsTrans(s, UnmapPage(s, p), UnmapRange(s, p, n));
    }
  }

  lemma {:induction false} MapRecords(s: State, p: nat, n: nat, v: nat)
    ensures SameRecords(s, MapRange(s, p, n, v))
    decreases n
  {
    if n > 0 {
      MapRecords(MapPage(s, p, v), p + 1, n - 1, v);
      SameRecordsTrans(s, MapPage(s, p, v), MapRange(s, p, n, v));
    }
  }

  lemma {:induction false} PopulateRecords(c: Config, s: State, p: nat, n: nat, prot: Prot)
    ensures Populate(c, s, p, n, prot).Some? ==> SameRecords(s, Populate(c, s, p, n, prot).value)
    decreases n
  {
    if n > 0 && PageFault(c, s, p, prot).Fault? {
      var s' := PageFault(c, s, p, prot).s;
      PopulateRecords(c, s', p + 1, n - 1, prot);
      assert SameRecords(s, s');
      if Populate(c, s, p, n, prot).Some? { SameRecordsTrans(s, s', Populate(c, s, p, n, prot).value); }
    }
  }

  // ---- munmap ----

  lemma {:induction false} UnmapEmpties(s: State, p: nat, n: nat, q: nat)
    requires p <= q < p + n
    ensures At(UnmapRange(s, p, n), q).Empty? && q !in UnmapRange(s, p, n).pt
    decreases n
  {
    if q == p { UnmapElsewhere(UnmapPage(s, p), p + 1, n - 1, q); GoneStays(UnmapPage(s, p), p + 1, n - 1, q); }
    else { UnmapEmpties(UnmapPage(s, p), p + 1, n - 1, q); }
  }

  lemma {:induction false} GoneStays(s: State, p: nat, n: nat, q: nat)
    requires q !in s.pt
    ensures q !in UnmapRange(s, p, n).pt
    decreases n
  {
    if n > 0 { GoneStays(UnmapPage(s, p), p + 1, n - 1, q); }
  }

  /** munmap takes away exactly the pages of its range, when that is aligned and in user space, and does nothing
      otherwise. */
  lemma {:induction false} MunmapClears(c: Config, x: Proc, addr: nat, length: nat, q: nat)
    requires Step(c, x, SysMunmap(addr, length)).Some?
    ensures var x' := Step(c, x, SysMunmap(addr, length)).value;
            if addr % PGSIZE == 0 && ValidUserRange(c, addr, length) &&
              addr / PGSIZE <= q < addr / PGSIZE + Pages(length)
            then At(x'.s, q).Empty? else SameView(x.s, x'.s, q)
  {
    var p, n := addr / PGSIZE, Pages(length);
    if addr % PGSIZE == 0 && ValidUserRange(c, addr, length) {
      UnmapRecords(x.s, p, n);
      if p <= q < p + n { UnmapEmpties(x.s, p, n, q); } else { UnmapElsewhere(x.s, p, n, q); }
    }
  }

  // ---- mmap ----

  /** What the mapping loop leaves of a page of the range. */
  lemma {:induction false} LoopShows(c: Config, s: State, m: Mapping, q: nat)
    requires ConfigOk(c) && 0 < m.length && m.addr % PGSIZE == 0 && m.addr + m.length <= c.mmapMax
    requires FirstFree(s.vmrs, 0) < |s.vmrs| && m.Has(q)
    ensures var a := MmapAt(c, s, m.addr, m.length, m.prot, m.file, m.offset, false);
            && a.Mapped? && m.addr <= q * PGSIZE < m.addr + m.length && At(a.s, q) == Lazy(FirstFree(s.vmrs, 0))
            && |a.s.vmrs| == |s.vmrs| && Waiting(c, a.s, m, q)
            && var r := a.s.vmrs[FirstFree(s.vmrs, 0)]; r == Vmr(m.addr, m.length, m.file, m.offset, r.refcnt, m.prot)
  {
    var (s1, v) := VmrAlloc(s, Vmr(m.addr, m.length, m.file, m.offset, NPage(m.length) % W32, m.prot)).value;
    MapRangeLeaves(s1, m.addr / PGSIZE, Pages(m.length), v);
    var s2 := MapRange(s1, m.addr / PGSIZE, Pages(m.length), v);
    PagesCovered(m.addr, m.length, q);
    assert At(s2, q) == Lazy(v) && VmProps.SameRecord(s1, s2, v);
    WaitsForRecord(c, s2, m, q);
  }

  lemma {:induction false} EagerShows(c: Config, s: State, m: Mapping, q: nat)
    requires ConfigOk(c) && 0 < m.length && m.addr % PGSIZE == 0 && m.addr + m.length <= c.mmapMax
    requires FirstFree(s.vmrs, 0) < |s.vmrs| && m.Has(q)
    requires MmapAt(c, s, m.addr, m.length, m.prot, m.file, m.offset, true).Mapped?
    ensures m.addr <= q * PGSIZE && Shown(c, MmapAt(c, s, m.addr, m.length, m.prot, m.file, m.offset, true).s, m, q)
  {
    var p, n := m.addr / PGSIZE, Pages(m.length);
    LoopShows(c, s, m, q);
    EagerIff(c, s, m.addr, m.length, m.prot, m.file, m.offset);
    var lazy := MmapAt(c, s, m.addr, m.length, m.prot, m.file, m.offset, false).s;
    AscendingIs(p, n);
    VmProps.LoadedNothing(c, lazy);
    VmProps.FaultsLoad(c, lazy, {}, lazy, VmProps.Ascending(p, n), m.prot);
    var s' := VmProps.FaultAll(c, lazy, VmProps.Ascending(p, n), m.prot).value;
    assert q in VmProps.Ascending(p, n);
    LoadedShows(c, lazy, {} + VmProps.PagesOf(VmProps.Ascending(p, n)), s', m, q);
  }

  lemma {:induction false} LoadedShows(c: Config, s: State, done: set<nat>, s': State, m: Mapping, q: nat)
    requires VmProps.Loaded(c, s, done, s') && q in done && m.addr <= q * PGSIZE < m.addr + m.length
    requires IsLazy(s, q) && var r := s.vmrs[At(s, q).v]; r == Vmr(m.addr, m.length, m.file, m.offset, r.refcnt, m.prot)
    ensures Shown(c, s', m, q)
  {
    VmProps.LoadedPage(c, s, done, s', q);
    ContentShows(c, s.vmrs[At(s, q).v], q);
  }

  /** Where __do_mmap maps, every page of the range waits for the mapping or, when populated, shows it. */
  lemma {:induction false} MmapAtShows(c: Config, s: State, m: Mapping, populate: bool, q: nat)
    requires ConfigOk(c) && 0 < m.length && m.addr % PGSIZE == 0 && m.addr + m.length <= c.mmapMax && m.Has(q)
    requires MmapAt(c, s, m.addr, m.length, m.prot, m.file, m.offset, populate).Mapped?
    ensures m.addr <= q * PGSIZE
    ensures var s' := MmapAt(c, s, m.addr, m.length, m.prot, m.file, m.offset, populate).s;
            if populate then Shown(c, s', m, q) else Waiting(c, s', m, q)
  {
    if populate { EagerShows(c, s, m, q); } else { LoopShows(c, s, m, q); }
  }

  /** And every other page shows what it did: the record that is taken had no page. */
  lemma {:induction false} MmapAtSpares(c: Config, s: State, m: Mapping, populate: bool, q: nat)
    requires Users(s.pt, FirstFree(s.vmrs, 0)) == {} && !m.Has(q)
    requires MmapAt(c, s, m.addr, m.length, m.prot, m.file, m.offset, populate).Mapped?
    ensures SameView(s, MmapAt(c, s, m.addr, m.length, m.prot, m.file, m.offset, populate).s, q)
  {
    var s' := MmapAt(c, s, m.addr, m.length, m.prot, m.file, m.offset, populate).s;
    var p, n := m.addr / PGSIZE, Pages(m.length);
    var r := Vmr(m.addr, m.length, m.file, m.offset, NPage(m.length) % W32, m.prot);
    var (s1, v) := VmrAlloc(s, r).value;
    MmapAtEffect(c, s, m.addr, m.length, m.prot, m.file, m.offset, populate);
    assert q !in VmHeap.Range(p, n);
    MapRecords(s1, p, n, v);
    PopulateRecords(c, MapRange(s1, p, n, v), p, n, m.prot);
    if populate { SameRecordsTrans(s1, MapRange(s1, p, n, v), s'); }
    if IsLazy(s, q) {
      assert q in Users(s.pt, At(s, q).v);
      assert VmProps.SameRecord(s1, s', At(s, q).v);
    }
  }

  /** The file that a request maps: that of its descriptor, or none. */
  function FileOf(x: Proc, op: Op): Option<nat>
    requires op.SysMmap?
  {
    if op.from.Some? && 0 <= op.from.value < |x.fds| then x.fds[op.from.value] else None
  }

  /** References to files do not matter to what a page shows. */
  lemma {:induction false} WaitingStill(c: Config, s: State, refs: seq<nat>, m: Mapping, q: nat)
    requires m.addr <= q * PGSIZE && Waiting(c, s, m, q)
    ensures Waiting(c, s.(refs := refs), m, q)
  {
    var s' := s.(refs := refs);
    forall want: Prot
      ensures match PageFault(c, s', q, want)
              case Panic => !Reaches(c, m.file, m.From(q))
              case Fault(t, _) => Reaches(c, m.file, m.From(q)) && Shown(c, t, m, q)
    {
      var r, r' := PageFault(c, s, q, want), PageFault(c, s', q, want);
      assert r.Panic? <==> r'.Panic?;
      if r.Fault? { assert r'.s.pt == r.s.pt && r'.s.mem == r.s.mem && Shown(c, r.s, m, q); }
    }
  }

  /** The mapping that a request makes at a. */
  function Requested(x: Proc, op: Op, a: nat): Mapping
    requires op.SysMmap?
  {
    Mapping(a, op.length, op.prot, FileOf(x, op), op.offset)
  }

  /** The state with the reference that do_mmap takes, and the one it maps from there. */
  lemma {:induction false} MmapIs(c: Config, x: Proc, op: Op) returns (s: State)
    requires op.SysMmap? && MmapStep(c, x, op).Some? && Returned(c, x, op).Some?
    ensures s == x.s.(refs := s.refs)
    ensures var m := Requested(x, op, Returned(c, x, op).value);
            var r := MmapAt(c, s, m.addr, m.length, m.prot, m.file, m.offset, op.populate || !c.demandPaging);
            r.Mapped? && MmapStep(c, x, op).value.s == r.s.(refs := MmapStep(c, x, op).value.s.refs)
  {
    s := if op.from.Some? then x.s.(refs := Files.Get(Files.Table(x.s.refs, x.fds), op.from.value).0.refs) else x.s;
  }

  /** do_mmap, when it maps at a: a is the address asked for when that is fixed; every page of the range waits for, or
      shows, the file of the descriptor from the offset on with the protection asked for, and every other page shows
      what it did. */
  lemma {:induction false} MmapShows(c: Config, x: Proc, op: Op, others: seq<nat>, q: nat)
    requires ConfigOk(c) && Inv(c, x.s, others) && op.SysMmap? && Sized(c, op)
    requires MmapStep(c, x, op).Some? && Returned(c, x, op).Some?
    ensures var a := Returned(c, x, op).value;
            (op.fixed ==> a == op.addr) && a % PGSIZE == 0 && a + op.length <= c.mmapMax
    ensures var x', m := MmapStep(c, x, op).value, Requested(x, op, Returned(c, x, op).value);
            if !m.Has(q) then SameView(x.s, x'.s, q)
            else m.addr <= q * PGSIZE &&
                 if op.populate || !c.demandPaging then Shown(c, x'.s, m, q) else Waiting(c, x'.s, m, q)
  {
    var a, populate := Returned(c, x, op).value, op.populate || !c.demandPaging;
    PlacedOk(c, x.s.pt, x.brk, op.addr, op.length, op.fixed);
    var m := Requested(x, op, a);
    var s := MmapIs(c, x, op);
    var s' := MmapAt(c, s, m.addr, m.length, m.prot, m.file, m.offset, populate).s;
    if m.Has(q) {
      MmapAtShows(c, s, m, populate, q);
      if !populate { WaitingStill(c, s', MmapStep(c, x, op).value.s.refs, m, q); }
    } else {
      AllocIsFresh(c, x.s, others, Vmr(a, op.length, None, op.offset, 0, op.prot));
      MmapAtSpares(c, s, m, populate, q);
      SameViewRefs(x.s, s.refs, s', MmapStep(c, x, op).value.s.refs, q);
    }
  }

  lemma {:induction false} SameViewRefs(s: State, refs: seq<nat>, s': State, refs': seq<nat>, q: nat)
    requires SameView(s.(refs := refs), s', q)
    ensures SameView(s, s'.(refs := refs'), q)
  {}

  // ---- brk ----

  lemma {:induction false} RoundUpIs(a: nat)
    ensures a <= RoundUp(a) < a + PGSIZE && RoundUp(a) % PGSIZE == 0
  {
    assert RoundUp(a) / PGSIZE == (a + PGSIZE - 1) / PGSIZE;
  }

  /** The heap: memory without a file and with every permission. */
  function HeapOf(from: nat, to: nat): Mapping
    requires from <= to
  {
    Mapping(from, to - from, 0xFFFF_FFFF, None, 0)
  }

  /** do_brk moves the end of the heap to the request, clamped and rounded up to a page. A page that the heap gains
      shows, or waits for, zeros that can be read, written and executed; one that it loses is gone; every other shows
      what it did. */
  lemma {:induction false} BrkShows(c: Config, x: Proc, others: seq<nat>, addr: nat, q: nat)
    requires ConfigOk(c) && Inv(c, x.s, others) && x.brk % PGSIZE == 0
    requires x.brkMin <= c.mmapMax && x.brkMax <= c.mmapMax && BrkStep(c, x, addr).Some?
    ensures var x' := BrkStep(c, x, addr).value;
            var to := if addr < x.brkMin then x.brkMin else if addr > x.brkMax then x.brkMax else addr;
            && x' == x.(s := x'.s, brk := x'.brk) && to <= x'.brk < to + PGSIZE && x'.brk % PGSIZE == 0
    ensures var from, x' := OldBrk(x), BrkStep(c, x, addr).value;
            if from <= q * PGSIZE < x'.brk then
              if c.demandPaging then Waiting(c, x'.s, HeapOf(from, x'.brk), q)
              else Shown(c, x'.s, HeapOf(from, x'.brk), q)
            else if x'.brk <= q * PGSIZE < from then At(x'.s, q).Empty?
            else SameView(x.s, x'.s, q)
  {
    var from, page, x' := OldBrk(x), NewBrk(x, addr), BrkStep(c, x, addr).value;
    var to := if addr < x.brkMin then x.brkMin else if addr > x.brkMax then x.brkMax else addr;
    RoundUpIs(to);
    RoundUpBound(to, c.mmapMax);
    RoundUpIs(x.brkMin);
    if from < page {
      GrowShows(c, x.s, others, from, page, q);
    } else if page < from {
      ShrinkShows(x.s, page, from, q);
    }
  }

  lemma {:induction false} Inside(from: nat, to: nat, q: nat)
    requires from <= to && from % PGSIZE == 0 && to % PGSIZE == 0
    ensures from / PGSIZE <= q < from / PGSIZE + Pages(to - from) <==> from <= q * PGSIZE < to
    ensures Pages(to - from) == (to - from) / PGSIZE
  {
    assert to / PGSIZE == from / PGSIZE + Pages(to - from);
    assert from == from / PGSIZE * PGSIZE && to == to / PGSIZE * PGSIZE;
  }

  lemma {:induction false} GrowShows(c: Config, s: State, others: seq<nat>, from: nat, page: nat, q: nat)
    requires ConfigOk(c) && Inv(c, s, others) && from < page <= c.mmapMax && from % PGSIZE == 0 && page % PGSIZE == 0
    requires MmapAt(c, s, from, page - from, 0xFFFF_FFFF, None, 0, !c.demandPaging).Mapped?
    ensures var s' := MmapAt(c, s, from, page - from, 0xFFFF_FFFF, None, 0, !c.demandPaging).s;
            if from <= q * PGSIZE < page then
              if c.demandPaging then Waiting(c, s', HeapOf(from, page), q) else Shown(c, s', HeapOf(from, page), q)
            else SameView(s, s', q)
  {
    var m := HeapOf(from, page);
    Inside(from, page, q);
    if m.Has(q) {
      MmapAtShows(c, s, m, !c.demandPaging, q);
    } else {
      AllocIsFresh(c, s, others, Vmr(from, page - from, None, 0, 0, 0));
      MmapAtSpares(c, s, m, !c.demandPaging, q);
    }
  }

  lemma {:induction false} ShrinkShows(s: State, page: nat, from: nat, q: nat)
    requires page < from && from % PGSIZE == 0 && page % PGSIZE == 0
    ensures var s' := UnmapRange(s, page / PGSIZE, (from - page) / PGSIZE);
            if page <= q * PGSIZE < from then At(s', q).Empty? else SameView(s, s', q)
  {
    var p, n := page / PGSIZE, (from - page) / PGSIZE;
    Inside(page, from, q);
    UnmapRecords(s, p, n);
    if p <= q < p + n { UnmapEmpties(s, p, n, q); } else { UnmapElsewhere(s, p, n, q); }
  }

  // ---- descriptors ----

  /** The lowest free descriptor, and the lowest unused slot. */
  predicate LowestFree(fds: seq<Option<nat>>, d: nat) {
    d < |fds| && fds[d].None? && forall k :: 0 <= k < d ==> fds[k].Some?
  }

  predicate LowestUnused(refs: seq<nat>, f: nat) {
    f < |refs| && refs[f] == 0 && forall k :: 0 <= k < f ==> refs[k] != 0
  }

  predicate IsOpen(fds: seq<Option<nat>>, fd: int) { 0 <= fd < |fds| && fds[fd].Some? }

  lemma {:induction false} NamedIsUsed(c: Config, x: Proc, fd: nat)
    requires ProcInv(c, x) && IsOpen(x.fds, fd)
    ensures x.fds[fd].value < |x.s.refs| && x.s.refs[x.fds[fd].value] > 0
  {
    var f := x.fds[fd].value;
    assert fd in Files.Naming(x.fds, f);
    assert FileCounted(x.s, Others(x.fds, x.held), f);
    assert Others(x.fds, x.held)[f] == |Files.Naming(x.fds, f)| + x.held[f];
  }

  /** dup lets the lowest free descriptor name the same file, when the one given is open and there is one. */
  lemma {:induction false} DupShows(c: Config, x: Proc, fd: int)
    requires ProcInv(c, x)
    ensures var x', d := DupStep(x, fd), Files.FreeFd(x.fds, 0);
            && (LowestFree(x.fds, d) || forall k :: 0 <= k < |x.fds| ==> x.fds[k].Some?)
            && x'.fds == (if IsOpen(x.fds, fd) && LowestFree(x.fds, d) then x.fds[d := x.fds[fd]] else x.fds)
            && x'.s == x.s.(refs := x'.s.refs)
  {
    if IsOpen(x.fds, fd) { NamedIsUsed(c, x, fd); }
  }

  /** close frees the descriptor, when it is open, and no other. */
  lemma {:induction false} CloseShows(c: Config, x: Proc, fd: int)
    requires ProcInv(c, x)
    ensures Step(c, x, SysClose(fd)).Some?
    ensures var x' := Step(c, x, SysClose(fd)).value;
            && x'.fds == (if IsOpen(x.fds, fd) then x.fds[fd := None] else x.fds)
            && x'.s == x.s.(refs := x'.s.refs)
  {
    if IsOpen(x.fds, fd) { NamedIsUsed(c, x, fd); }
  }

  /** openat, when the host opens the file and both are to be had, lets the lowest free descriptor name the lowest
      unused slot; otherwise it changes no descriptor. */
  lemma {:induction false} OpenShows(x: Proc, hostOk: bool)
    ensures var x', d, f := OpenStep(x, hostOk), Files.FreeFd(x.fds, 0), Files.FreeSlot(x.s.refs, 0);
            && (LowestFree(x.fds, d) || forall k :: 0 <= k < |x.fds| ==> x.fds[k].Some?)
            && (LowestUnused(x.s.refs, f) || forall k :: 0 <= k < |x.s.refs| ==> x.s.refs[k] != 0)
            && x'.fds == (if hostOk && LowestFree(x.fds, d) && LowestUnused(x.s.refs, f) then x.fds[d := Some(f)]
                          else x.fds)
            && x'.s == x.s.(refs := x'.s.refs)
  {}
}
