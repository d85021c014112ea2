/** Whole runs of the kernel as it is: from boot on, any sequence of memory calls on the words of the pool. The count
    invariant holds after each of them as long as no page table reaches the records, and whether one does is decided by
    the tables that all the mappings of the run need. */
module VmBoot {
  import opened Vm
  import opened VmAlloc
  import opened VmRuns
  import opened PageMap
  import opened VmKernel
  import opened VmShows
  import PT = PageTable

  datatype Call =
    | Mmap(addr: nat, length: nat, prot: Prot, fixed: bool, populate: bool, file: Option<nat>, offset: nat)
    | Munmap(addr: nat, length: nat)
    | Touch(vaddr: nat, prot: Prot)
    | Brk(addr: nat)
    | Mprotect(addr: nat, length: nat, prot: Prot)

  /** What a call means to the process; None is a failed kassert. */
  ghost function Means(c: Config, x: Proc, call: Call): Option<Proc> {
    match call
    case Mmap(addr, length, prot, fixed, populate, file, offset) =>
      if length == 0 || offset % PGSIZE != 0 then Some(x)
      else MapStep(c, x, addr, length, prot, fixed, populate, file, offset)
    case Munmap(addr, length) => Step(c, x, SysMunmap(addr, length))
    case Touch(vaddr, prot) => Step(c, x, SysFault(vaddr, prot))
    case Brk(addr) => BrkStep(c, x, addr)
    case Mprotect(addr, length, prot) => Step(c, x, SysMprotect(addr, length, prot))
  }

  /** A call that maps no file is the step of the system call. One that maps file f is that step for a process whose
      descriptor 0 is f, between the reference that do_mmap takes and drops. */
  lemma {:induction false} MeansIsStep(c: Config, x: Proc, call: Call)
    ensures call.Mmap? && call.file.None? ==>
              Means(c, x, call) ==
              Step(c, x, SysMmap(call.addr, call.length, call.prot, call.fixed, call.populate, None, call.offset))
    ensures call.Mmap? && call.file.Some? && call.length > 0 && call.offset % PGSIZE == 0 && x.fds == [call.file] &&
            call.file.value < |x.s.refs| && x.s.refs[call.file.value] > 0 ==>
              var f, held := call.file.value, x.(s := x.s.(refs := FileIncref(x.s.refs, call.file.value)));
              Step(c, x, SysMmap(call.addr, call.length, call.prot, call.fixed, call.populate, Some(0), call.offset)) ==
              match Means(c, held, call)
              case None => None
              case Some(x') => Some(x'.(s := x'.s.(refs := FileDecref(x'.s.refs, f))))
  {}

  predicate Oversize(c: Config, call: Call) {
    call.Mmap? && !call.fixed && NPage(call.length) * PGSIZE > c.mmapMax
  }

  /** The tables a call needs for the pages it maps. */
  ghost function Wants(c: Config, x: Proc, call: Call): set<PT.Node> {
    if FirstFree(x.s.vmrs, 0) == |x.s.vmrs| then {}
    else
      match call
      case Mmap(addr, length, _, fixed, _, _, offset) =>
        if length == 0 || offset % PGSIZE != 0 || Oversize(c, call) then {}
        else
          (match Placed(c, x.s.pt, x.brk, addr, length, fixed)
           case None => {}
           case Some(a) => Need(a / PGSIZE, Pages(length)))
      case Brk(addr) => HeapNeed(OldBrk(x), NewBrk(x, addr))
      case _ => {}
  }

  /** The whole run, and the tables all its mappings need. */
  ghost function MeansAll(c: Config, x: Proc, calls: seq<Call>): Option<Proc>
    decreases |calls|
  {
    if calls == [] then Some(x)
    else match Means(c, x, calls[0])
         case None => None
         case Some(x') => MeansAll(c, x', calls[1..])
  }

  ghost function WantsAll(c: Config, x: Proc, calls: seq<Call>): set<PT.Node>
    decreases |calls|
  {
    if calls == [] then {}
    else Wants(c, x, calls[0]) + (match Means(c, x, calls[0])
                                  case None => {}
                                  case Some(x') => WantsAll(c, x', calls[1..]))
  }

  // ---- a call keeps the invariant ----

  /** Arguments are machine words, and a file that is mapped is held by the caller. */
  ghost predicate CallOk(call: Call, files: nat, others: seq<nat>) {
    match call
    case Mmap(addr, length, _, _, _, file, _) =>
      && addr < W64 && length < W64
      && (file.Some? ==> file.value < files && file.value < |others| && others[file.value] > 0)
    case Munmap(addr, length) => addr < W64 && length < W64
    case Mprotect(addr, length, _) => addr < W64 && length < W64
    case _ => true
  }

  /** A process without descriptors of its own; others are the references to files held elsewhere. */
  ghost predicate ProcOk(c: Config, x: Proc, others: seq<nat>) {
    && ConfigOk(c) && Inv(c, x.s, others) && x.fds == [] && x.held == []
    && x.brk % PGSIZE == 0 && x.brk <= c.mmapMax && x.brkMin <= c.mmapMax && x.brkMax <= c.mmapMax
  }

  lemma {:induction false} MeansKeeps(c: Config, x: Proc, call: Call, others: seq<nat>)
    requires ProcOk(c, x, others) && CallOk(call, |x.s.refs|, others) && !Oversize(c, call)
    ensures Means(c, x, call).Some? ==> ProcOk(c, Means(c, x, call).value, others)
    ensures Means(c, x, call).Some? ==> |Means(c, x, call).value.s.refs| == |x.s.refs|
  {
    OthersOfNone([], others);
    match call {
      case Mmap(addr, length, prot, fixed, populate, file, offset) =>
        if length > 0 {
          if !fixed { NPageRange(length); }
          MapStepKeeps(c, x, others, addr, length, prot, fixed, populate, file, offset);
        }
      case Munmap(addr, length) =>
        UnmapRangeKeeps(c, x.s, others, addr / PGSIZE, Pages(length));
        UnmapRangeSizes(x.s, addr / PGSIZE, Pages(length));
      case Touch(vaddr, prot) => FaultKeeps(c, x.s, others, vaddr / PGSIZE, prot);
      case Brk(addr) => BrkKeeps(c, x, others, addr);
      case Mprotect(addr, length, prot) =>
        ProtectRangeKeeps(c, x.s, others, addr / PGSIZE, Pages(length), prot);
        ProtectSizes(x.s, addr / PGSIZE, Pages(length), prot);
    }
  }

  lemma {:induction false} BrkKeeps(c: Config, x: Proc, others: seq<nat>, addr: nat)
    requires ProcOk(c, x, others)
    ensures BrkStep(c, x, addr).Some? ==> ProcOk(c, BrkStep(c, x, addr).value, others)
    ensures BrkStep(c, x, addr).Some? ==> |BrkStep(c, x, addr).value.s.refs| == |x.s.refs|
  {
    var newbrk := if addr < x.brkMin then x.brkMin else if addr > x.brkMax then x.brkMax else addr;
    RoundUpBound(newbrk, c.mmapMax);
    RoundUpBound(x.brkMin, c.mmapMax);
    var brk, page := OldBrk(x), NewBrk(x, addr);
    if brk > page {
      UnmapRangeKeeps(c, x.s, others, page / PGSIZE, (brk - page) / PGSIZE);
      UnmapRangeSizes(x.s, page / PGSIZE, (brk - page) / PGSIZE);
    } else if brk < page {
      GrowKeeps(c, x.s, others, brk, page);
    }
  }

  lemma {:induction false} GrowKeeps(c: Config, s: State, others: seq<nat>, brk: nat, page: nat)
    requires ConfigOk(c) && Inv(c, s, others) && brk < page <= c.mmapMax && brk % PGSIZE == 0
    ensures var r := MmapAt(c, s, brk, page - brk, 0xFFFF_FFFF, None, 0, !c.demandPaging);
            r.Mapped? ==> Inv(c, r.s, others) && |r.s.refs| == |s.refs|
  {
    MmapAtKeeps(c, s, others, brk, page - brk, 0xFFFF_FFFF, None, 0, !c.demandPaging);
    MmapAtSizes(c, s, brk, page - brk, 0xFFFF_FFFF, None, 0, !c.demandPaging);
  }

  // ---- a call of the kernel ----

  datatype Stop = Done | Stopped | Overran | LeftUserSpace

  /** The process is in order; looked up by the key. */
  ghost predicate Fine(c: Config, x: Proc, others: seq<nat>) {
    forall u: nat {:trigger FineKey(x, u)} :: FineKey(x, u) ==> ProcOk(c, x, others)
  }

  ghost predicate FineKey(x: Proc, u: nat) { u == u }

  ghost predicate Good(k: Kernel, others: seq<nat>)
    reads k, k.pages, k.pages.table, k.pages.table.mem
  {
    && k.Valid() && k.pages.ready && Fine(k.c, k.P(), others)
    && k.brk % PGSIZE == 0 && k.brk <= k.c.mmapMax && k.brkMin <= k.c.mmapMax && k.brkMax <= k.c.mmapMax
  }

  /** The tables and the allocator. */
  datatype Pool = Pool(node: map<nat, PT.Node>, next: nat)

  ghost function PoolOf(k: Kernel): Pool
    reads k, k.pages, k.pages.table
  {
    Pool(k.pages.table.node, k.pages.table.nextFreePage)
  }

  /** A call has taken x to x' and has added the tables it needs; looked up by the key. */
  ghost predicate Ran(c: Config, x: Proc, call: Call, x': Proc, at: Pool, at': Pool) {
    forall u: nat {:trigger RanKey(call, x', u)} :: RanKey(call, x', u) ==>
      && Means(c, x, call) == Some(x') && (Oversize(c, call) ==> x' == x)
      && Charged(at.node, at.next, Wants(c, x, call), at'.node, at'.next)
  }

  ghost predicate RanKey(call: Call, x': Proc, u: nat) { u == u }

  /** The tables the call needs pass the records; looked up by the key. */
  ghost predicate Passes(c: Config, x: Proc, call: Call, at: Pool, n: nat) {
    forall u: nat {:trigger PassesKey(call, at, u)} :: PassesKey(call, at, u) ==>
      at.next + |Wants(c, x, call) - PT.Have(at.node)| > 100 * n
  }

  ghost predicate PassesKey(call: Call, at: Pool, u: nat) { u == u }

  lemma {:induction false} RanIdle(c: Config, x: Proc, call: Call, x': Proc, at: Pool)
    requires Means(c, x, call) == Some(x') && Wants(c, x, call) == {} && (Oversize(c, call) ==> x' == x)
    ensures Ran(c, x, call, x', at, at)
  {
    ChargedNone(at.node, at.next);
  }

  lemma {:induction false} MmapRan(c: Config, x: Proc, call: Call, x': Proc, at: Pool, at': Pool, r: Outcome)
    requires call.Mmap? && call.length > 0 && call.offset % PGSIZE == 0 && |x.s.vmrs| == MAX_VMR
    requires MapStep(c, x, call.addr, call.length, call.prot, call.fixed, call.populate, call.file, call.offset) ==
             Some(x')
    requires r.Address? || r.Failed?
    requires r.Address? ==> Placed(c, x.s.pt, x.brk, call.addr, call.length, call.fixed) == Some(r.a)
    requires r.Address? ==> FirstFree(x.s.vmrs, 0) < MAX_VMR && !Oversize(c, call)
    requires r.Failed? ==>
               Placed(c, x.s.pt, x.brk, call.addr, call.length, call.fixed).None? || FirstFree(x.s.vmrs, 0) == MAX_VMR
    requires Charged(at.node, at.next, if r.Address? then Need(r.a / PGSIZE, Pages(call.length)) else {},
                     at'.node, at'.next)
    ensures Ran(c, x, call, x', at, at')
  {}

  lemma {:induction false} MmapPasses(c: Config, x: Proc, call: Call, at: Pool, n: nat, free: nat)
    requires call.Mmap? && call.length > 0 && call.offset % PGSIZE == 0 && |x.s.vmrs| == MAX_VMR && !Oversize(c, call)
    requires FirstFree(x.s.vmrs, 0) < MAX_VMR
    requires var a := Placed(c, x.s.pt, x.brk, call.addr, call.length, call.fixed);
             a.Some? && !Room(true, n, at.next, free, at.node, a.value / PGSIZE, Pages(call.length))
    ensures Passes(c, x, call, at, n)
  {
    var a := Placed(c, x.s.pt, x.brk, call.addr, call.length, call.fixed).value;
    RoomReady(n, at.next, free, at.node, a / PGSIZE, Pages(call.length));
  }

  lemma {:induction false} BrkRan(c: Config, x: Proc, addr: nat, x': Proc, at: Pool, at': Pool)
    requires BrkStep(c, x, addr) == Some(x') && |x.s.vmrs| == MAX_VMR
    requires Charged(at.node, at.next, HeapNeed(OldBrk(x), NewBrk(x, addr)), at'.node, at'.next)
    ensures Ran(c, x, Brk(addr), x', at, at')
  {}

  lemma {:induction false} BrkPasses(c: Config, x: Proc, addr: nat, at: Pool, n: nat, free: nat)
    requires FirstFree(x.s.vmrs, 0) < |x.s.vmrs|
    requires var from, page := OldBrk(x), NewBrk(x, addr);
             from < page && !Room(true, n, at.next, free, at.node, from / PGSIZE, Pages(page - from))
    ensures Passes(c, x, Brk(addr), at, n)
  {
    var from, page := OldBrk(x), NewBrk(x, addr);
    RoomReady(n, at.next, free, at.node, from / PGSIZE, Pages(page - from));
  }

  lemma {:induction false} RanKeeps(c: Config, x: Proc, call: Call, x': Proc, at: Pool, at': Pool, others: seq<nat>)
    requires Fine(c, x, others) && CallOk(call, |x.s.refs|, others) && Ran(c, x, call, x', at, at')
    ensures Fine(c, x', others) && |x'.s.refs| == |x.s.refs|
    ensures x'.brk % PGSIZE == 0 && x'.brk <= c.mmapMax && x'.brkMin <= c.mmapMax && x'.brkMax <= c.mmapMax
  {
    assert FineKey(x, 0) && RanKey(call, x', 0);
    if !Oversize(c, call) { MeansKeeps(c, x, call, others); }
  }

  method CallMmap(k: Kernel, call: Call) returns (stop: Stop)
    requires k.Valid() && k.pages.ready && k.brk % PGSIZE == 0 && call.Mmap? && call.addr < W64 && call.length < W64
    modifies k, k.pages, k.pages.table, k.pages.table.mem
    ensures stop.Done? ==> k.Valid() && k.pages.ready && k.pages.n == old(k.pages.n)
    ensures stop.Done? ==> Ran(k.c, old(k.P()), call, k.P(), old(PoolOf(k)), PoolOf(k))
    ensures stop.Stopped? ==> Means(k.c, old(k.P()), call).None?
    ensures stop.Overran? ==> Passes(k.c, old(k.P()), call, old(PoolOf(k)), old(k.pages.n)) && k.pages.Wrecked()
    ensures stop.LeftUserSpace? ==> Oversize(k.c, call)
  {
    ghost var x, at, n, free := k.P(), PoolOf(k), k.pages.n, k.pages.table.freePages;
    if call.length == 0 || call.offset % PGSIZE != 0 {
      RanIdle(k.c, x, call, x, at);
      return Done;
    }
    var r := k.DoMmap(call.addr, call.length, call.prot, call.fixed, call.populate, call.file, call.offset);
    if r.Outside? { return LeftUserSpace; }
    if r.Panicked? { return Stopped; }
    if r.Overrun? {
      MmapPasses(k.c, x, call, at, n, free);
      return Overran;
    }
    MmapRan(k.c, x, call, k.P(), at, PoolOf(k), r);
    return Done;
  }

  method CallBrk(k: Kernel, addr: nat) returns (stop: Stop)
    requires k.Valid() && k.pages.ready && k.brk % PGSIZE == 0
    requires k.brk <= k.c.mmapMax && k.brkMin <= k.c.mmapMax && k.brkMax <= k.c.mmapMax
    modifies k, k.pages, k.pages.table, k.pages.table.mem
    ensures stop.Done? ==> k.Valid() && k.pages.ready && k.pages.n == old(k.pages.n)
    ensures stop.Done? ==> Ran(k.c, old(k.P()), Brk(addr), k.P(), old(PoolOf(k)), PoolOf(k))
    ensures stop.Stopped? ==> Means(k.c, old(k.P()), Brk(addr)).None?
    ensures stop.Overran? ==> Passes(k.c, old(k.P()), Brk(addr), old(PoolOf(k)), old(k.pages.n)) && k.pages.Wrecked()
    ensures !stop.LeftUserSpace?
  {
    ghost var x, at, n, free := k.P(), PoolOf(k), k.pages.n, k.pages.table.freePages;
    var r := k.DoBrk(addr);
    if r.Panicked? { return Stopped; }
    if r.Overrun? {
      BrkPasses(k.c, x, addr, at, n, free);
      return Overran;
    }
    BrkRan(k.c, x, addr, k.P(), at, PoolOf(k));
    return Done;
  }

  method CallOther(k: Kernel, call: Call) returns (stop: Stop)
    requires k.Valid() && k.pages.ready && CallOk(call, 0, []) && !call.Mmap? && !call.Brk?
    modifies k, k.pages, k.pages.table, k.pages.table.mem
    ensures stop.Done? ==> k.Valid() && k.pages.ready && k.pages.n == old(k.pages.n)
    ensures stop.Done? ==> Ran(k.c, old(k.P()), call, k.P(), old(PoolOf(k)), PoolOf(k))
    ensures stop.Stopped? ==> Means(k.c, old(k.P()), call).None?
    ensures !stop.Overran?
    ensures stop.LeftUserSpace? ==> call.Mprotect? && call.addr + call.length > W64 - PGSIZE
  {
    ghost var x, at := k.P(), PoolOf(k);
    match call {
      case Munmap(addr, length) =>
        if addr % PGSIZE == 0 && ValidUserRange(k.c, addr, length) {
          if addr + length >= W64 { ModStep(addr, length); }
          k.DoMunmap(addr, length);
        }
      case Touch(vaddr, prot) =>
        var r := k.HandlePageFault(vaddr, prot);
        if r.None? { return Stopped; }
      case Mprotect(addr, length, prot) =>
        var st, wrapped := k.DoMprotect(addr, length, prot);
        if wrapped { return LeftUserSpace; }
    }
    RanIdle(k.c, x, call, k.P(), at);
    return Done;
  }

  /** One call on the words of the pool. */
  method DoCall(k: Kernel, call: Call, ghost others: seq<nat>) returns (stop: Stop)
    requires Good(k, others) && CallOk(call, |k.refs|, others)
    modifies k, k.pages, k.pages.table, k.pages.table.mem
    ensures stop.Done? ==> Good(k, others) && |k.refs| == |old(k.refs)| && k.pages.n == old(k.pages.n)
    ensures stop.Done? ==> Ran(k.c, old(k.P()), call, k.P(), old(PoolOf(k)), PoolOf(k))
    ensures stop.Stopped? ==> Means(k.c, old(k.P()), call).None?
    ensures stop.Overran? ==> Passes(k.c, old(k.P()), call, old(PoolOf(k)), old(k.pages.n)) && k.pages.Wrecked()
    ensures stop.LeftUserSpace? ==> Leaves(k.c, call)
  {
    ghost var x, at := k.P(), PoolOf(k);
    match call {
      case Mmap(_, _, _, _, _, _, _) => stop := CallMmap(k, call);
      case Brk(addr) => stop := CallBrk(k, addr);
      case _ => stop := CallOther(k, call);
    }
    if stop.Done? { RanKeeps(k.c, x, call, k.P(), at, PoolOf(k), others); }
  }

  /** A mapping larger than user space, or a change of protection up to the end of the address space. */
  ghost predicate Leaves(c: Config, call: Call) {
    Oversize(c, call) || (call.Mprotect? && call.addr + call.length > W64 - PGSIZE)
  }

  // ---- runs ----

  /** The first i of the calls have taken x0 to x and added tables; looked up by the key. */
  ghost predicate Spent(c: Config, x0: Proc, at0: Pool, calls: seq<Call>, i: nat, x: Proc, at: Pool) {
    forall u: nat {:trigger SpentKey(x0, calls, i, u)} :: SpentKey(x0, calls, i, u) ==>
      && i <= |calls| && MeansAll(c, x, calls[i..]) == MeansAll(c, x0, calls)
      && PT.Have(at.node) + WantsAll(c, x, calls[i..]) == PT.Have(at0.node) + WantsAll(c, x0, calls)
      && at.next - |PT.Have(at.node)| == at0.next - |PT.Have(at0.node)|
  }

  ghost predicate SpentKey(x0: Proc, calls: seq<Call>, i: nat, u: nat) { u == u }

  /** The tables that all the mappings of a run lack fit below the records. */
  ghost predicate Fits(c: Config, x: Proc, at: Pool, calls: seq<Call>, n: nat) {
    at.next + |WantsAll(c, x, calls) - PT.Have(at.node)| <= 100 * n
  }

  lemma {:induction false} SpentStart(c: Config, x: Proc, at: Pool, calls: seq<Call>)
    ensures Spent(c, x, at, calls, 0, x, at)
  {
    assert calls[0..] == calls;
  }

  lemma {:induction false} AllStep(c: Config, x: Proc, calls: seq<Call>, i: nat, x': Proc)
    requires i < |calls| && Means(c, x, calls[i]) == Some(x')
    ensures MeansAll(c, x, calls[i..]) == MeansAll(c, x', calls[i + 1..])
    ensures WantsAll(c, x, calls[i..]) == Wants(c, x, calls[i]) + WantsAll(c, x', calls[i + 1..])
  {
    assert calls[i..][0] == calls[i] && calls[i..][1..] == calls[i + 1..];
  }

  lemma {:induction false} RanStep(c: Config, calls: seq<Call>, i: nat, x: Proc, at: Pool, x': Proc, at': Pool)
    requires i < |calls| && Ran(c, x, calls[i], x', at, at')
    ensures MeansAll(c, x, calls[i..]) == MeansAll(c, x', calls[i + 1..])
    ensures PT.Have(at.node) + WantsAll(c, x, calls[i..]) == PT.Have(at'.node) + WantsAll(c, x', calls[i + 1..])
    ensures at'.next - |PT.Have(at'.node)| == at.next - |PT.Have(at.node)|
  {
    assert RanKey(calls[i], x', 0) && ChargedKey(at.next, at'.next, 0);
    AllStep(c, x, calls, i, x');
    var have, want, rest := PT.Have(at.node), Wants(c, x, calls[i]), WantsAll(c, x', calls[i + 1..]);
    assert have + (want + rest) == (have + want) + rest;
  }

  lemma {:induction false} SpentStep(c: Config, x0: Proc, at0: Pool, calls: seq<Call>, i: nat, x: Proc, at: Pool,
                                     x': Proc, at': Pool)
    requires i < |calls| && Spent(c, x0, at0, calls, i, x, at) && Ran(c, x, calls[i], x', at, at')
    ensures Spent(c, x0, at0, calls, i + 1, x', at')
  {
    RanStep(c, calls, i, x, at, x', at');
    assert SpentKey(x0, calls, i, 0);
  }

  lemma {:induction false} SpentPanics(c: Config, x0: Proc, at0: Pool, calls: seq<Call>, i: nat, x: Proc, at: Pool)
    requires i < |calls| && Spent(c, x0, at0, calls, i, x, at) && Means(c, x, calls[i]).None?
    ensures MeansAll(c, x0, calls).None?
  {
    assert SpentKey(x0, calls, i, 0);
  }

  lemma {:induction false} SpentPasses(c: Config, x0: Proc, at0: Pool, calls: seq<Call>, i: nat, x: Proc, at: Pool,
                                       n: nat)
    requires i < |calls| && Spent(c, x0, at0, calls, i, x, at) && Passes(c, x, calls[i], at, n)
    ensures !Fits(c, x0, at0, calls, n)
  {
    assert SpentKey(x0, calls, i, 0) && PassesKey(calls[i], at, 0);
    var have, want := PT.Have(at.node), Wants(c, x, calls[i]);
    UnionSize(have, want);
    UnionSize(PT.Have(at0.node), WantsAll(c, x0, calls));
    assert calls[i..][0] == calls[i];
    SubsetSize(have + want, PT.Have(at0.node) + WantsAll(c, x0, calls));
  }

  lemma {:induction false} SpentAll(c: Config, x0: Proc, at0: Pool, calls: seq<Call>, x: Proc, at: Pool)
    requires Spent(c, x0, at0, calls, |calls|, x, at)
    ensures MeansAll(c, x0, calls) == Some(x)
    ensures at.next == at0.next + |WantsAll(c, x0, calls) - PT.Have(at0.node)|
    ensures PT.Have(at.node) == PT.Have(at0.node) + WantsAll(c, x0, calls)
  {
    assert SpentKey(x0, calls, |calls|, 0);
    UnionSize(PT.Have(at0.node), WantsAll(c, x0, calls));
  }

  /** Any sequence of calls. As long as none leaves user space or fails a kassert, the run reaches its end, with the
      count invariant in force and the process being what the calls mean, exactly when the tables of all its mappings
      fit below the records. */
  method RunCalls(k: Kernel, calls: seq<Call>, ghost others: seq<nat>) returns (stop: Stop)
    requires Good(k, others) && forall call :: call in calls ==> CallOk(call, |k.refs|, others)
    modifies k, k.pages, k.pages.table, k.pages.table.mem
    ensures stop.Done? ==> Good(k, others) && k.Valid() && Inv(k.c, k.View(), others)
    ensures stop.Done? ==> MeansAll(k.c, old(k.P()), calls) == Some(k.P())
    ensures stop.Done? ==> Fits(k.c, old(k.P()), old(PoolOf(k)), calls, old(k.pages.n))
    ensures stop.Overran? ==> !Fits(k.c, old(k.P()), old(PoolOf(k)), calls, old(k.pages.n)) && k.pages.Wrecked()
    ensures stop.Stopped? ==> MeansAll(k.c, old(k.P()), calls).None?
    ensures stop.LeftUserSpace? ==> exists call :: call in calls && Leaves(k.c, call)
  {
    ghost var x, at, n := k.P(), PoolOf(k), k.pages.n;
    stop := RunLoop(k, calls, others, x, at, n);
    if stop.Done? {
      SpentAll(k.c, x, at, calls, k.P(), PoolOf(k));
      assert FineKey(k.P(), 0);
    }
  }

  method RunLoop(k: Kernel, calls: seq<Call>, ghost others: seq<nat>, ghost x: Proc, ghost at: Pool, ghost n: nat)
    returns (stop: Stop)
    requires Good(k, others) && (forall call :: call in calls ==> CallOk(call, |k.refs|, others))
    requires x == k.P() && at == PoolOf(k) && n == k.pages.n
    modifies k, k.pages, k.pages.table, k.pages.table.mem
    ensures stop.Done? ==> Good(k, others) && Spent(k.c, x, at, calls, |calls|, k.P(), PoolOf(k)) && k.pages.n == n
    ensures stop.Overran? ==> !Fits(k.c, x, at, calls, n) && k.pages.Wrecked()
    ensures stop.Stopped? ==> MeansAll(k.c, x, calls).None?
    ensures stop.LeftUserSpace? ==> exists call :: call in calls && Leaves(k.c, call)
  {
    SpentStart(k.c, x, at, calls);
    var i := 0;
    while i < |calls|
      invariant i <= |calls| && Good(k, others) && k.pages.n == n && |k.refs| == |x.s.refs|
      invariant Spent(k.c, x, at, calls, i, k.P(), PoolOf(k))
    {
      stop := RunOne(k, calls, i, others, x, at, n);
      if !stop.Done? { return; }
      i := i + 1;
    }
    stop := Done;
  }

  /** One pass of the loop. */
  method RunOne(k: Kernel, calls: seq<Call>, i: nat, ghost others: seq<nat>, ghost x: Proc, ghost at: Pool,
                ghost n: nat)
    returns (stop: Stop)
    requires Good(k, others) && i < |calls| && CallOk(calls[i], |k.refs|, others) && k.pages.n == n
    requires Spent(k.c, x, at, calls, i, k.P(), PoolOf(k))
    modifies k, k.pages, k.pages.table, k.pages.table.mem
    ensures stop.Done? ==> Good(k, others) && k.pages.n == n && |k.refs| == |old(k.refs)|
    ensures stop.Done? ==> Spent(k.c, x, at, calls, i + 1, k.P(), PoolOf(k))
    ensures stop.Overran? ==> !Fits(k.c, x, at, calls, n) && k.pages.Wrecked()
    ensures stop.Stopped? ==> MeansAll(k.c, x, calls).None?
    ensures stop.LeftUserSpace? ==> Leaves(k.c, calls[i])
  {
    ghost var y, was := k.P(), PoolOf(k);
    stop := DoCall(k, calls[i], others);
    match stop {
      case Done => SpentStep(k.c, x, at, calls, i, y, was, k.P(), PoolOf(k));
      case Stopped => SpentPanics(k.c, x, at, calls, i, y, was);
      case Overran => SpentPasses(k.c, x, at, calls, i, y, was, n);
      case LeftUserSpace =>
    }
  }

  // ---- how many tables boot needs ----

  ghost function Tables(lo: nat, k: nat): set<PT.Node>
    decreases k
  {
    if k == 0 then {} else {PT.Node(0, lo)} + Tables(lo + 1, k - 1)
  }

  lemma {:induction false} TablesSize(lo: nat, k: nat)
    ensures |Tables(lo, k)| == k && forall t :: t in Tables(lo, k) ==> t.level == 0 && t.prefix >= lo
    decreases k
  {
    if k > 0 { TablesSize(lo + 1, k - 1); }
  }

  /** The number of leaf tables that n pages from p on spread over. */
  function Spread(p: nat, n: nat): nat { if n == 0 then 0 else (p + n - 1) / 512 - p / 512 + 1 }

  /** Pages under one table of the middle level. */
  lemma {:induction false} NeedIs(p: nat, n: nat)
    requires n > 0 && p / 512 / 512 == (p + n - 1) / 512 / 512
    ensures Need(p, n) == {PT.Node(1, p / 512 / 512)} + Tables(p / 512, Spread(p, n))
    decreases n
  {
    if n > 1 {
      assert (p + 1) / 512 / 512 == p / 512 / 512;
      NeedIs(p + 1, n - 1);
    } else {
      assert Tables(p / 512, 1) == {PT.Node(0, p / 512)};
    }
  }

  lemma {:induction false} NeedSize(p: nat, n: nat)
    requires n > 0 && p / 512 / 512 == (p + n - 1) / 512 / 512
    ensures |Need(p, n)| == 1 + Spread(p, n) && PT.Node(2, 0) !in Need(p, n)
  {
    NeedIs(p, n);
    TablesSize(p / 512, Spread(p, n));
  }

  // ---- boot ----

  const MEM_PAGES: nat := 0x4_0000             // mem_size >> RISCV_PGSHIFT
  const FREE_PAGES: nat := 0x400               // MAX(8, mem_pages >> (RISCV_PGLEVEL_BITS - 1))

  /** The pages of the kernel's image and of the user stack. */
  datatype Layout = Layout(image: nat, stack: nat) {
    /** They leave room for the pool; the stack is MIN(mem_pages >> 5, 2048) pages. */
    predicate Ok() { KernelPages() + stack <= MEM_PAGES && 0 < stack <= 2048 }

    function KernelPages(): nat { image + FREE_PAGES }

    function StackPage(): nat
      requires Ok()
    {
      MEM_PAGES - KernelPages() - stack
    }

    ghost function KernelTables(): set<PT.Node> { {PT.Node(2, 0)} + Need(DRAM_PAGE, KernelPages()) }

    ghost function StackTables(): set<PT.Node>
      requires Ok()
    {
      Need(StackPage(), stack)
    }
  }

  /** first_free_paddr and mmap_max, for a kernel of so many pages. */
  function BootConfig(b: Layout, disk: seq<seq<bv8>>, demandPaging: bool): (c: Config)
    requires b.Ok()
    ensures ConfigOk(c) && b.stack * PGSIZE <= c.mmapMax
    ensures DRAM_PAGE <= c.frame0 && c.mmapMax <= (MEM_PAGES - (c.frame0 - DRAM_PAGE)) * PGSIZE
  {
    Config(DRAM_PAGE + b.KernelPages(), (MEM_PAGES - b.KernelPages()) * PGSIZE, disk, demandPaging)
  }

  /** The root, one middle table and the leaf tables of the kernel. */
  lemma {:induction false} BootTables(b: Layout)
    requires b.Ok()
    ensures |b.KernelTables()| == 2 + (b.KernelPages() + 511) / 512
    ensures |Need(DRAM_PAGE, b.KernelPages()) - {PT.Node(2, 0)}| + 1 == |b.KernelTables()|
  {
    var kernel := Need(DRAM_PAGE, b.KernelPages());
    NeedSize(DRAM_PAGE, b.KernelPages());
    UnionSize({PT.Node(2, 0)}, kernel);
    assert kernel - {PT.Node(2, 0)} == kernel;
  }

  /** At most six more for the stack. */
  lemma {:induction false} MoreTables(b: Layout)
    requires b.Ok()
    ensures |b.StackTables() - b.KernelTables()| <= 6
  {
    NeedSize(b.StackPage(), b.stack);
    SubsetSize(b.StackTables() - b.KernelTables(), b.StackTables());
  }

  ghost function Zeros(slots: nat): (z: seq<nat>)
    ensures |z| == slots && forall f :: 0 <= f < slots ==> z[f] == 0
  {
    seq(slots, _ => 0)
  }

  /** The pool with its root table, and no file open. */
  method NewKernel(b: Layout, disk: seq<seq<bv8>>, demandPaging: bool, files: nat, slots: nat, brkMin: nat)
    returns (k: Kernel)
    requires b.Ok() && files > 0
    ensures fresh(k) && fresh(k.pages) && fresh(k.pages.table) && fresh(k.pages.table.mem)
    ensures k.Valid() && !k.pages.ready && k.c == BootConfig(b, disk, demandPaging)
    ensures k.pages.table.freePages == FREE_PAGES && k.brk == 0 && k.brkMin == brkMin && k.brkMax == k.c.mmapMax
    ensures k.View() == State(map[], Blanks(), Zeros(slots), map[])
    ensures k.pages.table.node == map[0 := PT.Node(2, 0)] && k.pages.table.nextFreePage == 1
  {
    var table := new PT.Table(DRAM_PAGE + b.image, FREE_PAGES);
    var pages := new Map(table, files);
    k := new Kernel(BootConfig(b, disk, demandPaging), pages, seq(slots, _ => 0), brkMin);
  }

  lemma {:induction false} KernelInv(c: Config, s: State, slots: nat, n: nat, prot: Prot)
    requires s == State(s.pt, Blanks(), Zeros(slots), map[]) && forall q :: q in s.pt ==> s.pt[q] != Empty
    requires forall q: nat ::
      At(s, q) == KernelLeaf(State(map[], Blanks(), Zeros(slots), map[]), DRAM_PAGE, n, DRAM_PAGE, prot, q)
    ensures Inv(c, s, Zeros(slots)) && FirstFree(s.vmrs, 0) == 0
  {
    var s0, blank := State(map[], Blanks(), Zeros(slots), map[]), State(map[], [], [], map[]);
    forall q: nat ensures At(s, q) == KernelLeaf(blank, DRAM_PAGE, n, DRAM_PAGE, prot, q) {
      assert At(s, q) == KernelLeaf(s0, DRAM_PAGE, n, DRAM_PAGE, prot, q);
    }
    BootInv(c, s, Zeros(slots), n, prot);
  }

  lemma {:induction false} RootCharged(b: Layout, node: map<nat, PT.Node>, next: nat)
    requires b.Ok()
    requires Charged(map[0 := PT.Node(2, 0)], 1, Need(DRAM_PAGE, b.KernelPages()), node, next)
    ensures PT.Have(node) == b.KernelTables() && next == |b.KernelTables()|
  {
    RootOnly();
    assert ChargedKey(1, next, 0);
  }

  lemma {:induction false} RootOnly()
    ensures PT.Have(map[0 := PT.Node(2, 0)]) == {PT.Node(2, 0)}
  {
    assert map[0 := PT.Node(2, 0)][0] == PT.Node(2, 0);
  }

  /** The invariant, looked up by the key. */
  ghost predicate Sound(c: Config, s: State, others: seq<nat>) {
    forall u: nat {:trigger SoundKey(s, u)} :: SoundKey(s, u) ==> Inv(c, s, others)
  }

  ghost predicate SoundKey(s: State, u: nat) { u == u }

  lemma {:induction false} SoundFine(c: Config, x: Proc, others: seq<nat>)
    requires Sound(c, x.s, others) && ConfigOk(c) && x.fds == [] && x.held == []
    requires x.brk % PGSIZE == 0 && x.brk <= c.mmapMax && x.brkMin <= c.mmapMax && x.brkMax <= c.mmapMax
    ensures Fine(c, x, others) && |x.s.refs| == |others|
  {
    assert SoundKey(x.s, 0);
  }

  /** With the kernel alone in memory: its pages lie in frames of their own number, for the kernel only and with every
      permission, and there is no other page. */
  function KernelPage(b: Layout, q: nat): Leaf {
    if DRAM_PAGE <= q < DRAM_PAGE + b.KernelPages() then Present(q, Flags(true, true, true, false, true, true))
    else Empty
  }

  /** Looked up by the key. */
  ghost predicate KernelOnly(b: Layout, s: State) {
    forall u: nat {:trigger KernelOnlyKey(s, u)} :: KernelOnlyKey(s, u) ==>
      forall q: nat :: At(s, q) == KernelPage(b, q)
  }

  ghost predicate KernelOnlyKey(s: State, u: nat) { u == u }

  lemma {:induction false} KernelPages(b: Layout, s: State, slots: nat)
    requires forall q: nat ::
      At(s, q) == KernelLeaf(State(map[], Blanks(), Zeros(slots), map[]), DRAM_PAGE, b.KernelPages(), DRAM_PAGE, 7, q)
    ensures KernelOnly(b, s)
  {
    assert ProtToType(7, false) == Flags(true, true, true, false, true, true);
    forall q: nat ensures At(s, q) == KernelPage(b, q) {
      assert At(s, q) ==
             KernelLeaf(State(map[], Blanks(), Zeros(slots), map[]), DRAM_PAGE, b.KernelPages(), DRAM_PAGE, 7, q);
    }
  }

  /** pk_vm_init up to the stack: the kernel is mapped onto itself, which never lacks a page. */
  method MapKernel(k: Kernel, b: Layout, slots: nat)
    requires k.Valid() && !k.pages.ready && k.pages.table.freePages == FREE_PAGES && b.Ok()
    requires k.View() == State(map[], Blanks(), Zeros(slots), map[])
    requires k.pages.table.node == map[0 := PT.Node(2, 0)] && k.pages.table.nextFreePage == 1
    modifies k.pages`flat, k.pages.table`nextFreePage, k.pages.table`node, k.pages.table.mem
    ensures k.Valid() && Sound(k.c, k.View(), Zeros(slots)) && FirstFree(k.View().vmrs, 0) == 0
    ensures KernelOnly(b, k.View())
    ensures PT.Have(k.pages.table.node) == b.KernelTables() && k.pages.table.nextFreePage == |b.KernelTables()|
  {
    RootOnly();
    BootTables(b);
    var len := b.KernelPages() * PGSIZE;
    assert Pages(len) == b.KernelPages();
    var ok := k.MapKernelRange(DRAM_PAGE * PGSIZE, DRAM_PAGE * PGSIZE, len, 7);
    RootCharged(b, k.pages.table.node, k.pages.table.nextFreePage);
    k.pages.NeverEmpty();
    KernelInv(k.c, k.View(), slots, b.KernelPages(), 7);
    KernelPages(b, k.View(), slots);
  }

  /** The room that the stack needs: in this pool the records lie inside it, and then the tables of the stack and the
      page of the kernel's own stack lie below them, exactly for a kernel of at most 2560 pages. */
  lemma {:induction false} BootRoom(b: Layout, node: map<nat, PT.Node>, n: nat)
    requires b.Ok() && PT.Have(node) == b.KernelTables()
    ensures Room(false, n, |b.KernelTables()|, FREE_PAGES, node, b.StackPage(), b.stack) <==> b.image <= 2560
  {
    var next := |b.KernelTables()|;
    BootBelow(b);
    RoomFirst(n, next, FREE_PAGES, node, b.StackPage(), b.stack);
    RoomReady(next, next + 100, FREE_PAGES, node, b.StackPage(), b.stack);
  }

  lemma {:induction false} FourTables(b: Layout, n: nat, more: nat)
    requires n == 2 + (b.KernelPages() + 511) / 512 && more <= 6
    ensures 4 <= n && n + 100 + more < 100 * n && (100 * n + 100 <= FREE_PAGES <==> b.image <= 2560)
  {}

  lemma {:induction false} BootBelow(b: Layout)
    requires b.Ok()
    ensures var n := |b.KernelTables()|;
            && 2 <= n && (100 * n + 100 <= FREE_PAGES <==> b.image <= 2560)
            && n + 100 + |b.StackTables() - b.KernelTables()| < 100 * n
  {
    BootTables(b);
    MoreTables(b);
    FourTables(b, |b.KernelTables()|, |b.StackTables() - b.KernelTables()|);
  }

  lemma {:induction false} StackAt(b: Layout, c: Config, addr: int)
    requires b.Ok() && c == BootConfig(b, c.disk, c.demandPaging) && addr == c.mmapMax - b.stack * PGSIZE
    ensures addr == StackOf(b).addr && b.stack * PGSIZE == StackOf(b).length
    ensures addr % PGSIZE == 0 && addr / PGSIZE == b.StackPage() && Pages(b.stack * PGSIZE) == b.stack
  {}

  lemma {:induction false} StackRoom(b: Layout, c: Config, node: map<nat, PT.Node>, n: nat, addr: int)
    requires b.Ok() && PT.Have(node) == b.KernelTables()
    requires c == BootConfig(b, c.disk, c.demandPaging) && addr == c.mmapMax - b.stack * PGSIZE
    ensures addr >= 0 && addr % PGSIZE == 0
    ensures Need(addr / PGSIZE, Pages(b.stack * PGSIZE)) == b.StackTables()
    ensures Room(false, n, |b.KernelTables()|, FREE_PAGES, node, addr / PGSIZE, Pages(b.stack * PGSIZE)) <==>
            b.image <= 2560
  {
    StackAt(b, c, addr);
    BootRoom(b, node, n);
  }

  lemma {:induction false} StackCharged(b: Layout, node: map<nat, PT.Node>, next: nat, node': map<nat, PT.Node>,
                                        next': nat)
    requires b.Ok() && PT.Have(node) == b.KernelTables()
    requires Charged(node, next, b.StackTables(), node', next')
    ensures PT.Have(node') == b.KernelTables() + b.StackTables()
    ensures next' == next + |b.StackTables() - b.KernelTables()|
  {
    assert ChargedKey(next, next', 0);
    UnionSize(b.KernelTables(), b.StackTables());
  }

  lemma {:induction false} StackKeeps(c: Config, s: State, others: seq<nat>, addr: nat, length: nat, prot: Prot)
    requires ConfigOk(c) && length > 0 && Sound(c, s, others) && FirstFree(s.vmrs, 0) == 0 < |s.vmrs|
    requires addr % PGSIZE == 0 && addr + length <= c.mmapMax
    ensures var r := MmapAt(c, s, addr, length, prot, None, 0, !c.demandPaging); r.Mapped? && Sound(c, r.s, others)
  {
    assert SoundKey(s, 0);
    EagerIff(c, s, addr, length, prot, None, 0);
    MmapAtKeeps(c, s, others, addr, length, prot, None, 0, !c.demandPaging);
  }

  /** The user stack: memory without a file, to read, write and execute. */
  function StackOf(b: Layout): Mapping
    requires b.Ok()
  {
    Mapping(b.StackPage() * PGSIZE, b.stack * PGSIZE, 7, None, 0)
  }

  /** After boot: the kernel as it was, the stack, and nothing else. */
  ghost predicate BootPage(b: Layout, c: Config, s: State, q: nat)
    requires b.Ok()
  {
    if b.StackPage() <= q < b.StackPage() + b.stack then
      if c.demandPaging then Waiting(c, s, StackOf(b), q) else Shown(c, s, StackOf(b), q)
    else At(s, q) == KernelPage(b, q)
  }

  /** Looked up by the key. */
  ghost predicate BootPages(b: Layout, c: Config, s: State)
    requires b.Ok()
  {
    forall u: nat {:trigger BootPagesKey(s, u)} :: BootPagesKey(s, u) ==> forall q: nat :: BootPage(b, c, s, q)
  }

  ghost predicate BootPagesKey(s: State, u: nat) { u == u }

  /** s' is s with memory mapped at an address; looked up by the key. */
  ghost predicate Extended(c: Config, s: State, addr: nat, length: nat, s': State) {
    forall u: nat {:trigger ExtendedKey(s', u)} :: ExtendedKey(s', u) ==>
      MmapAt(c, s, addr, length, 7, None, 0, !c.demandPaging) == Mapped(s')
  }

  ghost predicate ExtendedKey(s: State, u: nat) { u == u }

  lemma {:induction false} StackShows(b: Layout, c: Config, s: State, s': State)
    requires b.Ok() && c == BootConfig(b, c.disk, c.demandPaging) && KernelOnly(b, s)
    requires Extended(c, s, StackOf(b).addr, StackOf(b).length, s')
    ensures BootPages(b, c, s')
  {
    var m := StackOf(b);
    assert ExtendedKey(s', 0);
    assert m.addr / PGSIZE == b.StackPage() && Pages(m.length) == b.stack;
    assert KernelOnlyKey(s, 0);
    forall q: nat ensures BootPage(b, c, s', q) {
      assert At(s, q) == KernelPage(b, q);
      if m.Has(q) {
        MmapAtShows(c, s, m, !c.demandPaging, q);
      } else {
        assert Users(s.pt, FirstFree(s.vmrs, 0)) == {} by { NoneWaits(b, s, FirstFree(s.vmrs, 0)); }
        MmapAtSpares(c, s, m, !c.demandPaging, q);
      }
    }
  }

  lemma {:induction false} NoneWaits(b: Layout, s: State, v: nat)
    requires KernelOnly(b, s)
    ensures Users(s.pt, v) == {}
  {
    assert KernelOnlyKey(s, 0);
    forall q | q in s.pt ensures s.pt[q] != Lazy(v) { assert At(s, q) == KernelPage(b, q); }
  }

  /** The first mapping takes the record pages. */
  method MapFirst(k: Kernel, addr: nat, length: nat, ghost others: seq<nat>) returns (ok: bool)
    requires k.Valid() && !k.pages.ready && Sound(k.c, k.View(), others) && FirstFree(k.View().vmrs, 0) == 0
    requires length > 0 && addr % PGSIZE == 0 && addr + length <= k.c.mmapMax
    modifies k`refs, k`mem, k.pages, k.pages.table, k.pages.table.mem
    ensures ok <==> old(k.RoomFor(addr, length))
    ensures ok ==> k.Valid() && k.pages.ready && k.pages.n == old(k.pages.table.nextFreePage)
    ensures ok ==> Sound(k.c, k.View(), others)
    ensures ok ==> Extended(k.c, old(k.View()), addr, length, k.View())
    ensures ok ==> Charged(old(k.pages.table.node), old(k.AfterRecords()),
                           Need(addr / PGSIZE, Pages(length)), k.pages.table.node, k.pages.table.nextFreePage)
  {
    StackKeeps(k.c, k.View(), others, addr, length, 7);
    var r := k.MapAt(addr, length, 7, None, 0, !k.c.demandPaging);
    ok := r.Address?;
  }

  /** The stack: its record is the first, so it takes the record pages. */
  method MapStack(k: Kernel, b: Layout, ghost others: seq<nat>) returns (ok: bool)
    requires k.Valid() && !k.pages.ready && k.pages.table.freePages == FREE_PAGES && b.Ok()
    requires k.c == BootConfig(b, k.c.disk, k.c.demandPaging)
    requires Sound(k.c, k.View(), others) && FirstFree(k.View().vmrs, 0) == 0 && KernelOnly(b, k.View())
    requires PT.Have(k.pages.table.node) == b.KernelTables() && k.pages.table.nextFreePage == |b.KernelTables()|
    modifies k`refs, k`mem, k.pages, k.pages.table, k.pages.table.mem
    ensures ok <==> b.image <= 2560
    ensures ok ==> k.Valid() && k.pages.ready && k.pages.n == |b.KernelTables()| && Sound(k.c, k.View(), others)
    ensures ok ==> BootPages(b, k.c, k.View())
    ensures ok ==> PT.Have(k.pages.table.node) == b.KernelTables() + b.StackTables()
    ensures ok ==> k.pages.table.nextFreePage == k.pages.n + 100 + |b.StackTables() - b.KernelTables()|
  {
    var addr, length := k.c.mmapMax - b.stack * PGSIZE, b.stack * PGSIZE;
    StackAt(b, k.c, addr);
    ghost var node, next := k.pages.table.node, k.AfterRecords();
    ghost var s := k.View();
    StackRoom(b, k.c, node, k.pages.n, addr);
    ok := MapFirst(k, addr, length, others);
    if ok {
      StackCharged(b, node, next, k.pages.table.node, k.pages.table.nextFreePage);
      StackShows(b, k.c, s, k.View());
    }
  }

  /** pk_vm_init. The records lie inside the pool exactly when the kernel has at most 2560 pages. Then the calls of a
      process start in order, with the tables of the kernel and the stack and the page of the kernel's stack taken. */
  method Boot(b: Layout, disk: seq<seq<bv8>>, demandPaging: bool, files: nat, slots: nat, brkMin: nat)
    returns (ok: bool, k: Kernel)
    requires b.Ok() && files > 0 && brkMin <= BootConfig(b, disk, demandPaging).mmapMax
    ensures fresh(k) && fresh(k.pages) && fresh(k.pages.table) && fresh(k.pages.table.mem)
    ensures ok <==> b.image <= 2560
    ensures ok ==> Good(k, Zeros(slots)) && k.c == BootConfig(b, disk, demandPaging) && |k.refs| == slots
    ensures ok ==> BootPages(b, k.c, k.View())
    ensures ok ==> PT.Have(k.pages.table.node) == b.KernelTables() + b.StackTables()
    ensures ok ==> k.pages.n == |b.KernelTables()|
    ensures ok ==> k.pages.table.nextFreePage == k.pages.n + 101 + |b.StackTables() - b.KernelTables()|
  {
    k := NewKernel(b, disk, demandPaging, files, slots, brkMin);
    MapKernel(k, b, slots);
    ok := Finish(k, b, Zeros(slots));
  }

  /** The stack, and the page for the kernel's own. */
  method Finish(k: Kernel, b: Layout, ghost others: seq<nat>) returns (ok: bool)
    requires k.Valid() && !k.pages.ready && k.pages.table.freePages == FREE_PAGES && b.Ok()
    requires k.c == BootConfig(b, k.c.disk, k.c.demandPaging)
    requires k.brk == 0 && k.brkMin <= k.c.mmapMax && k.brkMax <= k.c.mmapMax
    requires Sound(k.c, k.View(), others) && FirstFree(k.View().vmrs, 0) == 0 && KernelOnly(b, k.View())
    requires PT.Have(k.pages.table.node) == b.KernelTables() && k.pages.table.nextFreePage == |b.KernelTables()|
    modifies k`refs, k`mem, k.pages, k.pages.table, k.pages.table.mem
    ensures ok <==> b.image <= 2560
    ensures ok ==> Good(k, others) && |k.refs| == |others| && k.pages.n == |b.KernelTables()|
    ensures ok ==> BootPages(b, k.c, k.View())
    ensures ok ==> PT.Have(k.pages.table.node) == b.KernelTables() + b.StackTables()
    ensures ok ==> k.pages.table.nextFreePage == k.pages.n + 101 + |b.StackTables() - b.KernelTables()|
  {
    ok := MapStack(k, b, others);
    if !ok { return; }
    BootBelow(b);
    ok := k.pages.TakePage();
    SoundFine(k.c, k.P(), others);
  }

  /** From boot on: one page for every table that the stack and all mappings need and the kernel does not have. */
  lemma {:induction false} BootFits(b: Layout, c: Config, x: Proc, at: Pool, calls: seq<Call>, n: nat)
    requires b.Ok() && PT.Have(at.node) == b.KernelTables() + b.StackTables()
    requires at.next == n + 101 + |b.StackTables() - b.KernelTables()|
    ensures Fits(c, x, at, calls, n) <==>
            n + 101 + |b.StackTables() + WantsAll(c, x, calls) - b.KernelTables()| <= 100 * n
  {
    TwoParts(b.KernelTables(), b.StackTables(), WantsAll(c, x, calls));
  }

  lemma {:induction false} TwoParts(a: set<PT.Node>, b: set<PT.Node>, d: set<PT.Node>)
    ensures |b + d - a| == |b - a| + |d - (a + b)|
  {
    assert b + d - a == (b - a) + (d - (a + b));
    assert (b - a) !! (d - (a + b));
  }
}
