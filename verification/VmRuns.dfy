/** Whole system calls on memory and files, each one step under the lock, and what every run of them keeps. */
module VmRuns {
  import opened Vm
  import opened VmAlloc
  import opened VmProps
  import opened Files

  // ---- __do_mmap at a chosen address ----

  datatype MapResult = MapPanic | MapFailed | Mapped(s: State)

  function MmapAt(c: Config, s: State, addr: nat, length: nat, prot: Prot, file: Option<nat>, offset: nat,
                  populate: bool): MapResult {
    match VmrAlloc(s, Vmr(addr, length, file, offset, NPage(length) % W32, prot))
    case None => MapFailed
    case Some((s1, v)) =>
      var s2 := MapRange(s1, addr / PGSIZE, Pages(length), v);
      if populate then
        match Populate(c, s2, addr / PGSIZE, Pages(length), prot)
        case None => MapPanic
        case Some(s3) => Mapped(s3)
      else Mapped(s2)
  }

  /** __valid_user_range, in 64-bit arithmetic */
  predicate ValidUserRange(c: Config, addr: nat, len: nat) {
    (addr + len) % W64 >= addr && (addr + len) % W64 <= c.mmapMax
  }

  ghost predicate ConfigOk(c: Config) {
    c.mmapMax <= DRAM_PAGE * PGSIZE && c.mmapMax % PGSIZE == 0
  }

  lemma {:induction false} NPageIsPages(length: nat)
    requires 0 < length <= DRAM_PAGE * PGSIZE
    ensures NPage(length) == Pages(length) && 0 < Pages(length) < W32
  {
    assert (length + W64 - 1) % W64 == length - 1;
    assert (length - 1) / PGSIZE + 1 == (length + PGSIZE - 1) / PGSIZE;
  }

  lemma {:induction false} PagesCovered(addr: nat, length: nat, q: nat)
    requires addr % PGSIZE == 0 && addr / PGSIZE <= q < addr / PGSIZE + Pages(length)
    ensures addr <= q * PGSIZE < addr + length
  {
    assert addr == addr / PGSIZE * PGSIZE;
    assert (q - addr / PGSIZE) * PGSIZE <= (Pages(length) - 1) * PGSIZE;
    assert (Pages(length) - 1) * PGSIZE < length;
  }

  /** A nonempty mapping inside user space keeps the invariant, whatever was mapped there before. */
  lemma {:induction false} MmapAtKeeps(c: Config, s: State, others: seq<nat>, addr: nat, length: nat, prot: Prot,
                                       file: Option<nat>, offset: nat, populate: bool)
    requires Inv(c, s, others) && ConfigOk(c) && 0 < length && addr % PGSIZE == 0 && addr + length <= c.mmapMax
    requires file.Some? ==> file.value < |s.refs| && others[file.value] > 0
    ensures MmapAt(c, s, addr, length, prot, file, offset, populate).Mapped? ==>
            Inv(c, MmapAt(c, s, addr, length, prot, file, offset, populate).s, others)
  {
    NPageIsPages(length);
    var r := Vmr(addr, length, file, offset, NPage(length) % W32, prot);
    if VmrAlloc(s, r).Some? {
      AllocKeeps(c, s, others, r);
      var (s1, v) := VmrAlloc(s, r).value;
      forall q | addr / PGSIZE <= q < addr / PGSIZE + Pages(length)
        ensures Covered(s1.vmrs[v], q) && q * PGSIZE < c.mmapMax
      {
        PagesCovered(addr, length, q);
      }
      MapRangeKeeps(c, s1, others, v, addr / PGSIZE, Pages(length));
      PopulateKeeps(c, MapRange(s1, addr / PGSIZE, Pages(length), v), others, addr / PGSIZE, Pages(length), prot);
    }
  }

  /** With length 0 the page count wraps to 2^52, whose low 32 bits are 0: the record stays free. A file has been
      counted by then and can never be closed; the ELF loader can make this call. */
  lemma {:induction false} ZeroLengthLeaks(c: Config, s: State, others: seq<nat>, addr: nat, prot: Prot, f: nat,
                                           offset: nat, populate: bool)
    requires Inv(c, s, others) && f < |s.refs| && others[f] > 0 && FirstFree(s.vmrs, 0) < |s.vmrs|
    ensures var m := MmapAt(c, s, addr, 0, prot, Some(f), offset, populate);
            m.Mapped? && m.s.refs[f] == s.refs[f] + 1 && Holders(m.s.vmrs, f) == Holders(s.vmrs, f) &&
              !FilesOk(m.s, others)
  {
    assert NPage(0) % W32 == 0;
    assert Pages(0) == 0;
    var r := Vmr(addr, 0, Some(f), offset, 0, prot);
    var v := FirstFree(s.vmrs, 0);
    assert Holders(s.vmrs[v := r], f) == Holders(s.vmrs, f);
    assert FileCounted(s, others, f);
    HoldersBound(s.vmrs, f);
    var m := MmapAt(c, s, addr, 0, prot, Some(f), offset, populate);
    assert !FileCounted(m.s, others, f);
  }

  lemma {:induction false} ZeroLengthKeeps(c: Config, s: State, others: seq<nat>, addr: nat, prot: Prot, offset: nat,
                                           populate: bool)
    requires Inv(c, s, others)
    ensures var m := MmapAt(c, s, addr, 0, prot, None, offset, populate); m.Mapped? ==> Inv(c, m.s, others)
  {
    assert NPage(0) % W32 == 0;
    assert Pages(0) == 0;
    var r := Vmr(addr, 0, None, offset, 0, prot);
    if VmrAlloc(s, r).Some? {
      var (s', v) := VmrAlloc(s, r).value;
      AllocIsFresh(c, s, others, r);
      forall x | 0 <= x < |s'.vmrs| ensures Counted(s', x, -1, 0) { assert Counted(s, x, -1, 0); }
      forall q | q in s'.pt ensures LeafOk(c, s', q) {
        assert LeafOk(c, s, q);
        assert s.pt[q] == Lazy(v) ==> q in Users(s.pt, v);
      }
      forall f | 0 <= f < |s'.refs| ensures FileCounted(s', others, f) {
        assert FileCounted(s, others, f);
        assert Holders(s'.vmrs, f) == Holders(s.vmrs, f);
      }
    }
  }

  /** A mapping inside user space keeps the invariant exactly when it has pages or no file. */
  lemma {:induction false} MmapKeepsIff(c: Config, s: State, others: seq<nat>, addr: nat, length: nat, prot: Prot,
                                        file: Option<nat>, offset: nat, populate: bool)
    requires Inv(c, s, others) && ConfigOk(c) && addr % PGSIZE == 0 && addr + length <= c.mmapMax
    requires file.Some? ==> file.value < |s.refs| && others[file.value] > 0
    ensures var m := MmapAt(c, s, addr, length, prot, file, offset, populate);
            m.Mapped? ==> (Inv(c, m.s, others) <==> length > 0 || file.None?)
  {
    if MmapAt(c, s, addr, length, prot, file, offset, populate).Mapped? {
      if length > 0 {
        MmapAtKeeps(c, s, others, addr, length, prot, file, offset, populate);
      } else if file.None? {
        ZeroLengthKeeps(c, s, others, addr, prot, offset, populate);
      } else {
        ZeroLengthLeaks(c, s, others, addr, prot, file.value, offset, populate);
      }
    }
  }

  // ---- eager and lazy mappings agree ----

  /** After the mapping loop every page of the range is lazy with the new record. */
  lemma {:induction false} MapRangeLeaves(s: State, p: nat, n: nat, v: nat)
    requires v < |s.vmrs|
    ensures var s' := MapRange(s, p, n, v);
            |s'.vmrs| == |s.vmrs| && SameRecord(s, s', v) &&
            (forall q :: p <= q < p + n ==> At(s', q) == Lazy(v)) &&
            (forall q: nat :: q < p || p + n <= q ==> At(s', q) == At(s, q))
    decreases n
  {
    if n > 0 {
      var s1 := MapPage(s, p, v);
      MapRangeLeaves(s1, p + 1, n - 1, v);
      var s' := MapRange(s, p, n, v);
      assert At(s', p) == At(s1, p) == Lazy(v);
      forall q: nat | q < p || p + n <= q ensures At(s', q) == At(s, q) { assert At(s1, q) == At(s, q); }
      assert SameRecord(s, s1, v) && SameRecord(s1, s', v);
    }
  }

  /** The file, if there is one, reaches into the last page of the mapping. */
  predicate ReachesLast(c: Config, length: nat, file: Option<nat>, offset: nat) {
    file.None? || (file.value < |c.disk| && offset + (Pages(length) - 1) * PGSIZE < |c.disk[file.value]|)
  }

  /** The state after the mapping loop, and what its pages are. */
  lemma {:induction false} FreshMapping(c: Config, s: State, addr: nat, length: nat, prot: Prot, file: Option<nat>,
                                        offset: nat, q: nat)
    requires ConfigOk(c) && 0 < length && addr % PGSIZE == 0 && addr + length <= c.mmapMax
    requires FirstFree(s.vmrs, 0) < |s.vmrs|
    requires addr / PGSIZE <= q < addr / PGSIZE + Pages(length)
    ensures var m := MmapAt(c, s, addr, length, prot, file, offset, false);
            m.Mapped? && VmProps.Mapped(c, m.s, q, prot) &&
            (Loadable(c, m.s, q) <==>
             file.None? || (file.value < |c.disk| && q * PGSIZE - addr + offset < |c.disk[file.value]|))
  {
    var r := Vmr(addr, length, file, offset, NPage(length) % W32, prot);
    var (s1, v) := VmrAlloc(s, r).value;
    var p, n := addr / PGSIZE, Pages(length);
    var s2 := MapRange(s1, p, n, v);
    MapRangeLeaves(s1, p, n, v);
    assert At(s2, q) == Lazy(v) && SameRecord(s1, s2, v);
    PagesCovered(addr, length, q);
    ContentBytes(c, s2.vmrs[v], q);
  }

  /** The eager mapping succeeds, its kassert included, exactly when the file reaches into the last page. */
  lemma {:induction false} EagerIff(c: Config, s: State, addr: nat, length: nat, prot: Prot, file: Option<nat>,
                                    offset: nat)
    requires ConfigOk(c) && 0 < length && addr % PGSIZE == 0 && addr + length <= c.mmapMax
    requires FirstFree(s.vmrs, 0) < |s.vmrs|
    ensures var eager := MmapAt(c, s, addr, length, prot, file, offset, true);
            var lazy := MmapAt(c, s, addr, length, prot, file, offset, false);
            && lazy.Mapped? && (eager.Mapped? <==> ReachesLast(c, length, file, offset))
            && (!eager.Mapped? ==> eager.MapPanic?)
            && (eager.Mapped? ==> FaultAll(c, lazy.s, Ascending(addr / PGSIZE, Pages(length)), prot) == Some(eager.s))
            && (eager.Mapped? ==> forall q :: addr / PGSIZE <= q < addr / PGSIZE + Pages(length) ==>
                Loadable(c, lazy.s, q))
  {
    var p, n := addr / PGSIZE, Pages(length);
    var s2 := MmapAt(c, s, addr, length, prot, file, offset, false).s;
    FreshMapping(c, s, addr, length, prot, file, offset, p + n - 1);
    LastPageBound(addr, length, p + n - 1);
    forall q | p <= q < p + n
      ensures VmProps.Mapped(c, s2, q, prot) && (ReachesLast(c, length, file, offset) ==> Loadable(c, s2, q))
    {
      FreshMapping(c, s, addr, length, prot, file, offset, q);
      LastPageBound(addr, length, q);
    }
    PopulateIff(c, s2, p, n, prot);
  }

  /** A file that is empty cannot be mapped eagerly at all. */
  lemma {:induction false} EmptyFilePanics(c: Config, s: State, addr: nat, length: nat, prot: Prot, f: nat)
    requires ConfigOk(c) && 0 < length && addr % PGSIZE == 0 && addr + length <= c.mmapMax
    requires FirstFree(s.vmrs, 0) < |s.vmrs|
    requires f < |c.disk| && c.disk[f] == []
    ensures MmapAt(c, s, addr, length, prot, Some(f), 0, true) == MapPanic
  {
    EagerIff(c, s, addr, length, prot, Some(f), 0);
  }

  /** Where the eager mapping succeeds it equals the lazy mapping after its pages have been faulted in, in any order. */
  lemma {:induction false} EagerEqualsLazy(c: Config, s: State, addr: nat, length: nat, prot: Prot, file: Option<nat>,
                                           offset: nat, ps: seq<nat>, want: Prot)
    requires ConfigOk(c) && 0 < length && addr % PGSIZE == 0 && addr + length <= c.mmapMax
    requires FirstFree(s.vmrs, 0) < |s.vmrs|
    requires forall q :: q in ps <==> addr / PGSIZE <= q < addr / PGSIZE + Pages(length)
    ensures MmapAt(c, s, addr, length, prot, file, offset, false).Mapped?
    ensures var eager := MmapAt(c, s, addr, length, prot, file, offset, true);
            var faulted := FaultAll(c, MmapAt(c, s, addr, length, prot, file, offset, false).s, ps, want);
            eager.Mapped? ==> faulted.Some? && faulted.value.pt == eager.s.pt && faulted.value.mem == eager.s.mem
  {
    EagerIff(c, s, addr, length, prot, file, offset);
    var lazy := MmapAt(c, s, addr, length, prot, file, offset, false);
    if MmapAt(c, s, addr, length, prot, file, offset, true).Mapped? {
      AscendingIs(addr / PGSIZE, Pages(length));
      FaultOrderIrrelevant(c, lazy.s, ps, Ascending(addr / PGSIZE, Pages(length)), want, prot);
    }
  }

  lemma {:induction false} LastPageBound(addr: nat, length: nat, q: nat)
    requires addr % PGSIZE == 0 && addr / PGSIZE <= q < addr / PGSIZE + Pages(length)
    ensures 0 <= q * PGSIZE - addr <= (Pages(length) - 1) * PGSIZE
    ensures q == addr / PGSIZE + Pages(length) - 1 ==> q * PGSIZE - addr == (Pages(length) - 1) * PGSIZE
  {
    assert addr == addr / PGSIZE * PGSIZE;
  }

  lemma {:induction false} AscendingIs(p: nat, n: nat)
    ensures forall q :: q in Ascending(p, n) <==> p <= q < p + n
    decreases n
  {
    if n > 0 { AscendingIs(p + 1, n - 1); }
  }

  // ---- references to files ----

  /** Changing how often file f is referenced outside the records, with its count set accordingly. */
  lemma {:induction false} SetRef(c: Config, s: State, others: seq<nat>, f: nat, m: nat)
    requires Inv(c, s, others) && f < |s.refs| && m + |s.vmrs| + 2 < W32
    ensures var k := |Holders(s.vmrs, f)| + m;
            Inv(c, s.(refs := s.refs[f := if k == 0 then 0 else k + 1]), others[f := m])
  {
    var k := |Holders(s.vmrs, f)| + m;
    var s' := s.(refs := s.refs[f := if k == 0 then 0 else k + 1]);
    var others' := others[f := m];
    forall g | 0 <= g < |s'.refs| ensures FileCounted(s', others', g) { assert FileCounted(s, others, g); }
    forall v | 0 <= v < |s'.vmrs| ensures Counted(s', v, -1, 0) { assert Counted(s, v, -1, 0); }
    forall p | p in s'.pt ensures LeafOk(c, s', p) { assert LeafOk(c, s, p); }
  }

  lemma {:induction false} TakeRef(c: Config, s: State, others: seq<nat>, f: nat)
    requires Inv(c, s, others) && f < |s.refs| && others[f] > 0 && others[f] + |s.vmrs| + 3 < W32
    ensures Inv(c, s.(refs := FileIncref(s.refs, f)), others[f := others[f] + 1])
  {
    assert FileCounted(s, others, f);
    HoldersBound(s.vmrs, f);
    SetRef(c, s, others, f, others[f] + 1);
  }

  lemma {:induction false} GiveRef(c: Config, s: State, others: seq<nat>, f: nat)
    requires Inv(c, s, others) && f < |s.refs| && others[f] > 0
    ensures Inv(c, s.(refs := FileDecref(s.refs, f)), others[f := others[f] - 1])
  {
    assert FileCounted(s, others, f);
    SetRef(c, s, others, f, others[f] - 1);
  }

  lemma {:induction false} NewRef(c: Config, s: State, others: seq<nat>, f: nat)
    requires Inv(c, s, others) && f < |s.refs| && s.refs[f] == 0 && |s.vmrs| + 3 < W32
    ensures others[f] == 0 && Inv(c, s.(refs := s.refs[f := 2]), others[f := 1])
  {
    assert FileCounted(s, others, f);
    SetRef(c, s, others, f, 1);
  }

  // ---- a process and its system calls ----

  /** held[f] tallies the references callers hold outside descriptors, those never dropped included. */
  datatype Proc = Proc(s: State, fds: seq<Option<nat>>, held: seq<nat>, brk: nat, brkMin: nat, brkMax: nat)

  datatype Op =
    | SysMmap(addr: nat, length: nat, prot: Prot, fixed: bool, populate: bool, from: Option<int>, offset: nat)
    | SysMunmap(addr: nat, length: nat)
    | SysFault(vaddr: nat, prot: Prot)
    | SysBrk(addr: nat)
    | SysMprotect(addr: nat, length: nat, prot: Prot)
    | SysOpen(hostOk: bool)
    | SysClose(fd: int)
    | SysDup(fd: int)
    | SysAtKfd(fd: int)

  function RoundUp(a: nat): nat { (a + PGSIZE - 1) / PGSIZE * PGSIZE }

  /** The address __do_mmap maps at, or nothing. */
  ghost function Placed(c: Config, pt: map<nat, Leaf>, brk: nat, addr: nat, length: nat, fixed: bool): Option<nat> {
    if fixed then
      if addr % PGSIZE != 0 || !ValidUserRange(c, addr, length) then None else Some(addr)
    else
      match Found(pt, brk, c.mmapMax, NPage(length))
      case None => None
      case Some(p) => if p == 0 then None else Some(p * PGSIZE)
  }

  /** __do_mmap and the brk_max update of do_mmap. */
  ghost function MapStep(c: Config, x: Proc, addr: nat, length: nat, prot: Prot, fixed: bool, populate: bool,
                         file: Option<nat>, offset: nat): Option<Proc> {
    match Placed(c, x.s.pt, x.brk, addr, length, fixed)
    case None => Some(x)
    case Some(a) =>
      match MmapAt(c, x.s, a, length, prot, file, offset, populate || !c.demandPaging)
      case MapPanic => None
      case MapFailed => Some(x)
      case Mapped(s') => Some(x.(s := s', brkMax := if a < x.brkMax then a else x.brkMax))
  }

  /** do_mmap */
  ghost function MmapStep(c: Config, x: Proc, op: Op): Option<Proc>
    requires op.SysMmap?
  {
    if op.length == 0 || op.offset % PGSIZE != 0 then Some(x)
    else if op.from.None? then MapStep(c, x, op.addr, op.length, op.prot, op.fixed, op.populate, None, op.offset)
    else
      var (t, f) := Get(Table(x.s.refs, x.fds), op.from.value);
      if f.None? then Some(x)
      else
        match MapStep(c, x.(s := x.s.(refs := t.refs)), op.addr, op.length, op.prot, op.fixed, op.populate, f,
                      op.offset)
        case None => None
        case Some(x') => Some(x'.(s := x'.s.(refs := FileDecref(x'.s.refs, f.value))))
  }

  /** The end of the heap before a call of __do_brk and after it. */
  function OldBrk(x: Proc): nat { if x.brk == 0 then RoundUp(x.brkMin) else x.brk }
  function NewBrk(x: Proc, addr: nat): nat {
    RoundUp(if addr < x.brkMin then x.brkMin else if addr > x.brkMax then x.brkMax else addr)
  }

  /** __do_brk; a growth that cannot be mapped is a failed kassert. */
  function BrkStep(c: Config, x: Proc, addr: nat): Option<Proc> {
    var brk, page := OldBrk(x), NewBrk(x, addr);
    if brk > page then
      Some(x.(s := UnmapRange(x.s, page / PGSIZE, (brk - page) / PGSIZE), brk := page))
    else if brk < page then
      if !ValidUserRange(c, brk, page - brk) then None
      else
        match MmapAt(c, x.s, brk, page - brk, 0xFFFF_FFFF, None, 0, !c.demandPaging)
        case Mapped(s') => Some(x.(s := s', brk := page))
        case _ => None
    else Some(x.(brk := page))
  }

  /** sys_openat: the caller's reference to the new slot is never dropped. */
  function OpenStep(x: Proc, hostOk: bool): Proc {
    var (t, f) := GetFree(Table(x.s.refs, x.fds));
    if f.None? then x
    else if !hostOk then x.(s := x.s.(refs := FileDecref(t.refs, f.value)))
    else
      var (t', d) := Dup(t, f.value);
      if d.None? then x.(s := x.s.(refs := FileDecref(t'.refs, f.value)))
      else x.(s := x.s.(refs := t'.refs), fds := t'.fds, held := Bump(x.held, f.value))
  }

  /** sys_dup */
  function DupStep(x: Proc, fd: int): Proc {
    var (t, f) := Get(Table(x.s.refs, x.fds), fd);
    if f.None? then x
    else
      var (t', d) := Dup(t, f.value);
      x.(s := x.s.(refs := FileDecref(t'.refs, f.value)), fds := t'.fds)
  }

  ghost function Step(c: Config, x: Proc, op: Op): Option<Proc> {
    match op
    case SysMmap(_, _, _, _, _, _, _) => MmapStep(c, x, op)
    case SysMunmap(addr, length) =>
      if addr % PGSIZE != 0 || !ValidUserRange(c, addr, length) then Some(x)
      else Some(x.(s := UnmapRange(x.s, addr / PGSIZE, Pages(length))))
    case SysFault(vaddr, prot) =>
      (match PageFault(c, x.s, vaddr / PGSIZE, prot)
       case Panic => None
       case Fault(s', _) => Some(x.(s := s')))
    case SysBrk(addr) => BrkStep(c, x, addr)
    case SysMprotect(addr, length, prot) =>
      if addr % PGSIZE != 0 || addr + length >= W64 then Some(x)
      else Some(x.(s := ProtectRange(x.s, addr / PGSIZE, Pages(length), prot).s))
    case SysOpen(hostOk) => Some(OpenStep(x, hostOk))
    case SysClose(fd) =>
      var (t, _) := Close(Table(x.s.refs, x.fds), fd);
      Some(x.(s := x.s.(refs := t.refs), fds := t.fds))
    case SysDup(fd) => Some(DupStep(x, fd))
    case SysAtKfd(fd) =>
      var (t, f) := Get(Table(x.s.refs, x.fds), fd);
      Some(if f.None? then x else x.(s := x.s.(refs := t.refs), held := Bump(x.held, f.value)))
  }

  // ---- the invariant of a process ----

  /** References to each file outside the region records. */
  ghost function Others(fds: seq<Option<nat>>, held: seq<nat>): seq<nat> {
    seq(|held|, f requires 0 <= f < |held| => |Naming(fds, f)| + held[f])
  }

  ghost predicate ProcInv(c: Config, x: Proc) {
    && ConfigOk(c) && |x.held| == |x.s.refs| && x.brk % PGSIZE == 0 && x.brkMin <= c.mmapMax && x.brkMax <= c.mmapMax
    && (forall d :: 0 <= d < |x.fds| && x.fds[d].Some? ==> x.fds[d].value < |x.s.refs|)
    && Inv(c, x.s, Others(x.fds, x.held))
  }

  /** No slot count comes near 2^32 in the next n calls. */
  ghost predicate Roomy(x: Proc, n: nat) {
    forall f :: 0 <= f < |x.held| ==> x.held[f] + |x.fds| + |x.s.vmrs| + 8 + n < W32
  }

  /** Lengths are machine words; a request that is not fixed must fit user space, or it is mapped outside it. */
  predicate Sized(c: Config, op: Op) {
    op.SysMmap? ==> op.length < W64 && (!op.fixed ==> op.length <= c.mmapMax)
  }

  lemma {:induction false} OthersAt(fds: seq<Option<nat>>, held: seq<nat>, f: nat)
    requires f < |held|
    ensures Others(fds, held)[f] == |Naming(fds, f)| + held[f]
    ensures held[f] + |fds| >= Others(fds, held)[f]
  {
    NamingBound(fds, f);
  }

  lemma {:induction false} OthersBump(fds: seq<Option<nat>>, held: seq<nat>, f: nat)
    requires f < |held|
    ensures Others(fds, Bump(held, f)) == Others(fds, held)[f := Others(fds, held)[f] + 1]
  {}

  lemma {:induction false} OthersStore(fds: seq<Option<nat>>, held: seq<nat>, d: nat, f: nat)
    requires d < |fds| && fds[d].None? && f < |held|
    ensures Others(fds[d := Some(f)], held) == Others(fds, held)[f := Others(fds, held)[f] + 1]
  {
    var a, b := Others(fds[d := Some(f)], held), Others(fds, held)[f := Others(fds, held)[f] + 1];
    forall g | 0 <= g < |held|
      ensures a[g] == b[g]
    {
      NamingWith(fds, d, f, g);
    }
  }

  lemma {:induction false} OthersClear(fds: seq<Option<nat>>, held: seq<nat>, d: nat, f: nat)
    requires d < |fds| && fds[d] == Some(f) && f < |held|
    ensures Others(fds, held)[f] > 0
    ensures Others(fds[d := None], held) == Others(fds, held)[f := Others(fds, held)[f] - 1]
  {
    assert d in Naming(fds, f);
    var a, b := Others(fds[d := None], held), Others(fds, held)[f := Others(fds, held)[f] - 1];
    forall g | 0 <= g < |held|
      ensures a[g] == b[g]
    {
      NamingWithout(fds, d, g);
    }
  }

  /** A descriptor in use: file_get counts one more reference to its slot. */
  lemma {:induction false} GetCounts(c: Config, x: Proc, fd: int)
    requires ProcInv(c, x) && Roomy(x, 0)
    ensures var (t, f) := Get(Table(x.s.refs, x.fds), fd);
            if f.None? then t.refs == x.s.refs
            else f.value < |x.s.refs| && Others(x.fds, x.held)[f.value] > 0 && 0 <= fd < |x.fds| && x.fds[fd] == f &&
                 t.refs == FileIncref(x.s.refs, f.value) && t.fds == x.fds &&
                 Inv(c, x.s.(refs := t.refs), Others(x.fds, Bump(x.held, f.value)))
  {
    var (t, f) := Get(Table(x.s.refs, x.fds), fd);
    if f.Some? {
      OthersAt(x.fds, x.held, f.value);
      assert fd in Naming(x.fds, f.value);
      TakeRef(c, x.s, Others(x.fds, x.held), f.value);
      OthersBump(x.fds, x.held, f.value);
    }
  }

  lemma {:induction false} DropCounts(c: Config, s: State, fds: seq<Option<nat>>, held: seq<nat>, f: nat)
    requires |held| == |s.refs| && f < |held| && Inv(c, s, Others(fds, Bump(held, f)))
    ensures Inv(c, s.(refs := FileDecref(s.refs, f)), Others(fds, held))
  {
    OthersBump(fds, held, f);
    var o := Others(fds, Bump(held, f));
    GiveRef(c, s, o, f);
    assert o[f := o[f] - 1] == Others(fds, held);
  }

  // ---- every call keeps the invariant ----

  lemma {:induction false} PlacedOk(c: Config, pt: map<nat, Leaf>, brk: nat, addr: nat, length: nat, fixed: bool)
    requires ConfigOk(c) && 0 < length < W64 && (!fixed ==> length <= c.mmapMax)
    requires Placed(c, pt, brk, addr, length, fixed).Some?
    ensures var a := Placed(c, pt, brk, addr, length, fixed).value;
            a % PGSIZE == 0 && a + length <= c.mmapMax
    ensures var a := Placed(c, pt, brk, addr, length, fixed).value;
            !fixed ==> a >= brk / PGSIZE * PGSIZE && Fits(pt, a / PGSIZE, Pages(length))
  {
    if fixed {
      if addr + length >= W64 { assert (addr + length) % W64 < addr by { ModStep(addr, length); } }
    } else {
      NPageIsPages(length);
      RoundUpBound(length, c.mmapMax);
      FoundInRangeIff(pt, brk, c.mmapMax, NPage(length));
    }
  }

  /** Where a request without MAP_FIXED is placed, it ends inside user space exactly when it is no larger than that. */
  lemma {:induction false} PlacedInRangeIff(c: Config, pt: map<nat, Leaf>, brk: nat, addr: nat, length: nat)
    requires ConfigOk(c) && 0 < length < W64 && Placed(c, pt, brk, addr, length, false).Some?
    ensures Placed(c, pt, brk, addr, length, false).value + length <= c.mmapMax <==> length <= c.mmapMax
  {
    if length <= c.mmapMax { PlacedOk(c, pt, brk, addr, length, false); }
  }

  lemma {:induction false} LastOutside(addr: nat, length: nat, mmapMax: nat)
    requires addr % PGSIZE == 0 && 0 < length && addr + length > mmapMax && mmapMax % PGSIZE == 0
    ensures Pages(length) > 0 && (addr / PGSIZE + Pages(length) - 1) * PGSIZE >= mmapMax
  {
    assert length <= Pages(length) * PGSIZE;
  }

  /** A mapping that leaves user space breaks the invariant: its last page can never be faulted in or unmapped. */
  lemma {:induction false} OutsideBreaks(c: Config, s: State, others: seq<nat>, addr: nat, length: nat, prot: Prot,
                                         file: Option<nat>, offset: nat)
    requires addr % PGSIZE == 0 && 0 < length && addr + length > c.mmapMax && c.mmapMax % PGSIZE == 0
    ensures var m := MmapAt(c, s, addr, length, prot, file, offset, false); m.Mapped? ==> !Inv(c, m.s, others)
  {
    var r := VmrAlloc(s, Vmr(addr, length, file, offset, NPage(length) % W32, prot));
    if r.Some? {
      var p, n := addr / PGSIZE, Pages(length);
      MapRangeLeaves(r.value.0, p, n, r.value.1);
      var s' := MapRange(r.value.0, p, n, r.value.1);
      var q := p + n - 1;
      assert At(s', q) == Lazy(r.value.1);
      LastOutside(addr, length, c.mmapMax);
      assert !LeafOk(c, s', q);
    }
  }

  /** A length inside user space cannot wrap an address around and come back above it. */
  lemma {:induction false} ModStep(addr: nat, length: nat)
    requires 0 < length < W64 && addr + length >= W64
    ensures (addr + length) % W64 < addr
  {
    if addr >= W64 {
      assert (addr + length) % W64 < W64;
    } else {
      assert (addr + length) % W64 == addr + length - W64;
    }
  }

  lemma {:induction false} MapStepKeeps(c: Config, x: Proc, held: seq<nat>, addr: nat, length: nat, prot: Prot,
                                        fixed: bool, populate: bool, file: Option<nat>, offset: nat)
    requires ConfigOk(c) && Inv(c, x.s, Others(x.fds, held)) && 0 < length < W64 && (!fixed ==> length <= c.mmapMax)
    requires file.Some? ==> file.value < |x.s.refs| && Others(x.fds, held)[file.value] > 0
    ensures var r := MapStep(c, x, addr, length, prot, fixed, populate, file, offset);
            r.Some? ==> Inv(c, r.value.s, Others(x.fds, held)) && r.value.fds == x.fds && r.value.held == x.held &&
                        r.value.brk == x.brk && r.value.brkMin == x.brkMin && r.value.brkMax <= x.brkMax &&
                          |r.value.s.vmrs| == |x.s.vmrs| && |r.value.s.refs| == |x.s.refs|
  {
    var at := Placed(c, x.s.pt, x.brk, addr, length, fixed);
    if at.Some? {
      PlacedOk(c, x.s.pt, x.brk, addr, length, fixed);
      MmapAtKeeps(c, x.s, Others(x.fds, held), at.value, length, prot, file, offset, populate || !c.demandPaging);
      MmapAtSizes(c, x.s, at.value, length, prot, file, offset, populate || !c.demandPaging);
    }
  }

  lemma {:induction false} MapRangeSizes(s: State, p: nat, n: nat, v: nat)
    ensures |MapRange(s, p, n, v).vmrs| == |s.vmrs| && |MapRange(s, p, n, v).refs| == |s.refs|
    decreases n
  {
    if n > 0 { MapRangeSizes(MapPage(s, p, v), p + 1, n - 1, v); }
  }

  lemma {:induction false} UnmapRangeSizes(s: State, p: nat, n: nat)
    ensures |UnmapRange(s, p, n).vmrs| == |s.vmrs| && |UnmapRange(s, p, n).refs| == |s.refs|
    ensures forall q: nat :: q in UnmapRange(s, p, n).pt <==> q in s.pt && !(p <= q < p + n)
    decreases n
  {
    if n > 0 { UnmapRangeSizes(UnmapPage(s, p), p + 1, n - 1); }
  }

  lemma {:induction false} PopulateSizes(c: Config, s: State, p: nat, n: nat, prot: Prot)
    ensures var r := Populate(c, s, p, n, prot);
            r.Some? ==> |r.value.vmrs| == |s.vmrs| && |r.value.refs| == |s.refs| && r.value.pt.Keys == s.pt.Keys
    decreases n
  {
    if n > 0 && PageFault(c, s, p, prot).Fault? {
      assert PageFault(c, s, p, prot).s.pt.Keys == s.pt.Keys;
      PopulateSizes(c, PageFault(c, s, p, prot).s, p + 1, n - 1, prot);
    }
  }

  lemma {:induction false} MmapAtSizes(c: Config, s: State, addr: nat, length: nat, prot: Prot, file: Option<nat>,
                                       offset: nat, populate: bool)
    ensures var m := MmapAt(c, s, addr, length, prot, file, offset, populate);
            m.Mapped? ==> |m.s.vmrs| == |s.vmrs| && |m.s.refs| == |s.refs|
  {
    var r := VmrAlloc(s, Vmr(addr, length, file, offset, NPage(length) % W32, prot));
    if r.Some? {
      MapRangeSizes(r.value.0, addr / PGSIZE, Pages(length), r.value.1);
      PopulateSizes(c, MapRange(r.value.0, addr / PGSIZE, Pages(length), r.value.1), addr / PGSIZE, Pages(length),
                    prot);
    }
  }

  lemma {:induction false} MmapStepKeeps(c: Config, x: Proc, op: Op, n: nat)
    requires ProcInv(c, x) && Roomy(x, n + 1) && op.SysMmap? && Sized(c, op)
    ensures MmapStep(c, x, op).Some? ==> ProcInv(c, MmapStep(c, x, op).value) && Roomy(MmapStep(c, x, op).value, n)
  {
    if op.length != 0 && op.offset % PGSIZE == 0 && MmapStep(c, x, op).Some? {
      if op.from.None? {
        MapStepKeeps(c, x, x.held, op.addr, op.length, op.prot, op.fixed, op.populate, None, op.offset);
      } else {
        GetCounts(c, x, op.from.value);
        var (t, f) := Get(Table(x.s.refs, x.fds), op.from.value);
        if f.Some? {
          var x1 := x.(s := x.s.(refs := t.refs));
          var held := Bump(x.held, f.value);
          OthersAt(x.fds, held, f.value);
          MapStepKeeps(c, x1, held, op.addr, op.length, op.prot, op.fixed, op.populate, f, op.offset);
          var x2 := MapStep(c, x1, op.addr, op.length, op.prot, op.fixed, op.populate, f, op.offset).value;
          DropCounts(c, x2.s, x.fds, x.held, f.value);
        }
      }
    }
  }

  /** A call that changes only the memory, and the memory only within its invariant. */
  lemma {:induction false} MemoryOnly(c: Config, x: Proc, s': State, brk: nat, n: nat)
    requires ProcInv(c, x) && Roomy(x, n + 1) && brk % PGSIZE == 0
    requires Inv(c, s', Others(x.fds, x.held)) && |s'.vmrs| == |x.s.vmrs| && |s'.refs| == |x.s.refs|
    ensures ProcInv(c, x.(s := s', brk := brk)) && Roomy(x.(s := s', brk := brk), n)
  {}

  lemma {:induction false} BrkAligned(c: Config, x: Proc, addr: nat)
    requires ProcInv(c, x)
    ensures OldBrk(x) % PGSIZE == 0 && NewBrk(x, addr) % PGSIZE == 0 && NewBrk(x, addr) <= c.mmapMax
  {
    RoundUpBound(x.brkMin, c.mmapMax);
    RoundUpBound(x.brkMax, c.mmapMax);
    if x.brkMin <= addr <= x.brkMax { RoundUpBound(addr, c.mmapMax); }
  }

  lemma {:induction false} BrkStepKeeps(c: Config, x: Proc, addr: nat, n: nat)
    requires ProcInv(c, x) && Roomy(x, n + 1)
    ensures BrkStep(c, x, addr).Some? ==> ProcInv(c, BrkStep(c, x, addr).value) && Roomy(BrkStep(c, x, addr).value, n)
  {
    var others := Others(x.fds, x.held);
    var brk, page := OldBrk(x), NewBrk(x, addr);
    BrkAligned(c, x, addr);
    if brk > page {
      UnmapRangeKeeps(c, x.s, others, page / PGSIZE, (brk - page) / PGSIZE);
      UnmapRangeSizes(x.s, page / PGSIZE, (brk - page) / PGSIZE);
      MemoryOnly(c, x, UnmapRange(x.s, page / PGSIZE, (brk - page) / PGSIZE), page, n);
    } else if brk < page && BrkStep(c, x, addr).Some? {
      MmapAtKeeps(c, x.s, others, brk, page - brk, 0xFFFF_FFFF, None, 0, !c.demandPaging);
      MmapAtSizes(c, x.s, brk, page - brk, 0xFFFF_FFFF, None, 0, !c.demandPaging);
      MemoryOnly(c, x, MmapAt(c, x.s, brk, page - brk, 0xFFFF_FFFF, None, 0, !c.demandPaging).s, page, n);
    } else if brk == page {
      MemoryOnly(c, x, x.s, page, n);
    }
  }

  lemma {:induction false} RoundUpBound(a: nat, m: nat)
    requires a <= m && m % PGSIZE == 0
    ensures a <= RoundUp(a) <= m && RoundUp(a) % PGSIZE == 0
  {
    var k := (a + PGSIZE - 1) / PGSIZE;
    assert m == m / PGSIZE * PGSIZE;
    assert k <= m / PGSIZE;
  }

  lemma {:induction false} OpenKeeps(c: Config, x: Proc, hostOk: bool, n: nat)
    requires ProcInv(c, x) && Roomy(x, n + 1)
    ensures ProcInv(c, OpenStep(x, hostOk)) && Roomy(OpenStep(x, hostOk), n)
  {
    var (t, f) := GetFree(Table(x.s.refs, x.fds));
    if f.Some? {
      var others := Others(x.fds, x.held);
      OthersAt(x.fds, x.held, f.value);
      NewRef(c, x.s, others, f.value);
      var s1 := x.s.(refs := t.refs);
      OthersBump(x.fds, x.held, f.value);
      assert Inv(c, s1, Others(x.fds, Bump(x.held, f.value)));
      DropCounts(c, s1, x.fds, x.held, f.value);
      var (t', d) := Dup(t, f.value);
      if hostOk && d.Some? {
        AddFd(c, s1, x.fds, Bump(x.held, f.value), f.value, d.value);
      }
    }
  }

  /** file_dup of a slot the caller holds. */
  lemma {:induction false} AddFd(c: Config, s: State, fds: seq<Option<nat>>, held: seq<nat>, f: nat, d: nat)
    requires |held| == |s.refs| && f < |held| && held[f] > 0 && Inv(c, s, Others(fds, held)) && d < |fds|
    requires fds[d].None?
    requires held[f] + |fds| + |s.vmrs| + 3 < W32
    ensures Inv(c, s.(refs := FileIncref(s.refs, f)), Others(fds[d := Some(f)], held))
  {
    OthersAt(fds, held, f);
    TakeRef(c, s, Others(fds, held), f);
    OthersStore(fds, held, d, f);
  }

  lemma {:induction false} DupKeeps(c: Config, x: Proc, fd: int, n: nat)
    requires ProcInv(c, x) && Roomy(x, n + 1)
    ensures ProcInv(c, DupStep(x, fd)) && Roomy(DupStep(x, fd), n)
  {
    GetCounts(c, x, fd);
    var (t, f) := Get(Table(x.s.refs, x.fds), fd);
    if f.Some? {
      var s1 := x.s.(refs := t.refs);
      var (t', d) := Dup(t, f.value);
      if d.Some? {
        AddFd(c, s1, x.fds, Bump(x.held, f.value), f.value, d.value);
        DropCounts(c, s1.(refs := t'.refs), t'.fds, x.held, f.value);
      } else {
        DropCounts(c, s1, x.fds, x.held, f.value);
      }
    }
  }

  lemma {:induction false} CloseKeeps(c: Config, x: Proc, fd: int, n: nat)
    requires ProcInv(c, x) && Roomy(x, n + 1)
    ensures var t := Close(Table(x.s.refs, x.fds), fd).0; var x' := x.(s := x.s.(refs := t.refs), fds := t.fds);
            ProcInv(c, x') && Roomy(x', n)
  {
    GetCounts(c, x, fd);
    var (t1, f) := Get(Table(x.s.refs, x.fds), fd);
    if f.Some? {
      var s1 := x.s.(refs := t1.refs);
      DropCounts(c, s1, x.fds, x.held, f.value);
      var s2 := s1.(refs := FileDecref(s1.refs, f.value));
      OthersClear(x.fds, x.held, fd, f.value);
      GiveRef(c, s2, Others(x.fds, x.held), f.value);
    }
  }

  lemma {:induction false} SimpleKeeps(c: Config, x: Proc, op: Op, n: nat)
    requires ProcInv(c, x) && Roomy(x, n + 1) && (op.SysMunmap? || op.SysFault? || op.SysMprotect? || op.SysAtKfd?)
    ensures Step(c, x, op).Some? ==> ProcInv(c, Step(c, x, op).value) && Roomy(Step(c, x, op).value, n)
  {
    var others := Others(x.fds, x.held);
    match op {
      case SysMunmap(addr, length) =>
        UnmapRangeKeeps(c, x.s, others, addr / PGSIZE, Pages(length));
        UnmapRangeSizes(x.s, addr / PGSIZE, Pages(length));
      case SysFault(vaddr, prot) =>
        FaultKeeps(c, x.s, others, vaddr / PGSIZE, prot);
      case SysMprotect(addr, length, prot) =>
        ProtectRangeKeeps(c, x.s, others, addr / PGSIZE, Pages(length), prot);
        ProtectSizes(x.s, addr / PGSIZE, Pages(length), prot);
      case SysAtKfd(fd) =>
        GetCounts(c, x, fd);
    }
  }

  lemma {:induction false} ProtectSizes(s: State, p: nat, n: nat, prot: Prot)
    ensures var s' := ProtectRange(s, p, n, prot).s;
            |s'.vmrs| == |s.vmrs| && |s'.refs| == |s.refs| && s'.pt.Keys == s.pt.Keys
    decreases n
  {
    if n > 0 {
      var r := ProtectPage(s, p % 0x800_0000, prot);
      assert r.s.pt.Keys == s.pt.Keys;
      if r.status == Ok { ProtectSizes(r.s, p + 1, n - 1, prot); }
    }
  }

  /** Every call keeps the invariant of the process. */
  lemma {:induction false} StepKeeps(c: Config, x: Proc, op: Op, n: nat)
    requires ProcInv(c, x) && Roomy(x, n + 1) && Sized(c, op)
    ensures Step(c, x, op).Some? ==> ProcInv(c, Step(c, x, op).value) && Roomy(Step(c, x, op).value, n)
  {
    match op {
      case SysMmap(_, _, _, _, _, _, _) => MmapStepKeeps(c, x, op, n);
      case SysBrk(addr) => BrkStepKeeps(c, x, addr, n);
      case SysOpen(hostOk) => OpenKeeps(c, x, hostOk, n);
      case SysClose(fd) => CloseKeeps(c, x, fd, n);
      case SysDup(fd) => DupKeeps(c, x, fd, n);
      case _ => SimpleKeeps(c, x, op, n);
    }
  }

  ghost function Run(c: Config, x: Proc, ops: seq<Op>): Option<Proc>
    decreases |ops|
  {
    if ops == [] then Some(x)
    else match Step(c, x, ops[0])
         case None => None
         case Some(x') => Run(c, x', ops[1..])
  }

  /** A process starts with its memory as boot left it and no descriptors. */
  lemma {:induction false} ProcBoot(c: Config, s: State, fds: seq<Option<nat>>, held: seq<nat>, brkMin: nat)
    requires ConfigOk(c) && brkMin <= c.mmapMax && Inv(c, s, held) && forall d :: 0 <= d < |fds| ==> fds[d].None?
    ensures ProcInv(c, Proc(s, fds, held, 0, brkMin, c.mmapMax))
  {
    OthersOfNone(fds, held);
  }

  lemma {:induction false} OthersOfNone(fds: seq<Option<nat>>, held: seq<nat>)
    requires forall d :: 0 <= d < |fds| ==> fds[d].None?
    ensures Others(fds, held) == held
  {
    forall f | 0 <= f < |held| ensures Others(fds, held)[f] == held[f] { assert Naming(fds, f) == {}; }
  }

  /** In every state that calls reach a record's count is the number of not-present leaves pointing to it, a file slot's
      count is zero or one more than its references, and every present page sits in its own frame. This is about
      records that only these calls write: the page tables share their pool and must keep clear of them, which is
      what VmKernel adds. */
  lemma {:induction false} RunKeeps(c: Config, x: Proc, ops: seq<Op>)
    requires ProcInv(c, x) && Roomy(x, |ops|) && forall op :: op in ops ==> Sized(c, op)
    ensures Run(c, x, ops).Some? ==> ProcInv(c, Run(c, x, ops).value)
    decreases |ops|
  {
    if ops != [] {
      StepKeeps(c, x, ops[0], |ops| - 1);
      if Step(c, x, ops[0]).Some? { RunKeeps(c, Step(c, x, ops[0]).value, ops[1..]); }
    }
  }
}
