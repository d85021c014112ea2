/** The virtual-memory operations of pk/mmap.c on the flat page map: region records with reference counts,
    lazily populated pages, and the file references the records hold. */
module Vm {
  const PGSIZE: nat := 4096
  const W32: nat := 0x1_0000_0000
  const W64: nat := 0x1_0000_0000_0000_0000
  const DRAM_PAGE: nat := 0x8_0000           // DRAM_BASE >> RISCV_PGSHIFT

  datatype Option<T> = None | Some(value: T)

  // ---- protection bits ----

  type Prot = bv32
  const PROT_READ: Prot := 1
  const PROT_WRITE: Prot := 2
  const PROT_EXEC: Prot := 4

  datatype Flags = Flags(r: bool, w: bool, x: bool, u: bool, a: bool, d: bool)

  function Has(prot: Prot, bit: Prot): bool { prot & bit != 0 }

  /** prot_to_type: a page with no permission at all is still made readable. */
  function ProtToType(prot: Prot, user: bool): Flags {
    var r, w, x := Has(prot, PROT_READ), Has(prot, PROT_WRITE), Has(prot, PROT_EXEC);
    Flags(r || (!w && !x), w, x, user, r || x, w)
  }

  /** `(*pte & perms) == perms` */
  predicate Covers(f: Flags, g: Flags) {
    (g.r ==> f.r) && (g.w ==> f.w) && (g.x ==> f.x) && (g.u ==> f.u) && (g.a ==> f.a) && (g.d ==> f.d)
  }

  // ---- the state ----

  datatype Leaf = Empty | Lazy(v: nat) | Present(ppn: nat, f: Flags)

  datatype Vmr = Vmr(addr: nat, length: nat, file: Option<nat>, offset: nat, refcnt: nat, prot: Prot)

  type Page = seq<bv8>

  /** What boot fixes: the first page frame above the table pool, the end of user space, and the files. */
  datatype Config = Config(frame0: nat, mmapMax: nat, disk: seq<seq<bv8>>, demandPaging: bool)

  datatype State = State(pt: map<nat, Leaf>, vmrs: seq<Vmr>, refs: seq<nat>, mem: map<nat, Page>)

  function At(s: State, p: nat): Leaf { if p in s.pt then s.pt[p] else Empty }

  // ---- the operations, page by page ----

  function FileDecref(refs: seq<nat>, f: nat): seq<nat> {
    if f < |refs| then refs[f := if refs[f] == 2 then 0 else if refs[f] == 0 then W32 - 1 else refs[f] - 1] else refs
  }

  function FileIncref(refs: seq<nat>, f: nat): seq<nat> {
    if f < |refs| then refs[f := (refs[f] + 1) % W32] else refs
  }

  /** __vmr_decref(v, 1) */
  function VmrDecref(s: State, v: nat): State
    requires v < |s.vmrs|
  {
    var r := s.vmrs[v];
    var n := if r.refcnt == 0 then W32 - 1 else r.refcnt - 1;
    s.(vmrs := s.vmrs[v := r.(refcnt := n)],
       refs := if n == 0 && r.file.Some? then FileDecref(s.refs, r.file.value) else s.refs)
  }

  /** The record a not-present leaf points to; every lazy leaf of a reachable state points into the table. */
  predicate IsLazy(s: State, p: nat) { At(s, p).Lazy? && At(s, p).v < |s.vmrs| }

  /** One iteration of __do_munmap. */
  function UnmapPage(s: State, p: nat): State {
    var s' := if IsLazy(s, p) then VmrDecref(s, At(s, p).v) else s;
    s'.(pt := s'.pt - {p})
  }

  /** One iteration of the mapping loop of __do_mmap. */
  function MapPage(s: State, p: nat, v: nat): State {
    var s' := UnmapPage(s, p);
    s'.(pt := s'.pt[p := Lazy(v)])
  }

  /** __do_munmap over n pages. */
  function UnmapRange(s: State, p: nat, n: nat): State
    decreases n
  {
    if n == 0 then s else UnmapRange(UnmapPage(s, p), p + 1, n - 1)
  }

  /** The mapping loop of __do_mmap over n pages. */
  function MapRange(s: State, p: nat, n: nat, v: nat): State
    decreases n
  {
    if n == 0 then s else MapRange(MapPage(s, p, v), p + 1, n - 1, v)
  }

  /** __vmr_alloc: the first record with a zero count, at or above i. */
  function FirstFree(vmrs: seq<Vmr>, i: nat): (v: nat)
    requires i <= |vmrs|
    ensures i <= v <= |vmrs| && (v < |vmrs| ==> vmrs[v].refcnt == 0)
    ensures forall k :: i <= k < v ==> vmrs[k].refcnt != 0
    decreases |vmrs| - i
  {
    if i == |vmrs| || vmrs[i].refcnt == 0 then i else FirstFree(vmrs, i + 1)
  }

  function VmrAlloc(s: State, r: Vmr): (o: Option<(State, nat)>) {
    var v := FirstFree(s.vmrs, 0);
    if v == |s.vmrs| then None
    else Some((s.(vmrs := s.vmrs[v := r],
                  refs := if r.file.Some? then FileIncref(s.refs, r.file.value) else s.refs), v))
  }

  /** `(length-1)/RISCV_PGSIZE+1` in 64-bit arithmetic, and the pages the loops visit. */
  function NPage(length: nat): nat { ((length + W64 - 1) % W64) / PGSIZE + 1 }
  function Pages(length: nat): nat { (length + PGSIZE - 1) / PGSIZE }

  // ---- faults ----

  function Zeros(n: nat): Page { seq(n, _ => 0) }

  /** file_pread of n bytes at an offset: what the file has there. */
  function Pread(disk: seq<seq<bv8>>, f: nat, n: nat, off: nat): Page {
    if f < |disk| && off < |disk[f]| then disk[f][off..(if off + n < |disk[f]| then off + n else |disk[f]|)] else []
  }

  /** The bytes a fault puts into page p of record r, or nothing when pread returns nothing (a failed kassert). */
  function Content(c: Config, r: Vmr, p: nat): Option<Page>
    requires r.addr <= p * PGSIZE < r.addr + r.length
  {
    if r.file.None? then Some(Zeros(PGSIZE))
    else
      var off := p * PGSIZE - r.addr;
      var flen := if PGSIZE < r.length - off then PGSIZE else r.length - off;
      var data := Pread(c.disk, r.file.value, flen, off + r.offset);
      if |data| == 0 then None else Some(data + Zeros(PGSIZE - |data|))
  }

  datatype FaultResult = Panic | Fault(s: State, ok: bool)

  /** __handle_page_fault for the page p. */
  function PageFault(c: Config, s: State, p: nat, prot: Prot): FaultResult {
    var leaf := At(s, p);
    if leaf.Empty? || p * PGSIZE + 1 > c.mmapMax then Fault(s, false)
    else if IsLazy(s, p) then
      var r := s.vmrs[leaf.v];
      if !(r.addr <= p * PGSIZE < r.addr + r.length) || Content(c, r, p).None? then Panic
      else
        var s' := VmrDecref(s, leaf.v);
        var f := ProtToType(r.prot, true);
        Fault(s'.(pt := s'.pt[p := Present(p + c.frame0, f)], mem := s'.mem[p := Content(c, r, p).value]),
              Covers(f, ProtToType(prot, true)))
    else Fault(s, leaf.Present? && Covers(leaf.f, ProtToType(prot, true)))
  }

  /** The populate loop of __do_mmap; a fault that does not succeed is a failed kassert. */
  function Populate(c: Config, s: State, p: nat, n: nat, prot: Prot): Option<State>
    decreases n
  {
    if n == 0 then Some(s)
    else
      match PageFault(c, s, p, prot)
      case Panic => None
      case Fault(s', ok) => if ok then Populate(c, s', p + 1, n - 1, prot) else None
  }

  // ---- mprotect ----

  datatype Status = Ok | NoMem | Access | Invalid

  datatype ProtectResult = Protected(s: State, status: Status)

  /** Some bit of the new protection is not in the old one. */
  predicate Widens(was: Prot, prot: Prot) { (was ^ prot) & !was != 0 }

  /** One iteration of the do_mprotect loop. An unfaulted page changes its whole record. */
  function ProtectPage(s: State, p: nat, prot: Prot): ProtectResult {
    var leaf := At(s, p);
    if leaf.Empty? then Protected(s, NoMem)
    else if IsLazy(s, p) then
      var r := s.vmrs[leaf.v];
      if Widens(r.prot, prot) then Protected(s, Access)
      else Protected(s.(vmrs := s.vmrs[leaf.v := r.(prot := prot)]), Ok)
    else if leaf.Present? then
      if !leaf.f.u || (Has(prot, PROT_READ) && !leaf.f.r) || (Has(prot, PROT_WRITE) && !leaf.f.w) ||
        (Has(prot, PROT_EXEC) && !leaf.f.x)
      then Protected(s, Access)
      else Protected(s.(pt := s.pt[p := Present(leaf.ppn, ProtToType(prot, true))]), Ok)
    else Protected(s, Access)
  }

  /** do_mprotect over n pages, stopping at the first error; a page number is cut to the 27 bits the walk looks at. */
  function ProtectRange(s: State, p: nat, n: nat, prot: Prot): ProtectResult
    decreases n
  {
    if n == 0 then Protected(s, Ok)
    else
      var r := ProtectPage(s, p % 0x800_0000, prot);
      if r.status != Ok then r else ProtectRange(r.s, p + 1, n - 1, prot)
  }

  // ---- the invariant ----

  /** The not-present leaves that point to record v. */
  ghost function Users(pt: map<nat, Leaf>, v: nat): set<nat> {
    set p | p in pt && pt[p] == Lazy(v)
  }

  /** The records in use that name file f. */
  ghost function Holders(vmrs: seq<Vmr>, f: nat): set<nat> {
    set v | 0 <= v < |vmrs| && vmrs[v].refcnt > 0 && vmrs[v].file == Some(f)
  }

  ghost predicate Covered(r: Vmr, p: nat) {
    r.addr % PGSIZE == 0 && r.addr <= p * PGSIZE < r.addr + r.length
  }

  /** Every leaf is well formed: a lazy one lies in its record's range, a present user page sits in its own
      frame above the pool, and a kernel page is mapped to itself. */
  ghost predicate LeafOk(c: Config, s: State, p: nat)
    requires p in s.pt
  {
    match s.pt[p]
    case Empty => false
    case Lazy(v) => v < |s.vmrs| && Covered(s.vmrs[v], p) && p * PGSIZE < c.mmapMax
    case Present(ppn, f) =>
      if p < DRAM_PAGE then p * PGSIZE < c.mmapMax && ppn == p + c.frame0 && f.u else ppn == p && !f.u
  }

  ghost predicate Leaves(c: Config, s: State) {
    forall p :: p in s.pt ==> LeafOk(c, s, p)
  }

  /** Record v is referenced by its not-present leaves and, if it is record w, by `owed` more about to be written. */
  ghost predicate Counted(s: State, v: nat, w: int, owed: nat)
    requires v < |s.vmrs|
  {
    s.vmrs[v].refcnt == |Users(s.pt, v)| + (if v == w then owed else 0)
  }

  ghost predicate Counts(s: State, w: int, owed: nat) {
    forall v :: 0 <= v < |s.vmrs| ==> Counted(s, v, w, owed)
  }

  /** A file slot's count is 0 without references and one more than the references otherwise;
      others[f] are the references held outside the records. */
  ghost predicate FileCounted(s: State, others: seq<nat>, f: nat)
    requires f < |s.refs| && |others| == |s.refs|
  {
    var k := |Holders(s.vmrs, f)| + others[f];
    s.refs[f] == if k == 0 then 0 else k + 1
  }

  ghost predicate FilesOk(s: State, others: seq<nat>) {
    && |others| == |s.refs|
    && (forall f :: 0 <= f < |others| ==> others[f] + |s.vmrs| + 2 < W32)      // no slot count wraps
    && (forall v :: 0 <= v < |s.vmrs| && s.vmrs[v].refcnt > 0 && s.vmrs[v].file.Some? ==>
        s.vmrs[v].file.value < |s.refs|)
    && (forall f :: 0 <= f < |s.refs| ==> FileCounted(s, others, f))
  }

  ghost predicate Pending(c: Config, s: State, others: seq<nat>, w: int, owed: nat) {
    Leaves(c, s) && Counts(s, w, owed) && FilesOk(s, others)
  }

  ghost predicate Inv(c: Config, s: State, others: seq<nat>) {
    Pending(c, s, others, -1, 0)
  }

  // ---- counting ----

  lemma {:induction false} UsersWithout(pt: map<nat, Leaf>, p: nat, v: nat)
    ensures Users(pt - {p}, v) == Users(pt, v) - {p}
    ensures p in pt && pt[p] == Lazy(v) ==> |Users(pt - {p}, v)| == |Users(pt, v)| - 1
    ensures !(p in pt && pt[p] == Lazy(v)) ==> Users(pt - {p}, v) == Users(pt, v)
  {
    assert Users(pt - {p}, v) == Users(pt, v) - {p};
    if p in pt && pt[p] == Lazy(v) { assert p in Users(pt, v); }
  }

  lemma {:induction false} UsersWith(pt: map<nat, Leaf>, p: nat, leaf: Leaf, v: nat)
    requires p !in pt
    ensures leaf == Lazy(v) ==> |Users(pt[p := leaf], v)| == |Users(pt, v)| + 1
    ensures leaf != Lazy(v) ==> Users(pt[p := leaf], v) == Users(pt, v)
  {
    if leaf == Lazy(v) {
      assert Users(pt[p := leaf], v) == Users(pt, v) + {p};
    } else {
      assert Users(pt[p := leaf], v) == Users(pt, v);
    }
  }

  /** A leaf that leaves the lazy state of v without another leaf entering it. */
  lemma {:induction false} UsersReplaced(pt: map<nat, Leaf>, p: nat, leaf: Leaf, v: nat)
    requires p in pt && !leaf.Lazy?
    ensures Users(pt[p := leaf], v) == Users(pt - {p}, v)
  {}

  lemma {:induction false} HoldersWithout(vmrs: seq<Vmr>, v: nat, r: Vmr, f: nat)
    requires v < |vmrs| && vmrs[v].refcnt > 0 && r.refcnt == 0
    ensures vmrs[v].file == Some(f) ==> |Holders(vmrs[v := r], f)| == |Holders(vmrs, f)| - 1
    ensures vmrs[v].file != Some(f) ==> Holders(vmrs[v := r], f) == Holders(vmrs, f)
  {
    if vmrs[v].file == Some(f) {
      assert v in Holders(vmrs, f);
      assert Holders(vmrs[v := r], f) == Holders(vmrs, f) - {v};
    } else {
      assert Holders(vmrs[v := r], f) == Holders(vmrs, f);
    }
  }

  lemma {:induction false} HoldersWith(vmrs: seq<Vmr>, v: nat, r: Vmr, f: nat)
    requires v < |vmrs| && vmrs[v].refcnt == 0 && r.refcnt > 0
    ensures r.file == Some(f) ==> |Holders(vmrs[v := r], f)| == |Holders(vmrs, f)| + 1
    ensures r.file != Some(f) ==> Holders(vmrs[v := r], f) == Holders(vmrs, f)
  {
    if r.file == Some(f) {
      assert Holders(vmrs[v := r], f) == Holders(vmrs, f) + {v};
    } else {
      assert Holders(vmrs[v := r], f) == Holders(vmrs, f);
    }
  }

  lemma {:induction false} HoldersSame(vmrs: seq<Vmr>, v: nat, r: Vmr, f: nat)
    requires v < |vmrs| && (vmrs[v].refcnt > 0 <==> r.refcnt > 0) && r.file == vmrs[v].file
    ensures Holders(vmrs[v := r], f) == Holders(vmrs, f)
  {}

  // ---- one page leaves its lazy state ----

  /** Dropping one reference of a live record keeps the file counts: the file loses its reference exactly when
      the record dies. */
  lemma {:induction false} DecrefKeepsFiles(s: State, others: seq<nat>, v: nat)
    requires FilesOk(s, others) && v < |s.vmrs| && s.vmrs[v].refcnt > 0
    ensures FilesOk(VmrDecref(s, v), others)
  {
    var r := s.vmrs[v];
    var s' := VmrDecref(s, v);
    var r' := s'.vmrs[v];
    forall f | 0 <= f < |s'.refs|
      ensures FileCounted(s', others, f)
    {
      assert FileCounted(s, others, f);
      if r'.refcnt == 0 { HoldersWithout(s.vmrs, v, r', f); } else { HoldersSame(s.vmrs, v, r', f); }
      if r.file == Some(f) { assert v in Holders(s.vmrs, f); }
    }
  }

  /** Removing a leaf, with its reference if it was lazy, keeps the invariant; `owed` references to w stay owed. */
  lemma {:induction false} UnmapPageKeeps(c: Config, s: State, others: seq<nat>, w: int, owed: nat, p: nat)
    requires Pending(c, s, others, w, owed)
    ensures Pending(c, UnmapPage(s, p), others, w, owed)
  {
    assert p in s.pt ==> LeafOk(c, s, p);
    var leaf := At(s, p);
    var s' := UnmapPage(s, p);
    if leaf.Lazy? {
      assert Counted(s, leaf.v, w, owed);
      assert p in Users(s.pt, leaf.v);
      DecrefKeepsFiles(s, others, leaf.v);
    }
    FilesOnly(VmrDecrefOrSame(s, p), s', others);
    forall v | 0 <= v < |s'.vmrs|
      ensures Counted(s', v, w, owed)
    {
      assert Counted(s, v, w, owed);
      UsersWithout(s.pt, p, v);
    }
    forall q | q in s'.pt
      ensures LeafOk(c, s', q)
    {
      assert LeafOk(c, s, q);
    }
  }

  ghost function VmrDecrefOrSame(s: State, p: nat): State {
    if IsLazy(s, p) then VmrDecref(s, At(s, p).v) else s
  }

  lemma {:induction false} FilesOnly(s: State, s': State, others: seq<nat>)
    requires FilesOk(s, others) && s'.vmrs == s.vmrs && s'.refs == s.refs
    ensures FilesOk(s', others)
  {
    forall f | 0 <= f < |s'.refs| ensures FileCounted(s', others, f) { assert FileCounted(s, others, f); }
  }

  /** Writing an owed reference into a leaf pays it off. */
  lemma {:induction false} MapPageKeeps(c: Config, s: State, others: seq<nat>, v: nat, owed: nat, p: nat)
    requires Pending(c, s, others, v, owed) && owed > 0 && v < |s.vmrs|
    requires Covered(s.vmrs[v], p) && p * PGSIZE < c.mmapMax
    ensures Pending(c, MapPage(s, p, v), others, v, owed - 1)
  {
    UnmapPageKeeps(c, s, others, v, owed, p);
    var s1 := UnmapPage(s, p);
    var s' := MapPage(s, p, v);
    FilesOnly(s1, s', others);
    var left := owed - 1;
    forall x | 0 <= x < |s'.vmrs|
      ensures Counted(s', x, v, left)
    {
      assert Counted(s1, x, v, owed);
      UsersWith(s1.pt, p, Lazy(v), x);
    }
    forall q | q in s'.pt
      ensures LeafOk(c, s', q)
    {
      if q != p { assert LeafOk(c, s1, q); }
    }
  }

  // ---- whole operations ----

  lemma {:induction false} UnmapRangeKeeps(c: Config, s: State, others: seq<nat>, p: nat, n: nat)
    requires Inv(c, s, others)
    ensures Inv(c, UnmapRange(s, p, n), others)
    decreases n
  {
    if n > 0 {
      UnmapPageKeeps(c, s, others, -1, 0, p);
      UnmapRangeKeeps(c, UnmapPage(s, p), others, p + 1, n - 1);
    }
  }

  /** The n owed references of a new record are paid by the n pages of the mapping loop. */
  lemma {:induction false} MapRangeKeeps(c: Config, s: State, others: seq<nat>, v: nat, p: nat, n: nat)
    requires v < |s.vmrs| && Pending(c, s, others, v, n)
    requires forall q :: p <= q < p + n ==> Covered(s.vmrs[v], q) && q * PGSIZE < c.mmapMax
    ensures Inv(c, MapRange(s, p, n, v), others)
    decreases n
  {
    if n == 0 {
      forall x | 0 <= x < |s.vmrs| ensures Counted(s, x, -1, 0) { assert Counted(s, x, v, 0); }
    } else {
      assert Covered(s.vmrs[v], p);
      MapPageKeeps(c, s, others, v, n, p);
      var s' := MapPage(s, p, v);
      assert s'.vmrs[v].(refcnt := 0) == s.vmrs[v].(refcnt := 0);
      forall q | p + 1 <= q < p + 1 + (n - 1)
        ensures Covered(s'.vmrs[v], q) && q * PGSIZE < c.mmapMax
      {
        assert Covered(s.vmrs[v], q);
      }
      MapRangeKeeps(c, s', others, v, p + 1, n - 1);
    }
  }

  /** __vmr_alloc never reuses a live record: no leaf points to the record it hands out. */
  lemma {:induction false} AllocIsFresh(c: Config, s: State, others: seq<nat>, r: Vmr)
    requires Inv(c, s, others) && VmrAlloc(s, r).Some?
    ensures var v := VmrAlloc(s, r).value.1; v < |s.vmrs| && Users(s.pt, v) == {}
  {
    var v := VmrAlloc(s, r).value.1;
    assert Counted(s, v, -1, 0);
  }

  lemma {:induction false} AllocKeeps(c: Config, s: State, others: seq<nat>, r: Vmr)
    requires Inv(c, s, others) && VmrAlloc(s, r).Some? && r.refcnt > 0
    requires r.file.Some? ==> r.file.value < |s.refs| && others[r.file.value] > 0
    ensures var (s', v) := VmrAlloc(s, r).value;
            v < |s'.vmrs| && s'.vmrs[v] == r && Pending(c, s', others, v, r.refcnt)
  {
    var (s', v) := VmrAlloc(s, r).value;
    AllocIsFresh(c, s, others, r);
    forall x | 0 <= x < |s'.vmrs| ensures Counted(s', x, v, r.refcnt) { assert Counted(s, x, -1, 0); }
    forall q | q in s'.pt ensures LeafOk(c, s', q) {
      assert LeafOk(c, s, q);
      assert s.pt[q] == Lazy(v) ==> q in Users(s.pt, v);
    }
    forall f | 0 <= f < |s'.refs| ensures FileCounted(s', others, f) {
      assert FileCounted(s, others, f);
      HoldersWith(s.vmrs, v, r, f);
      HoldersBound(s.vmrs, f);
    }
  }

  lemma {:induction false} HoldersBound(vmrs: seq<Vmr>, f: nat)
    ensures |Holders(vmrs, f)| <= |vmrs|
  {
    SubsetOfRange(Holders(vmrs, f), |vmrs|);
  }

  lemma {:induction false} SubsetOfRange(a: set<nat>, n: nat)
    requires forall x :: x in a ==> x < n
    ensures |a| <= n
    decreases n
  {
    if n == 0 {
      assert a == {};
    } else {
      SubsetOfRange(a - {n - 1}, n - 1);
    }
  }

  /** A fault keeps the invariant: the leaf becomes present in its own frame and gives up its reference. */
  lemma {:induction false} FaultKeeps(c: Config, s: State, others: seq<nat>, p: nat, prot: Prot)
    requires Inv(c, s, others) && c.mmapMax <= DRAM_PAGE * PGSIZE
    ensures PageFault(c, s, p, prot).Fault? ==> Inv(c, PageFault(c, s, p, prot).s, others)
  {
    if IsLazy(s, p) && PageFault(c, s, p, prot).Fault? && p * PGSIZE < c.mmapMax {
      assert LeafOk(c, s, p);
      UnmapPageKeeps(c, s, others, -1, 0, p);
      var s1, s' := UnmapPage(s, p), PageFault(c, s, p, prot).s;
      assert s'.vmrs == s1.vmrs && s'.refs == s1.refs;
      FilesOnly(s1, s', others);
      forall x | 0 <= x < |s'.vmrs| ensures Counted(s', x, -1, 0) {
        assert Counted(s1, x, -1, 0);
        UsersReplaced(s.pt, p, s'.pt[p], x);
      }
      forall q | q in s'.pt ensures LeafOk(c, s', q) {
        if q != p { assert LeafOk(c, s1, q); }
      }
    }
  }

  lemma {:induction false} PopulateKeeps(c: Config, s: State, others: seq<nat>, p: nat, n: nat, prot: Prot)
    requires Inv(c, s, others) && c.mmapMax <= DRAM_PAGE * PGSIZE
    ensures Populate(c, s, p, n, prot).Some? ==> Inv(c, Populate(c, s, p, n, prot).value, others)
    decreases n
  {
    if n > 0 && PageFault(c, s, p, prot).Fault? {
      FaultKeeps(c, s, others, p, prot);
      PopulateKeeps(c, PageFault(c, s, p, prot).s, others, p + 1, n - 1, prot);
    }
  }

  lemma {:induction false} ProtectPageKeeps(c: Config, s: State, others: seq<nat>, p: nat, prot: Prot)
    requires Inv(c, s, others)
    ensures Inv(c, ProtectPage(s, p, prot).s, others)
  {
    var s' := ProtectPage(s, p, prot).s;
    if s' != s {
      assert LeafOk(c, s, p);
      forall x | 0 <= x < |s'.vmrs| ensures Counted(s', x, -1, 0) {
        assert Counted(s, x, -1, 0);
        if At(s, p).Present? { UsersReplaced(s.pt, p, s'.pt[p], x); UsersWithout(s.pt, p, x); }
      }
      forall q | q in s'.pt ensures LeafOk(c, s', q) { assert LeafOk(c, s, q); }
      forall f | 0 <= f < |s'.refs| ensures FileCounted(s', others, f) {
        assert FileCounted(s, others, f);
        if IsLazy(s, p) { HoldersSame(s.vmrs, At(s, p).v, s'.vmrs[At(s, p).v], f); }
      }
    }
  }

  lemma {:induction false} ProtectRangeKeeps(c: Config, s: State, others: seq<nat>, p: nat, n: nat, prot: Prot)
    requires Inv(c, s, others)
    ensures Inv(c, ProtectRange(s, p, n, prot).s, others)
    decreases n
  {
    if n > 0 {
      ProtectPageKeeps(c, s, others, p % 0x800_0000, prot);
      if ProtectPage(s, p % 0x800_0000, prot).status == Ok {
        ProtectRangeKeeps(c, ProtectPage(s, p % 0x800_0000, prot).s, others, p + 1, n - 1, prot);
      }
    }
  }
}
