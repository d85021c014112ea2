/** The virtual-memory calls as mmap.c runs them: loops over one pool of words that holds the radix page table and the
    region records, and the program break. Each is shown to do what the page-level model says, and exactly as long as
    the page tables do not grow into the records. */
module VmKernel {
  import opened Vm
  import opened VmAlloc
  import opened VmRuns
  import opened PageMap
  import PT = PageTable

  /** The pages a loop `for (; a < end; a += RISCV_PGSIZE)` has still to visit. */
  function Left(a: nat, end: nat): nat { if a < end then Pages(end - a) else 0 }

  lemma {:induction false} LeftStep(a: nat, end: nat)
    requires a < end && a % PGSIZE == 0
    ensures Left(a, end) == 1 + Left(a + PGSIZE, end) && (a + PGSIZE) / PGSIZE == a / PGSIZE + 1
    ensures (a + PGSIZE) % PGSIZE == 0
  {}

  // ---- the tables a range needs ----

  ghost function Need(p: nat, n: nat): set<PT.Node>
    decreases n
  {
    if n == 0 then {} else PT.Path(p) + Need(p + 1, n - 1)
  }

  lemma {:induction false} SubsetSize(a: set<PT.Node>, b: set<PT.Node>)
    requires a <= b
    ensures |a| <= |b|
  {
    assert b == a + (b - a);
  }

  lemma {:induction false} UnionSize(have: set<PT.Node>, need: set<PT.Node>)
    ensures |have + need| == |have| + |need - have|
  {
    assert have + need == have + (need - have);
  }

  /** The tables so far, have, and those still needed make up all that are needed; one page of the pool per table. */
  ghost predicate Ledger(have0: set<PT.Node>, next0: nat, need: set<PT.Node>, have: set<PT.Node>, next: int,
                         left: set<PT.Node>) {
    have + left == have0 + need && next - |have| == next0 - |have0|
  }

  lemma {:induction false} LedgerStep(have0: set<PT.Node>, next0: nat, need: set<PT.Node>, have: set<PT.Node>,
                                      next: nat, p: nat, n: nat, limit: nat)
    requires n > 0 && Ledger(have0, next0, need, have, next, Need(p, n))
    ensures var next' := next + |have + PT.Path(p)| - |have|;
            && Ledger(have0, next0, need, have + PT.Path(p), next', Need(p + 1, n - 1))
            && (next' > limit ==> next0 + |need - have0| > limit)
  {
    var have' := have + PT.Path(p);
    assert have' + Need(p + 1, n - 1) == have + Need(p, n);
    SubsetSize(have', have0 + need);
    UnionSize(have0, need);
  }

  lemma {:induction false} LedgerDone(have0: set<PT.Node>, next0: nat, need: set<PT.Node>, have: set<PT.Node>,
                                      next: nat)
    requires Ledger(have0, next0, need, have, next, {})
    ensures next == next0 + |need - have0|
  {
    UnionSize(have0, need);
    assert have == have0 + need;
  }

  /** The tables that n pages from p on lack. */
  ghost function Lacking(node: map<nat, PT.Node>, p: nat, n: nat): nat { |Need(p, n) - PT.Have(node)| }

  /** A mapping loop over n0 pages from p0 on has n pages left, from p on. The ledger behind it is looked up by its
      key. */
  ghost predicate Booked(node0: map<nat, PT.Node>, next0: nat, p0: nat, n0: nat, node: map<nat, PT.Node>, next: nat,
                         p: nat, n: nat) {
    forall u: nat {:trigger BookedKey(next, p, n, u)} :: BookedKey(next, p, n, u) ==>
      Ledger(PT.Have(node0), next0, Need(p0, n0), PT.Have(node), next, Need(p, n))
  }

  ghost predicate BookedKey(next: nat, p: nat, n: nat, u: nat) { u == u }

  lemma {:induction false} BookedStart(node: map<nat, PT.Node>, next: nat, p: nat, n: nat)
    ensures Booked(node, next, p, n, node, next, p, n)
  {}

  lemma {:induction false} BookedHit(node0: map<nat, PT.Node>, next0: nat, p0: nat, n0: nat, node: map<nat, PT.Node>,
                                     next: nat, p: nat, n: nat, limit: nat)
    requires n > 0 && Booked(node0, next0, p0, n0, node, next, p, n) && next + PT.Missing(node, p) > limit
    ensures next0 + Lacking(node0, p0, n0) > limit
  {
    assert BookedKey(next, p, n, 0);
    PT.MissingIs(node, p);
    LedgerStep(PT.Have(node0), next0, Need(p0, n0), PT.Have(node), next, p, n, limit);
  }

  lemma {:induction false} BookedStep(node0: map<nat, PT.Node>, next0: nat, p0: nat, n0: nat, node: map<nat, PT.Node>,
                                      next: nat, p: nat, n: nat, node': map<nat, PT.Node>, next': nat)
    requires n > 0 && Booked(node0, next0, p0, n0, node, next, p, n)
    requires PT.Grown(node, next, p, node', next') && next' == next + PT.Missing(node, p)
    ensures Booked(node0, next0, p0, n0, node', next', p + 1, n - 1)
  {
    assert BookedKey(next, p, n, 0);
    PT.MissingIs(node, p);
    PT.GrownMeans(node, next, p, node', next');
    LedgerStep(PT.Have(node0), next0, Need(p0, n0), PT.Have(node), next, p, n, 0);
  }

  lemma {:induction false} BookedDone(node0: map<nat, PT.Node>, next0: nat, p0: nat, n0: nat, node: map<nat, PT.Node>,
                                      next: nat, p: nat)
    requires Booked(node0, next0, p0, n0, node, next, p, 0)
    ensures next == next0 + Lacking(node0, p0, n0) && Charged(node0, next0, Need(p0, n0), node, next)
  {
    assert BookedKey(next, p, 0, 0);
    assert PT.Have(node) + Need(p, 0) == PT.Have(node);
    LedgerDone(PT.Have(node0), next0, Need(p0, n0), PT.Have(node), next);
  }

  /** The tables of `need` have been added, one page of the pool for each that was not there. Looked up by its key. */
  ghost predicate Charged(node0: map<nat, PT.Node>, next0: nat, need: set<PT.Node>, node: map<nat, PT.Node>,
                          next: nat) {
    forall u: nat {:trigger ChargedKey(next0, next, u)} :: ChargedKey(next0, next, u) ==>
      PT.Have(node) == PT.Have(node0) + need && next - |PT.Have(node)| == next0 - |PT.Have(node0)|
  }

  ghost predicate ChargedKey(next0: nat, next: nat, u: nat) { u == u }

  lemma {:induction false} ChargedNone(node: map<nat, PT.Node>, next: nat)
    ensures Charged(node, next, {}, node, next)
  {
    assert PT.Have(node) + {} == PT.Have(node);
  }

  /** The tables that k pages from p on lack fit below the records at page 100 n, or, if those are not there yet, below
      where they go now. Looked up by its key. */
  ghost predicate Room(ready: bool, n: nat, next: nat, free: nat, node: map<nat, PT.Node>, p: nat, k: nat) {
    forall u: nat {:trigger RoomKey(ready, n, p, k, u)} :: RoomKey(ready, n, p, k, u) ==>
      if ready then next + Lacking(node, p, k) <= 100 * n
      else 2 <= next && 100 * next + 100 <= free && next + 100 + Lacking(node, p, k) <= 100 * next
  }

  ghost predicate RoomKey(ready: bool, n: nat, p: nat, k: nat, u: nat) { u == u }

  lemma {:induction false} RoomReady(n: nat, next: nat, free: nat, node: map<nat, PT.Node>, p: nat, k: nat)
    ensures Room(true, n, next, free, node, p, k) <==> next + Lacking(node, p, k) <= 100 * n
  {
    assert RoomKey(true, n, p, k, 0);
  }

  lemma {:induction false} RoomFirst(n: nat, next: nat, free: nat, node: map<nat, PT.Node>, p: nat, k: nat)
    ensures Room(false, n, next, free, node, p, k) <==>
            2 <= next && 100 * next + 100 <= free && Room(true, next, next + 100, free, node, p, k)
  {
    assert RoomKey(false, n, p, k, 0) && RoomKey(true, next, p, k, 0);
  }

  /** A call of the mapping loop: the state, tables and allocator it starts with, and its pages and record. */
  datatype Work = Work(s: State, node: map<nat, PT.Node>, next: nat, p: nat, n: nat, v: nat)

  /** The loop has n pages left, from p on: mapping them now is mapping all of them from the start. */
  ghost predicate Going(w: Work, s: State, node: map<nat, PT.Node>, next: nat, p: nat, n: nat) {
    forall u: nat {:trigger GoingKey(w, p, n, u)} :: GoingKey(w, p, n, u) ==>
      MapRange(s, p, n, w.v) == MapRange(w.s, w.p, w.n, w.v) && Booked(w.node, w.next, w.p, w.n, node, next, p, n)
  }

  ghost predicate GoingKey(w: Work, p: nat, n: nat, u: nat) { u == u }

  lemma {:induction false} GoingStart(w: Work)
    ensures Going(w, w.s, w.node, w.next, w.p, w.n)
  {
    BookedStart(w.node, w.next, w.p, w.n);
  }

  lemma {:induction false} GoingHit(w: Work, s: State, node: map<nat, PT.Node>, next: nat, p: nat, n: nat, limit: nat)
    requires n > 0 && Going(w, s, node, next, p, n) && next + PT.Missing(node, p) > limit
    ensures w.next + Lacking(w.node, w.p, w.n) > limit
  {
    assert GoingKey(w, p, n, 0);
    BookedHit(w.node, w.next, w.p, w.n, node, next, p, n, limit);
  }

  lemma {:induction false} GoingStep(w: Work, s: State, node: map<nat, PT.Node>, next: nat, p: nat, n: nat, s': State,
                                     node': map<nat, PT.Node>, next': nat)
    requires n > 0 && Going(w, s, node, next, p, n) && s' == MapPage(s, p, w.v)
    requires PT.Grown(node, next, p, node', next') && next' == next + PT.Missing(node, p)
    ensures Going(w, s', node', next', p + 1, n - 1)
  {
    assert GoingKey(w, p, n, 0);
    BookedStep(w.node, w.next, w.p, w.n, node, next, p, n, node', next');
  }

  lemma {:induction false} GoingDone(w: Work, s: State, node: map<nat, PT.Node>, next: nat, p: nat, n: nat, free: nat)
    requires Going(w, s, node, next, p, 0) && next <= 100 * n
    ensures s == MapRange(w.s, w.p, w.n, w.v) && Room(true, n, w.next, free, w.node, w.p, w.n)
    ensures Charged(w.node, w.next, Need(w.p, w.n), node, next)
  {
    assert GoingKey(w, p, 0, 0);
    BookedDone(w.node, w.next, w.p, w.n, node, next, p);
    RoomReady(n, w.next, free, w.node, w.p, w.n);
  }

  /** How a call can end: the source's kasserts stop the machine. */
  datatype Outcome =
    | Address(a: nat)
    | Failed
    | Panicked
    | Overrun          // the page tables and the records share a page: nothing is known of either
    | Outside          // the search leaves user space: what is mapped there is not modelled

  function AddressOf(a: Option<nat>): Option<Outcome> { if a.Some? then Some(Address(a.value)) else None }

  lemma {:induction false} NPageRange(length: nat)
    ensures 1 <= NPage(length) <= TOP
    ensures 0 < length < W64 ==> length <= NPage(length) * PGSIZE
  {
    var l := (length + W64 - 1) % W64;
    assert l / PGSIZE < TOP;
    if 0 < length < W64 { assert l == length - 1; }
  }

  function KernelLeaf(s: State, p: nat, n: nat, frame: nat, prot: Prot, q: nat): Leaf {
    if p <= q < p + n then Present(q - p + frame, ProtToType(prot, false)) else At(s, q)
  }

  /** The first i pages of a range are mapped. */
  function Laid(s: State, p: nat, i: nat, frame: nat, prot: Prot): State
    decreases i
  {
    if i == 0 then s
    else
      var s' := Laid(s, p, i - 1, frame, prot);
      s'.(pt := s'.pt[p + i - 1 := Present(frame + i - 1, ProtToType(prot, false))])
  }

  lemma {:induction false} LaidMeans(s: State, p: nat, i: nat, frame: nat, prot: Prot)
    ensures var s' := Laid(s, p, i, frame, prot);
            s' == s.(pt := s'.pt) && forall q: nat :: At(s', q) == KernelLeaf(s, p, i, frame, prot, q)
    decreases i
  {
    if i > 0 {
      LaidMeans(s, p, i - 1, frame, prot);
      var t, s' := Laid(s, p, i - 1, frame, prot), Laid(s, p, i, frame, prot);
      forall q: nat ensures At(s', q) == KernelLeaf(s, p, i, frame, prot, q) {
        assert At(t, q) == KernelLeaf(s, p, i - 1, frame, prot, q);
      }
    }
  }

  /** The range is mapped up to page q, with n pages left, and the tables are booked; looked up by the key. */
  ghost predicate Laying(w: Work, frame: nat, prot: Prot, q: nat, n: nat, s: State, node: map<nat, PT.Node>,
                         next: nat) {
    forall u: nat {:trigger LayingKey(w, q, n, u)} :: LayingKey(w, q, n, u) ==>
      && w.p <= q && q + n == w.p + w.n && LaidTo(w, frame, prot, q, s)
      && Booked(w.node, w.next, w.p, w.n, node, next, q, n)
  }

  ghost predicate LayingKey(w: Work, q: nat, n: nat, u: nat) { u == u }

  ghost predicate LaidTo(w: Work, frame: nat, prot: Prot, q: nat, s: State) {
    forall u: nat {:trigger LaidToKey(w, q, u)} :: LaidToKey(w, q, u) ==>
      w.p <= q && s == Laid(w.s, w.p, q - w.p, frame, prot)
  }

  ghost predicate LaidToKey(w: Work, q: nat, u: nat) { u == u }

  lemma {:induction false} LaidToStep(w: Work, frame: nat, prot: Prot, q: nat, s: State, s': State)
    requires w.p <= q && LaidTo(w, frame, prot, q, s)
    requires s' == s.(pt := s.pt[q := Present(q - w.p + frame, ProtToType(prot, false))])
    ensures LaidTo(w, frame, prot, q + 1, s')
  {
    assert LaidToKey(w, q, 0);
    var i := q - w.p;
    assert Laid(w.s, w.p, i + 1, frame, prot) == s' && q + 1 - w.p == i + 1;
  }

  lemma {:induction false} LayingStart(w: Work, frame: nat, prot: Prot)
    ensures Laying(w, frame, prot, w.p, w.n, w.s, w.node, w.next)
  {
    BookedStart(w.node, w.next, w.p, w.n);
  }

  lemma {:induction false} LayingHit(w: Work, frame: nat, prot: Prot, q: nat, n: nat, s: State,
                                     node: map<nat, PT.Node>, next: nat, limit: nat)
    requires n > 0 && Laying(w, frame, prot, q, n, s, node, next) && next + PT.Missing(node, q) > limit
    ensures w.next + Lacking(w.node, w.p, w.n) > limit
  {
    assert LayingKey(w, q, n, 0);
    BookedHit(w.node, w.next, w.p, w.n, node, next, q, n, limit);
  }

  lemma {:induction false} LayingStep(w: Work, frame: nat, prot: Prot, q: nat, n: nat, s: State,
                                      node: map<nat, PT.Node>, next: nat, s': State, node': map<nat, PT.Node>,
                                      next': nat)
    requires n > 0 && w.p <= q && Laying(w, frame, prot, q, n, s, node, next)
    requires s' == s.(pt := s.pt[q := Present(q - w.p + frame, ProtToType(prot, false))])
    requires PT.Grown(node, next, q, node', next') && next' == next + PT.Missing(node, q)
    ensures Laying(w, frame, prot, q + 1, n - 1, s', node', next')
  {
    assert LayingKey(w, q, n, 0);
    LaidToStep(w, frame, prot, q, s, s');
    BookedStep(w.node, w.next, w.p, w.n, node, next, q, n, node', next');
  }

  lemma {:induction false} LayingDone(w: Work, frame: nat, prot: Prot, q: nat, s: State, node: map<nat, PT.Node>,
                                      next: nat)
    requires Laying(w, frame, prot, q, 0, s, node, next)
    ensures s == w.s.(pt := s.pt) && forall p: nat :: At(s, p) == KernelLeaf(w.s, w.p, w.n, frame, prot, p)
    ensures next == w.next + Lacking(w.node, w.p, w.n) && Charged(w.node, w.next, Need(w.p, w.n), node, next)
  {
    assert LayingKey(w, q, 0, 0) && LaidToKey(w, q, 0);
    LaidMeans(w.s, w.p, w.n, frame, prot);
    BookedDone(w.node, w.next, w.p, w.n, node, next, q);
  }

  /** After boot, with only the identity mapping of the kernel in place, the invariant holds. */
  lemma {:induction false} BootInv(c: Config, s: State, others: seq<nat>, n: nat, prot: Prot)
    requires forall q: nat :: At(s, q) == KernelLeaf(State(map[], [], [], map[]), DRAM_PAGE, n, DRAM_PAGE, prot, q)
    requires (forall q :: q in s.pt ==> s.pt[q] != Empty) && |others| == |s.refs| && |s.vmrs| + 2 < W32
    requires forall v :: 0 <= v < |s.vmrs| ==> s.vmrs[v].refcnt == 0
    requires forall f :: 0 <= f < |s.refs| ==> s.refs[f] == 0 == others[f]
    ensures Inv(c, s, others)
  {
    forall p | p in s.pt ensures LeafOk(c, s, p) && s.pt[p].Present? { assert At(s, p) == s.pt[p]; }
    forall v | 0 <= v < |s.vmrs| ensures Counted(s, v, -1, 0) { assert Users(s.pt, v) == {}; }
    forall f | 0 <= f < |s.refs| ensures FileCounted(s, others, f) { assert Holders(s.vmrs, f) == {}; }
  }

  /** The bytes for page p of a record; a page outside the record cannot occur in a reachable state. */
  function PageBytes(c: Config, r: Vmr, p: nat): Option<Page> {
    if r.addr <= p * PGSIZE < r.addr + r.length then Content(c, r, p) else None
  }

  ghost function Filled(s: State, p: nat, v: nat, f: Leaf, bytes: Page): State
    requires v < |s.vmrs|
  {
    Vm.VmrDecref(s, v).(pt := s.pt[p := f], mem := s.mem[p := bytes])
  }

  /** What __do_brk does to move the end of the heap from brk to page. */
  function Moved(c: Config, s: State, brk: nat, page: nat): MapResult {
    if brk < page then MmapAt(c, s, brk, page - brk, 0xFFFF_FFFF, None, 0, !c.demandPaging)
    else Mapped(UnmapRange(s, page / PGSIZE, (brk - page) / PGSIZE))
  }

  ghost function HeapNeed(from: nat, page: nat): set<PT.Node> {
    if from < page then Need(from / PGSIZE, Pages(page - from)) else {}
  }

  lemma {:induction false} BrkStepMoves(c: Config, x: Proc, addr: nat)
    requires c.mmapMax < W64
    ensures NewBrk(x, addr) <= c.mmapMax ==>
              match Moved(c, x.s, OldBrk(x), NewBrk(x, addr))
              case Mapped(s') => BrkStep(c, x, addr) == Some(x.(s := s', brk := NewBrk(x, addr)))
              case _ => BrkStep(c, x, addr).None?
  {
    var brk, page := OldBrk(x), NewBrk(x, addr);
    if brk < page <= c.mmapMax { UserRange(c, brk, page); }
    if brk == page { assert UnmapRange(x.s, page / PGSIZE, 0) == x.s; }
  }

  lemma {:induction false} UserRange(c: Config, from: nat, to: nat)
    requires from <= to <= c.mmapMax < W64
    ensures ValidUserRange(c, from, to - from)
  {}

  /** pt is what walks see of the page map, looked up by the key. */
  ghost predicate Sees(pt: map<nat, Leaf>, flat: map<nat, Leaf>) {
    forall u: nat {:trigger SeesKey(u)} :: SeesKey(u) ==> pt == Unrolled(flat)
  }

  ghost predicate SeesKey(u: nat) { u == u }

  // ---- what an overrun does ----

  /** When the allocator hands out the first page of the records, every record in it is blank afterwards. */
  lemma {:induction false} RecordsLost(files: nat, words: seq<nat>, words': seq<nat>, first: nat, v: nat)
    requires files > 0 && PT.Cleared(words, words', first) && v < 102
    ensures RecAt(files, words', 512 * first + FIELDS * v) == BLANK
  {
    ZeroIsBlank(files, words', 512 * first + FIELDS * v);
  }

  /** So a live first record, and then all of that page are, is free again while leaves point to it: the invariant is
      broken, and __vmr_alloc hands the record out a second time. */
  lemma {:induction false} LostRecordReused(c: Config, s: State, others: seq<nat>, r: Vmr,
                                            files: nat, words: seq<nat>, words': seq<nat>, first: nat)
    requires files > 0 && PT.Cleared(words, words', first) && 512 * first + FIELDS * MAX_VMR <= |words|
    requires Inv(c, s, others) && s.vmrs == Recs(files, words, first) && s.vmrs[0].refcnt > 0
    ensures var s' := s.(vmrs := Recs(files, words', first));
            !Inv(c, s', others) && VmrAlloc(s', r).Some? && VmrAlloc(s', r).value.1 == 0 && Users(s'.pt, 0) != {}
  {
    var s' := s.(vmrs := Recs(files, words', first));
    RecordsLost(files, words, words', first, 0);
    assert s'.vmrs[0] == BLANK;
    assert Counted(s, 0, -1, 0);
    assert !Counted(s', 0, -1, 0);
  }

  /** No state whose records are read from a wrecked page satisfies the invariant while a leaf points to the first. */
  lemma {:induction false} WreckedBreaks(c: Config, s: State, others: seq<nat>, files: nat, words: seq<nat>, first: nat)
    requires files > 0 && PT.AlmostClear(words, first) && 512 * first + FIELDS * MAX_VMR <= |words|
    requires s.vmrs == Recs(files, words, first) && Users(s.pt, 0) != {}
    ensures !Inv(c, s, others)
  {
    var x := WreckedRecords(files, words, first);
    assert s.vmrs[0] == RecAt(files, words, 512 * first);
    var p :| p in Users(s.pt, 0);
    if s.vmrs[0].refcnt == 0 { assert !Counted(s, 0, -1, 0); } else { assert !LeafOk(c, s, p); }
  }

  /** When a mapping has taken its record, the first record is live, be it that one or an earlier one. */
  lemma {:induction false} FirstIsLive(c: Config, s: State, others: seq<nat>, r: Vmr)
    requires Inv(c, s, others) && VmrAlloc(s, r).Some? && r.refcnt > 0 && r.length > 0
    ensures var s' := VmrAlloc(s, r).value.0; |s'.vmrs| > 0 && s'.vmrs[0].refcnt > 0 && s'.vmrs[0].length > 0
  {
    if s.vmrs[0].refcnt > 0 {
      assert Counted(s, 0, -1, 0);
      var p :| p in Users(s.pt, 0);
      assert LeafOk(c, s, p);
    }
  }

  /** An overrun in a call loses a live record: the first one is not what it was when the call took its own. */
  lemma {:induction false} OverrunLoses(c: Config, s: State, others: seq<nat>, r: Vmr, files: nat, words: seq<nat>,
                                        first: nat)
    requires Inv(c, s, others) && VmrAlloc(s, r).Some? && r.refcnt > 0 && r.length > 0
    requires files > 0 && PT.AlmostClear(words, first)
    ensures var s' := VmrAlloc(s, r).value.0;
            |s'.vmrs| > 0 && s'.vmrs[0].refcnt > 0 && RecAt(files, words, 512 * first) != s'.vmrs[0]
  {
    FirstIsLive(c, s, others, r);
    var x := WreckedRecords(files, words, first);
  }

  class Kernel {
    const c: Config
    const pages: Map
    var refs: seq<nat>
    var mem: map<nat, Page>
    var brk: nat
    var brkMin: nat
    var brkMax: nat

    ghost predicate Valid()
      reads this, pages, pages.table, pages.table.mem
    {
      ConfigOk(c) && pages.Valid()
    }

    ghost function View(): State
      reads this, pages
    {
      State(pages.flat, pages.vmrs, refs, mem)
    }

    constructor (c: Config, pages: Map, refs: seq<nat>, brkMin: nat)
      requires ConfigOk(c) && pages.Valid()
      ensures Valid() && this.c == c && this.pages == pages && View() == State(pages.flat, pages.vmrs, refs, map[])
      ensures brk == 0 && this.brkMin == brkMin && brkMax == c.mmapMax
    {
      this.c, this.pages, this.refs, this.mem := c, pages, refs, map[];
      this.brk, this.brkMin, this.brkMax := 0, brkMin, c.mmapMax;
    }

    // ---- records ----

    /** __vmr_decref(v, 1) */
    method VmrDecref(v: nat)
      requires Valid() && pages.ready && v < MAX_VMR
      modifies this`refs, pages`vmrs, pages.table.mem
      ensures Valid() && View() == Vm.VmrDecref(old(View()), v)
    {
      var r := pages.GetRec(v);
      var n := if r.refcnt == 0 then W32 - 1 else r.refcnt - 1;
      pages.PutRec(v, r.(refcnt := n));
      if n == 0 && r.file.Some? { refs := FileDecref(refs, r.file.value); }
    }

    /** The record pages are in place, or can be taken now. */
    ghost predicate CanRecord()
      reads pages, pages.table
    {
      pages.ready || (2 <= pages.table.nextFreePage && 100 * pages.table.nextFreePage + 100 <= pages.table.freePages)
    }

    /** __vmr_alloc; its first call takes the pages for the records. */
    method VmrAlloc(r: Vmr) returns (ok: bool, v: Option<nat>)
      requires Valid() && r.refcnt < W32
      modifies this`refs, pages`ready, pages`n, pages`vmrs, pages.table`nextFreePage, pages.table.mem
      ensures ok <==> old(CanRecord())
      ensures ok ==>
              Valid() && pages.ready && RecordsTaken(old(pages.ready), old(pages.n), old(pages.table.nextFreePage))
      ensures ok ==> match Vm.VmrAlloc(old(View()), r)
                     case None => v == None && View() == old(View())
                     case Some((s', x)) => v == Some(x) && View() == s' && x < MAX_VMR
    {
      ok, v := true, None;
      if !pages.ready { ok := pages.AllocRecords(); }
      if !ok { return; }
      var i := FindFree();
      if i < MAX_VMR {
        if r.file.Some? { refs := FileIncref(refs, r.file.value); }
        pages.PutRec(i, r);
        v := Some(i);
      }
    }

    /** The loop of __vmr_alloc */
    method FindFree() returns (i: nat)
      requires Valid() && pages.ready
      ensures i == FirstFree(View().vmrs, 0)
    {
      i := 0;
      while i < MAX_VMR
        invariant 0 <= i <= MAX_VMR && FirstFree(View().vmrs, 0) == FirstFree(View().vmrs, i)
      {
        var rec := pages.GetRec(i);
        if rec.refcnt == 0 { return; }
        i := i + 1;
      }
    }

    /** The allocator moved only if the records were not there yet. */
    ghost predicate RecordsTaken(ready: bool, n: nat, next: nat)
      reads this, pages, pages.table
    {
      if ready then pages.n == n && pages.table.nextFreePage == next
      else pages.n == next && pages.table.nextFreePage == next + 100
    }

    /** The tables that a range lacks fit below the records. */
    ghost predicate RoomFor(addr: nat, length: nat)
      reads pages, pages.table
    {
      Room(pages.ready, pages.n, pages.table.nextFreePage, pages.table.freePages, pages.table.node, addr / PGSIZE,
           Pages(length))
    }

    // ---- ranges ----

    method UnmapOne(p: nat)
      requires Valid() && p < PT.VPNS
      modifies this`refs, pages`flat, pages`vmrs, pages.table.mem
      ensures Valid() && View() == UnmapPage(old(View()), p)
    {
      var found, slot, w := pages.Load(p);
      if w != 0 {
        if !PT.Valid(w) { VmrDecref((w - pages.Base()) / RECORD); }
        pages.Store(p, slot, 0);
      }
    }

    /** __do_munmap */
    method DoMunmap(addr: nat, len: nat)
      requires Valid() && addr % PGSIZE == 0 && addr + len <= c.mmapMax
      modifies this`refs, pages`flat, pages`vmrs, pages.table.mem
      ensures Valid() && View() == UnmapRange(old(View()), addr / PGSIZE, Pages(len))
    {
      var a := addr;
      while a < addr + len
        invariant a % PGSIZE == 0 && Valid()
        invariant UnmapRange(View(), a / PGSIZE, Left(a, addr + len)) ==
                  UnmapRange(old(View()), addr / PGSIZE, Pages(len))
      {
        LeftStep(a, addr + len);
        UnmapOne(a / PGSIZE);
        a := a + PGSIZE;
      }
    }

    method MapOne(p: nat, v: nat) returns (made: Made)
      requires Valid() && p < PT.VPNS && pages.ready && v < MAX_VMR
      modifies this`refs, pages`flat, pages`vmrs, pages.table`nextFreePage, pages.table`node, pages.table.mem
      ensures made.Slot? ==> Valid() && View() == MapPage(old(View()), p, v)
      ensures made.Slot? ==>
              PT.Grown(old(pages.table.node), old(pages.table.nextFreePage), p, pages.table.node,
                       pages.table.nextFreePage)
      ensures var next := old(pages.table.nextFreePage) + old(PT.Missing(pages.table.node, p));
              if made.Slot? then next == pages.table.nextFreePage <= pages.First() else next > pages.First()
      ensures !made.Slot? ==> pages.Wrecked()
    {
      var slot, w;
      made, slot, w := pages.MakeSlot(p);
      if made.Slot? { FillSlot(p, slot, w, v); }
    }

    /** Unmap what was there and store the address of the record. */
    method FillSlot(p: nat, slot: nat, w: nat, v: nat)
      requires Valid() && p < PT.VPNS && pages.ready && v < MAX_VMR && pages.IsSlot(p, slot)
      requires (w != 0 <==> p in View().pt)
      modifies this`refs, pages`flat, pages`vmrs, pages.table.mem
      ensures Valid() && View() == MapPage(old(View()), p, v)
    {
      if w != 0 { UnmapOne(p); }
      assert View() == UnmapPage(old(View()), p);
      PutRecordAddress(p, slot, v);
    }

    /** `*pte = (pte_t)v` */
    method PutRecordAddress(p: nat, slot: nat, v: nat)
      requires Valid() && p < PT.VPNS && pages.ready && v < MAX_VMR && pages.IsSlot(p, slot)
      modifies pages`flat, pages.table.mem
      ensures Valid() && View() == old(View()).(pt := old(View()).pt[p := Lazy(v)])
    {
      var w := pages.RecordAddress(v);
      pages.Store(p, slot, w);
    }

    /** The mapping loop of __do_mmap. It maps the range exactly when the tables it lacks fit below the records;
        otherwise the first record page becomes a page table. */
    method MapLoop(addr: nat, len: nat, v: nat) returns (made: Made)
      requires Valid() && addr % PGSIZE == 0 && addr + len <= c.mmapMax && pages.ready && v < MAX_VMR
      modifies this`refs, pages`flat, pages`vmrs, pages.table`nextFreePage, pages.table`node, pages.table.mem
      ensures made.Slot? <==> old(RoomFor(addr, len))
      ensures made.Slot? ==> Valid() && View() == MapRange(old(View()), addr / PGSIZE, Pages(len), v)
      ensures made.Slot? ==>
              Charged(old(pages.table.node), old(pages.table.nextFreePage), Need(addr / PGSIZE, Pages(len)),
                      pages.table.node, pages.table.nextFreePage)
      ensures !made.Slot? ==> pages.Wrecked()
    {
      ghost var w := Work(View(), pages.table.node, pages.table.nextFreePage, addr / PGSIZE, Pages(len), v);
      GoingStart(w);
      assert Left(addr, addr + len) == Pages(len);
      var p: nat;
      made, p := MapAll(addr, addr + len, v, w);
      if made.Slot? {
        GoingDone(w, View(), pages.table.node, pages.table.nextFreePage, p, pages.n, pages.table.freePages);
      }
    }

    method MapAll(addr: nat, end: nat, v: nat, ghost w: Work) returns (made: Made, p: nat)
      requires Valid() && addr % PGSIZE == 0 && end <= c.mmapMax && pages.ready && v < MAX_VMR && w.v == v
      requires Going(w, View(), pages.table.node, pages.table.nextFreePage, addr / PGSIZE, Left(addr, end))
      modifies this`refs, pages`flat, pages`vmrs, pages.table`nextFreePage, pages.table`node, pages.table.mem
      ensures made.Slot? ==> Valid() && Going(w, View(), pages.table.node, pages.table.nextFreePage, p, 0)
      ensures !made.Slot? ==> !Room(true, pages.n, w.next, pages.table.freePages, w.node, w.p, w.n)
      ensures !made.Slot? ==> pages.Wrecked()
    {
      var a := addr;
      while a < end
        invariant a % PGSIZE == 0 && Valid()
        invariant Going(w, View(), pages.table.node, pages.table.nextFreePage, a / PGSIZE, Left(a, end))
      {
        made := MapNext(a, end, v, w);
        if !made.Slot? { return made, 0; }
        a := a + PGSIZE;
      }
      return Slot, a / PGSIZE;
    }

    /** One pass of the loop. */
    method MapNext(a: nat, end: nat, v: nat, ghost w: Work) returns (made: Made)
      requires Valid() && a % PGSIZE == 0 && a < end <= c.mmapMax && pages.ready && v < MAX_VMR && w.v == v
      requires Going(w, View(), pages.table.node, pages.table.nextFreePage, a / PGSIZE, Left(a, end))
      modifies this`refs, pages`flat, pages`vmrs, pages.table`nextFreePage, pages.table`node, pages.table.mem
      ensures made.Slot? ==> Valid() && (a + PGSIZE) % PGSIZE == 0
      ensures made.Slot? ==>
              Going(w, View(), pages.table.node, pages.table.nextFreePage, (a + PGSIZE) / PGSIZE, Left(a + PGSIZE, end))
      ensures !made.Slot? ==>
              !Room(true, pages.n, w.next, pages.table.freePages, w.node, w.p, w.n) && pages.Wrecked()
    {
      LeftStep(a, end);
      ghost var s, node, next := View(), pages.table.node, pages.table.nextFreePage;
      ghost var p, n := a / PGSIZE, Left(a, end);
      made := MapOne(a / PGSIZE, v);
      if made.Slot? {
        GoingStep(w, s, node, next, p, n, View(), pages.table.node, pages.table.nextFreePage);
      } else {
        GoingHit(w, s, node, next, p, n, pages.First());
        RoomReady(pages.n, w.next, pages.table.freePages, w.node, w.p, w.n);
      }
    }

    // ---- faults ----

    /** __handle_page_fault: None is a failed kassert. The page is made writable for the kernel while its bytes are
        loaded and gets the region's protection afterwards. */
    method HandlePageFault(vaddr: nat, prot: Prot) returns (r: Option<bool>)
      requires Valid()
      modifies this`refs, this`mem, pages`flat, pages`vmrs, pages.table.mem
      ensures Valid()
      ensures match PageFault(c, old(View()), vaddr / PGSIZE, prot)
              case Panic => r == None
              case Fault(s', ok) => r == Some(ok) && View() == s'
    {
      var p := vaddr / PGSIZE;
      var found, slot, w := pages.Load(p % PT.VPNS);
      if w == 0 || p * PGSIZE + 1 > c.mmapMax { return Some(false); }
      assert p % PT.VPNS == p;
      var f := Decode(pages.Base(), w);
      if !PT.Valid(w) {
        var v := (w - pages.Base()) / RECORD;
        f := LoadPage(p, slot, v);
        if f.Empty? { return None; }
      }
      return Some(Covers(f.f, ProtToType(prot, true)));
    }

    /** `*pte = pte_create(ppn, type)` */
    method PutPte(p: nat, slot: nat, ppn: nat, f: Flags)
      requires Valid() && p < PT.VPNS && pages.IsSlot(p, slot)
      modifies pages`flat, pages.table.mem
      ensures Valid() && View() == old(View()).(pt := old(View()).pt[p := Present(ppn, f)])
    {
      DecodePte(pages.Base(), ppn, f);
      pages.Store(p, slot, PteCreate(ppn, f));
    }

    /** Fault one lazy page in; Empty is a failed kassert. */
    method LoadPage(p: nat, slot: nat, v: nat) returns (f: Leaf)
      requires Valid() && p < PT.VPNS && pages.ready && v < MAX_VMR && At(View(), p) == Lazy(v)
      requires pages.IsSlot(p, slot)
      modifies this`refs, this`mem, pages`flat, pages`vmrs, pages.table.mem
      ensures Valid() && (f.Empty? || f.Present?)
      ensures f.Empty? <==> PageBytes(c, old(pages.vmrs[v]), p).None?
      ensures f.Present? ==> f == Present(p + c.frame0, ProtToType(old(pages.vmrs[v]).prot, true)) &&
                             View() == Filled(old(View()), p, v, f, PageBytes(c, old(pages.vmrs[v]), p).value)
    {
      PutPte(p, slot, p + c.frame0, ProtToType(PROT_READ | PROT_WRITE, false));
      var r := pages.GetRec(v);
      var bytes := PageBytes(c, r, p);
      if bytes.None? { return Empty; }
      mem := mem[p := bytes.value];
      VmrDecref(v);
      r := pages.GetRec(v);
      f := Present(p + c.frame0, ProtToType(r.prot, true));
      PutPte(p, slot, f.ppn, f.f);
    }

    /** The populate loop of __do_mmap */
    method PopulateLoop(addr: nat, len: nat, prot: Prot) returns (ok: bool)
      requires Valid() && addr % PGSIZE == 0
      modifies this`refs, this`mem, pages`flat, pages`vmrs, pages.table.mem
      ensures Valid()
      ensures match Populate(c, old(View()), addr / PGSIZE, Pages(len), prot)
              case None => !ok
              case Some(s') => ok && View() == s'
    {
      var a := addr;
      while a < addr + len
        invariant a % PGSIZE == 0 && Valid()
        invariant Populate(c, View(), a / PGSIZE, Left(a, addr + len), prot) ==
                  Populate(c, old(View()), addr / PGSIZE, Pages(len), prot)
      {
        LeftStep(a, addr + len);
        var r := HandlePageFault(a, prot);
        if r != Some(true) { return false; }
        a := a + PGSIZE;
      }
      ok := true;
    }

    /** Where the allocator has to stop. */
    ghost function Limit(): nat
      reads pages
    {
      if pages.ready then pages.First() else pages.table.freePages
    }

    /** __map_kernel_range: every page of the range is mapped at its distance from paddr; no other page changes. It
        succeeds exactly when the tables that the range lacks can be had. */
    method MapKernelRange(vaddr: nat, paddr: nat, len: nat, prot: Prot) returns (ok: bool)
      requires Valid() && vaddr % PGSIZE == 0 && vaddr / PGSIZE + Pages(len) <= PT.VPNS
      modifies pages`flat, pages.table`nextFreePage, pages.table`node, pages.table.mem
      ensures ok ==> Valid() && View() == old(View()).(pt := View().pt)
      ensures ok ==> forall q: nat ::
                At(View(), q) == KernelLeaf(old(View()), vaddr / PGSIZE, Pages(len), paddr / PGSIZE, prot, q)
      ensures ok <==> old(pages.table.nextFreePage) +
                      Lacking(old(pages.table.node), vaddr / PGSIZE, Pages(len)) <= old(Limit())
      ensures ok ==> Charged(old(pages.table.node), old(pages.table.nextFreePage), Need(vaddr / PGSIZE, Pages(len)),
                             pages.table.node, pages.table.nextFreePage)
    {
      ghost var w := Work(View(), pages.table.node, pages.table.nextFreePage, vaddr / PGSIZE, Pages(len), 0);
      LayingStart(w, paddr / PGSIZE, prot);
      ok := MapKernelPages(vaddr / PGSIZE, paddr / PGSIZE, Pages(len), prot, w);
      if ok {
        LayingDone(w, paddr / PGSIZE, prot, w.p + w.n, View(), pages.table.node, pages.table.nextFreePage);
        InLimit();
      }
    }

    method MapKernelPages(p: nat, frame: nat, n: nat, prot: Prot, ghost w: Work) returns (ok: bool)
      requires Valid() && p == w.p && n == w.n && p + n <= PT.VPNS
      requires Laying(w, frame, prot, p, n, View(), pages.table.node, pages.table.nextFreePage)
      modifies pages`flat, pages.table`nextFreePage, pages.table`node, pages.table.mem
      ensures ok ==> Valid() && Laying(w, frame, prot, p + n, 0, View(), pages.table.node, pages.table.nextFreePage)
      ensures !ok ==> w.next + Lacking(w.node, w.p, w.n) > Limit()
    {
      var q, end := p, p + n;
      ghost var left := n;
      while q < end
        invariant p <= q && q + left == end && Valid()
        invariant Laying(w, frame, prot, q, left, View(), pages.table.node, pages.table.nextFreePage)
      {
        ok := MapKernelPage(q, q - p + frame, prot, frame, left, w);
        if !ok { return; }
        q, left := q + 1, left - 1;
      }
      ok := true;
    }

    /** One pass of its loop. */
    method MapKernelPage(q: nat, ppn: nat, prot: Prot, ghost frame: nat, ghost n: nat, ghost w: Work)
      returns (ok: bool)
      requires Valid() && q < PT.VPNS && w.p <= q && ppn == q - w.p + frame && n > 0
      requires Laying(w, frame, prot, q, n, View(), pages.table.node, pages.table.nextFreePage)
      modifies pages`flat, pages.table`nextFreePage, pages.table`node, pages.table.mem
      ensures ok ==>
              Valid() && Laying(w, frame, prot, q + 1, n - 1, View(), pages.table.node, pages.table.nextFreePage)
      ensures !ok ==> w.next + Lacking(w.node, w.p, w.n) > Limit()
    {
      ghost var s, node, next := View(), pages.table.node, pages.table.nextFreePage;
      var made, slot, e := pages.MakeSlot(q);
      ok := made.Slot?;
      if !ok {
        LayingHit(w, frame, prot, q, n, s, node, next, Limit());
        return;
      }
      PutPte(q, slot, ppn, ProtToType(prot, false));
      LayingStep(w, frame, prot, q, n, s, node, next, View(), pages.table.node, pages.table.nextFreePage);
    }

    lemma {:induction false} InLimit()
      requires Valid()
      ensures pages.table.nextFreePage <= Limit()
    {}

    // ---- finding room ----

    /** __va_avail; the walk looks at the low bits of the page number. */
    method VaAvail(a: nat, ghost pt: map<nat, Leaf>) returns (avail: bool)
      requires Valid() && Sees(pt, View().pt) && a < 2 * W64
      ensures avail <==> a / PGSIZE !in pt
    {
      assert SeesKey(0);
      var found, slot, w := pages.Load(Cut(a / PGSIZE));
      avail := w == 0;
    }

    /** The inner loop of __vm_alloc: from the last page of the candidate down to one that is taken. */
    method ScanDown(first: nat, npage: nat, ghost pt: map<nat, Leaf>) returns (a: nat)
      requires Valid() && Sees(pt, View().pt)
      requires first % PGSIZE == 0 && npage >= 1 && first + npage * PGSIZE <= W64 && first / PGSIZE !in pt
      ensures first <= a < first + npage * PGSIZE && a % PGSIZE == 0
      ensures if a > first then a / PGSIZE in pt else Fits(pt, first / PGSIZE, npage)
    {
      ghost var p, p0 := first / PGSIZE + npage - 1, first / PGSIZE;
      a := first + (npage - 1) * PGSIZE;
      var avail := true;
      while a > first && avail
        invariant a == p * PGSIZE && p0 <= p < p0 + npage
        invariant forall q :: p < q < p0 + npage ==> q !in pt
        invariant !avail ==> a > first && p in pt
        decreases p, avail
      {
        avail := VaAvail(a, pt);
        if avail { a, p := a - PGSIZE, p - 1; }
      }
    }

    /** __vm_alloc: the skipping search finds what naive first fit finds. Its bound wraps for a request larger than
        user space, which is then searched for in the whole address space; `lost` when it reaches the end of that. */
    method VmAlloc(npage: nat) returns (addr: nat, lost: bool)
      requires Valid() && brk % PGSIZE == 0 && 1 <= npage <= TOP
      ensures !lost ==> addr == match Found(View().pt, brk, c.mmapMax, npage)
                                case None => 0
                                case Some(p) => p * PGSIZE
      ensures lost ==> npage * PGSIZE > c.mmapMax && Found(View().pt, brk, c.mmapMax, npage).None?
    {
      addr, lost := Search(npage, Unrolled(View().pt));
    }

    method Search(npage: nat, ghost pt: map<nat, Leaf>) returns (addr: nat, lost: bool)
      requires Valid() && Sees(pt, View().pt) && brk % PGSIZE == 0 && 1 <= npage <= TOP
      ensures var found := FirstFit(pt, brk / PGSIZE, LastStart(c.mmapMax, npage), npage);
              if lost then npage * PGSIZE > c.mmapMax && found.None?
              else addr == if found.None? then 0 else found.value * PGSIZE
    {
      ghost var last := LastStart(c.mmapMax, npage);
      EndInRangeIff(c.mmapMax, npage);
      var a: nat := brk;
      var end := (c.mmapMax - npage * PGSIZE) % W64;
      lost := false;
      while a <= end
        invariant a % PGSIZE == 0
        invariant FirstFit(pt, brk / PGSIZE, last, npage) == FirstFit(pt, a / PGSIZE, last, npage)
        decreases end - a
      {
        if a + npage * PGSIZE > W64 { return 0, true; }
        ghost var p := a / PGSIZE;
        var avail := VaAvail(a, pt);
        if avail {
          var first := a;
          a := ScanDown(first, npage, pt);
          if a == first { return a, false; }
        }
        SkipBlocked(pt, p, a / PGSIZE, last, npage);
        a := a + PGSIZE;
      }
      return 0, false;
    }

    // ---- the calls ----

    /** The process as the step model sees it, its descriptors apart. */
    ghost function P(): Proc
      reads this, pages
    {
      Proc(View(), [], [], brk, brkMin, brkMax)
    }

    /** Where the records are, or go now, and where the allocator is then. */
    ghost function RecordsAt(): nat
      reads pages, pages.table
    {
      if pages.ready then pages.n else pages.table.nextFreePage
    }

    ghost function AfterRecords(): nat
      reads pages, pages.table
    {
      if pages.ready then pages.table.nextFreePage else pages.table.nextFreePage + 100
    }

    /** The part of __do_mmap after the address is known. */
    method MapAt(addr: nat, length: nat, prot: Prot, file: Option<nat>, offset: nat, populate: bool)
      returns (r: Outcome)
      requires Valid() && addr % PGSIZE == 0 && addr + length <= c.mmapMax
      modifies this`refs, this`mem, pages, pages.table, pages.table.mem
      ensures r.Overrun? <==>
              !old(RoomFor(addr, length)) && (!old(CanRecord()) || FirstFree(old(View()).vmrs, 0) < MAX_VMR)
      ensures r.Address? ==> old(RoomFor(addr, length)) && FirstFree(old(View()).vmrs, 0) < MAX_VMR
      ensures r.Failed? ==> FirstFree(old(View()).vmrs, 0) == MAX_VMR
      ensures r.Overrun? ==> !old(RoomFor(addr, length)) && (old(CanRecord()) ==> pages.Wrecked())
      ensures !r.Overrun? ==> Valid() && pages.ready && pages.n == old(RecordsAt())
      ensures r.Address? || r.Failed? ==>
              Charged(old(pages.table.node), old(AfterRecords()),
                      if r.Address? then Need(addr / PGSIZE, Pages(length)) else {},
                      pages.table.node, pages.table.nextFreePage)
      ensures !r.Overrun? ==> match MmapAt(c, old(View()), addr, length, prot, file, offset, populate)
                              case MapPanic => r == Panicked
                              case MapFailed => r == Failed && View() == old(View())
                              case Mapped(s') => r == Address(addr) && View() == s'
    {
      var ok, v := TakeRecord(Vmr(addr, length, file, offset, NPage(length) % W32, prot));
      if !ok { return Overrun; }
      if v.None? {
        ChargedNone(pages.table.node, pages.table.nextFreePage);
        return Failed;
      }
      r := MapFrom(addr, length, prot, v.value, populate);
    }

    /** Its record, and what that leaves of the room. */
    method TakeRecord(r: Vmr) returns (ok: bool, v: Option<nat>)
      requires Valid() && r.refcnt < W32
      modifies this`refs, pages`ready, pages`n, pages`vmrs, pages.table`nextFreePage, pages.table.mem
      ensures ok <==> old(CanRecord())
      ensures ok ==> Valid() && pages.ready && pages.n == old(RecordsAt()) &&
                     pages.table.nextFreePage == old(AfterRecords())
      ensures ok ==> RoomFor(r.addr, r.length) == old(RoomFor(r.addr, r.length))
      ensures !ok ==> !old(RoomFor(r.addr, r.length))
      ensures ok ==> (v.None? <==> FirstFree(old(View()).vmrs, 0) == MAX_VMR)
      ensures ok ==> match Vm.VmrAlloc(old(View()), r)
                     case None => v == None && View() == old(View())
                     case Some((s', x)) => v == Some(x) && View() == s' && x < MAX_VMR
    {
      RoomFirst(pages.n, pages.table.nextFreePage, pages.table.freePages, pages.table.node, r.addr / PGSIZE,
                Pages(r.length));
      ok, v := VmrAlloc(r);
    }

    /** And after the record is taken. */
    method MapFrom(addr: nat, length: nat, prot: Prot, v: nat, populate: bool) returns (r: Outcome)
      requires Valid() && pages.ready && addr % PGSIZE == 0 && addr + length <= c.mmapMax && v < MAX_VMR
      modifies this`refs, this`mem, pages`flat, pages`vmrs, pages.table`nextFreePage, pages.table`node, pages.table.mem
      ensures r == Overrun || r == Panicked || r == Address(addr)
      ensures r.Overrun? <==> !old(RoomFor(addr, length))
      ensures r.Overrun? ==> pages.Wrecked()
      ensures !r.Overrun? ==> Valid()
      ensures r.Address? ==>
              Charged(old(pages.table.node), old(pages.table.nextFreePage), Need(addr / PGSIZE, Pages(length)),
                      pages.table.node, pages.table.nextFreePage)
      ensures !r.Overrun? ==>
                var s := MapRange(old(View()), addr / PGSIZE, Pages(length), v);
                if populate then
                  match Populate(c, s, addr / PGSIZE, Pages(length), prot)
                  case None => r == Panicked
                  case Some(s') => r == Address(addr) && View() == s'
                else r == Address(addr) && View() == s
    {
      var made := MapLoop(addr, length, v);
      if !made.Slot? { return Overrun; }
      if populate {
        var ok := PopulateLoop(addr, length, prot);
        if !ok { return Panicked; }
      }
      return Address(addr);
    }

    /** __do_mmap and, in do_mmap, the lowering of brk_max. */
    method DoMmap(addr: nat, length: nat, prot: Prot, fixed: bool, populate: bool, file: Option<nat>, offset: nat)
      returns (r: Outcome)
      requires Valid() && brk % PGSIZE == 0 && addr < W64 && length < W64
      modifies this`refs, this`mem, this`brkMax, pages, pages.table, pages.table.mem
      ensures r.Outside? ==> Valid() && View() == old(View()) && !fixed && NPage(length) * PGSIZE > c.mmapMax
      ensures var at := Placed(c, old(View()).pt, brk, addr, length, fixed);
              && (r.Overrun? ==> at.Some? && !old(RoomFor(at.value, length)) && (old(CanRecord()) ==> pages.Wrecked()))
              && (r.Address? ==> at == Some(r.a) && old(RoomFor(r.a, length)))
              && (r.Failed? ==> at.None? || FirstFree(old(View()).vmrs, 0) == MAX_VMR)
      ensures r.Address? || r.Overrun? ==> fixed || NPage(length) * PGSIZE <= c.mmapMax
      ensures r.Address? || (r.Overrun? && old(CanRecord())) ==> FirstFree(old(View()).vmrs, 0) < MAX_VMR
      ensures !r.Overrun? ==> Valid()
      ensures old(pages.ready) && !r.Overrun? ==> pages.ready && pages.n == old(pages.n)
      ensures old(pages.ready) && (r.Address? || r.Failed?) ==>
              Charged(old(pages.table.node), old(pages.table.nextFreePage),
                      if r.Address? then Need(r.a / PGSIZE, Pages(length)) else {},
                      pages.table.node, pages.table.nextFreePage)
      ensures !r.Overrun? && !r.Outside? ==>
                match MapStep(c, old(P()), addr, length, prot, fixed, populate, file, offset)
                case None => r == Panicked
                case Some(x') => P() == x' && r != Panicked
      ensures !r.Overrun? && !r.Outside? && !r.Panicked? ==>
                r == Failed || Some(r) == AddressOf(Placed(c, old(View()).pt, brk, addr, length, fixed))
    {
      var a := ChooseAddress(addr, length, fixed);
      if !a.Address? {
        ChargedNone(pages.table.node, pages.table.nextFreePage);
        return a;
      }
      r := MapLower(a.a, length, prot, file, offset, populate || !c.demandPaging);
    }

    /** The mapping, and the lowering of brk_max. */
    method MapLower(a: nat, length: nat, prot: Prot, file: Option<nat>, offset: nat, populate: bool)
      returns (r: Outcome)
      requires Valid() && a % PGSIZE == 0 && a + length <= c.mmapMax
      modifies this`refs, this`mem, this`brkMax, pages, pages.table, pages.table.mem
      ensures r.Overrun? ==> !old(RoomFor(a, length)) && (old(CanRecord()) ==> pages.Wrecked())
      ensures r.Address? ==> old(RoomFor(a, length))
      ensures r.Failed? ==> FirstFree(old(View()).vmrs, 0) == MAX_VMR
      ensures r.Address? || (r.Overrun? && old(CanRecord())) ==> FirstFree(old(View()).vmrs, 0) < MAX_VMR
      ensures !r.Overrun? ==> Valid() && (old(pages.ready) ==> pages.ready && pages.n == old(pages.n))
      ensures old(pages.ready) && (r.Address? || r.Failed?) ==>
              Charged(old(pages.table.node), old(pages.table.nextFreePage),
                      if r.Address? then Need(a / PGSIZE, Pages(length)) else {},
                      pages.table.node, pages.table.nextFreePage)
      ensures !r.Overrun? ==>
                match MmapAt(c, old(View()), a, length, prot, file, offset, populate)
                case MapPanic => r == Panicked
                case MapFailed => r == Failed && P() == old(P())
                case Mapped(s') =>
                  r == Address(a) && P() == old(P()).(s := s', brkMax := if a < old(brkMax) then a else old(brkMax))
    {
      r := MapAt(a, length, prot, file, offset, populate);
      if r.Address? && a < brkMax { brkMax := a; }
    }

    /** The first part of __do_mmap: check the fixed address, or search. A start that is found lies inside user space
        exactly when the request fits there. */
    method ChooseAddress(addr: nat, length: nat, fixed: bool) returns (r: Outcome)
      requires Valid() && brk % PGSIZE == 0 && addr < W64 && length < W64
      ensures r.Address? || r.Failed? || r.Outside?
      ensures r.Address? ==> Placed(c, View().pt, brk, addr, length, fixed) == Some(r.a)
      ensures r.Address? ==> r.a % PGSIZE == 0 && r.a + length <= c.mmapMax
      ensures r.Failed? ==> Placed(c, View().pt, brk, addr, length, fixed) == None
      ensures r.Outside? ==> !fixed && NPage(length) * PGSIZE > c.mmapMax
      ensures r.Address? ==> fixed || NPage(length) * PGSIZE <= c.mmapMax
    {
      if fixed {
        if addr % PGSIZE != 0 || !ValidUserRange(c, addr, length) { return Failed; }
        if addr + length >= W64 { ModStep(addr, length); }
        return Address(addr);
      }
      NPageRange(length);
      var found, lost := VmAlloc(NPage(length));
      if lost { return Outside; }
      if found == 0 { return Failed; }
      FoundInRangeIff(View().pt, brk, c.mmapMax, NPage(length));
      if NPage(length) * PGSIZE > c.mmapMax { return Outside; }
      return Address(found);
    }

    /** __do_brk: Panicked when a kassert fails, Overrun when the page tables reach the records. */
    method DoBrk(addr: nat) returns (r: Outcome)
      requires Valid() && brk % PGSIZE == 0 && brk <= c.mmapMax && brkMin <= c.mmapMax && brkMax <= c.mmapMax
      modifies this`refs, this`mem, this`brk, pages, pages.table, pages.table.mem
      ensures r.Address? || r.Panicked? || r.Overrun?
      ensures r.Address? <==> BrkStep(c, old(P()), addr).Some? && old(BrkRoom(addr))
      ensures r.Panicked? ==> BrkStep(c, old(P()), addr).None?
      ensures r.Overrun? ==> !old(BrkRoom(addr))
      ensures r.Overrun? && old(CanRecord()) ==> FirstFree(old(View()).vmrs, 0) < MAX_VMR && pages.Wrecked()
      ensures r.Address? ==> Valid() && BrkStep(c, old(P()), addr) == Some(P()) && RoundUp(r.a) == brk &&
                             r.a == (if addr < brkMin then brkMin else if addr > brkMax then brkMax else addr)
      ensures old(pages.ready) && r.Address? ==> pages.ready && pages.n == old(pages.n)
      ensures old(pages.ready) && r.Address? ==>
              Charged(old(pages.table.node), old(pages.table.nextFreePage), old(BrkNeed(addr)),
                      pages.table.node, pages.table.nextFreePage)
    {
      RoundUpBound(brkMin, c.mmapMax);
      BrkStepMoves(c, P(), addr);
      r := SetBrk(addr);
    }

    method SetBrk(addr: nat) returns (r: Outcome)
      requires Valid() && brk % PGSIZE == 0 && brk <= c.mmapMax && brkMin <= c.mmapMax && brkMax <= c.mmapMax
      modifies this`refs, this`mem, this`brk, pages, pages.table, pages.table.mem
      ensures NewBrk(old(P()), addr) <= c.mmapMax && (r.Address? || r.Panicked? || r.Overrun?)
      ensures r.Address? <==>
              Moved(c, old(View()), OldBrk(old(P())), NewBrk(old(P()), addr)).Mapped? && old(BrkRoom(addr))
      ensures r.Panicked? ==> !Moved(c, old(View()), OldBrk(old(P())), NewBrk(old(P()), addr)).Mapped?
      ensures r.Overrun? ==> !old(BrkRoom(addr))
      ensures r.Overrun? && old(CanRecord()) ==> FirstFree(old(View()).vmrs, 0) < MAX_VMR && pages.Wrecked()
      ensures r.Address? ==>
              Valid() && Moved(c, old(View()), OldBrk(old(P())), NewBrk(old(P()), addr)) == Mapped(View())
      ensures r.Address? ==> r.a == (if addr < brkMin then brkMin else if addr > brkMax then brkMax else addr)
      ensures r.Address? ==> RoundUp(r.a) == brk
      ensures old(pages.ready) && r.Address? ==> pages.ready && pages.n == old(pages.n)
      ensures old(pages.ready) && r.Address? ==>
              Charged(old(pages.table.node), old(pages.table.nextFreePage), old(BrkNeed(addr)),
                      pages.table.node, pages.table.nextFreePage)
    {
      var newbrk, from, page := BrkPages(addr);
      r := MoveBrk(from, page);
      if !r.Address? { return; }
      brk := page;
      return Address(newbrk);
    }

    /** The tables of the pages by which the heap grows. */
    ghost function BrkNeed(addr: nat): set<PT.Node>
      reads this, pages
    {
      HeapNeed(OldBrk(P()), NewBrk(P(), addr))
    }

    /** The request clamped, and the end of the heap before and after. */
    method BrkPages(addr: nat) returns (newbrk: nat, from: nat, page: nat)
      requires Valid() && brk % PGSIZE == 0 && brk <= c.mmapMax && brkMin <= c.mmapMax && brkMax <= c.mmapMax
      ensures newbrk == if addr < brkMin then brkMin else if addr > brkMax then brkMax else addr
      ensures page == NewBrk(P(), addr) == RoundUp(newbrk) && page <= c.mmapMax && page % PGSIZE == 0
      ensures from == OldBrk(P()) <= c.mmapMax && from % PGSIZE == 0
    {
      newbrk := addr;
      if addr < brkMin { newbrk := brkMin; } else if addr > brkMax { newbrk := brkMax; }
      RoundUpBound(newbrk, c.mmapMax);
      RoundUpBound(brkMin, c.mmapMax);
      from, page := if brk == 0 then RoundUp(brkMin) else brk, RoundUp(newbrk);
    }

    /** The heap does not grow, or there is room for the tables of its new pages. */
    ghost predicate BrkRoom(addr: nat)
      reads this, pages, pages.table
    {
      OldBrk(P()) < NewBrk(P(), addr) ==> RoomFor(OldBrk(P()), NewBrk(P(), addr) - OldBrk(P()))
    }

    method MoveBrk(from: nat, page: nat) returns (r: Outcome)
      requires Valid() && from % PGSIZE == 0 && page % PGSIZE == 0 && from <= c.mmapMax && page <= c.mmapMax
      modifies this`refs, this`mem, pages, pages.table, pages.table.mem
      ensures r.Address? || r.Panicked? || r.Overrun?
      ensures r.Address? <==>
              Moved(c, old(View()), from, page).Mapped? && (from < page ==> old(RoomFor(from, page - from)))
      ensures r.Panicked? ==> !Moved(c, old(View()), from, page).Mapped?
      ensures r.Overrun? ==> from < page && !old(RoomFor(from, page - from))
      ensures r.Overrun? && old(CanRecord()) ==> FirstFree(old(View()).vmrs, 0) < MAX_VMR && pages.Wrecked()
      ensures r.Address? ==> Valid() && Moved(c, old(View()), from, page) == Mapped(View())
      ensures old(pages.ready) && r.Address? ==> pages.ready && pages.n == old(pages.n)
      ensures old(pages.ready) && r.Address? ==>
              Charged(old(pages.table.node), old(pages.table.nextFreePage), HeapNeed(from, page),
                      pages.table.node, pages.table.nextFreePage)
    {
      if from < page {
        r := MapAt(from, page - from, 0xFFFF_FFFF, None, 0, !c.demandPaging);
        if r.Failed? { r := Panicked; }
        return;
      }
      assert Pages(from - page) == (from - page) / PGSIZE;
      DoMunmap(page, from - page);
      ChargedNone(pages.table.node, pages.table.nextFreePage);
      return Address(page);
    }

    method ProtectOne(p: nat, prot: Prot) returns (st: Status)
      requires Valid() && p < PT.VPNS
      modifies pages`flat, pages`vmrs, pages.table.mem
      ensures Valid() && Protected(View(), st) == ProtectPage(old(View()), p, prot) && st != Invalid
    {
      var found, slot, w := pages.Load(p);
      if w == 0 { return NoMem; }
      if PT.Valid(w) { st := ProtectPresent(p, slot, Decode(pages.Base(), w), prot); }
      else { st := ProtectLazy(p, (w - pages.Base()) / RECORD, prot); }
    }

    /** The whole region changes with one of its pages. */
    method ProtectLazy(p: nat, v: nat, prot: Prot) returns (st: Status)
      requires Valid() && pages.ready && At(View(), p) == Lazy(v) && v < MAX_VMR
      modifies pages`vmrs, pages.table.mem
      ensures Valid() && Protected(View(), st) == ProtectPage(old(View()), p, prot)
    {
      var r := pages.GetRec(v);
      if Widens(r.prot, prot) { return Access; }
      pages.PutRec(v, r.(prot := prot));
      return Ok;
    }

    method ProtectPresent(p: nat, slot: nat, leaf: Leaf, prot: Prot) returns (st: Status)
      requires Valid() && p < PT.VPNS && pages.IsSlot(p, slot) && leaf.Present? && At(View(), p) == leaf
      modifies pages`flat, pages.table.mem
      ensures Valid() && Protected(View(), st) == ProtectPage(old(View()), p, prot)
    {
      if !leaf.f.u || (Has(prot, PROT_READ) && !leaf.f.r) || (Has(prot, PROT_WRITE) && !leaf.f.w) ||
        (Has(prot, PROT_EXEC) && !leaf.f.x) {
        return Access;
      }
      PutPte(p, slot, leaf.ppn, ProtToType(prot, true));
      return Ok;
    }

    /** do_mprotect. The end of the range is computed modulo 2^64: a range that runs over it is empty. `wrapped` when
        the last page of the address space was changed too, from where the loop goes on at address 0. */
    method DoMprotect(addr: nat, length: nat, prot: Prot) returns (st: Status, wrapped: bool)
      requires Valid() && addr < W64 && length < W64
      modifies pages`flat, pages`vmrs, pages.table.mem
      ensures Valid() && (st == Invalid <==> addr % PGSIZE != 0)
      ensures addr % PGSIZE != 0 || addr + length >= W64 ==> View() == old(View()) && !wrapped
      ensures addr % PGSIZE == 0 && addr + length < W64 ==>
              Protected(View(), st) == ProtectRange(old(View()), addr / PGSIZE, Pages(length), prot)
      ensures wrapped ==> addr + length > W64 - PGSIZE && st == Ok
    {
      st, wrapped := Ok, false;
      if addr % PGSIZE != 0 { return Invalid, false; }
      var end := (addr + length) % W64;
      if addr + length < W64 { st, wrapped := ProtectLoop(addr, end, prot); }
    }

    method ProtectLoop(addr: nat, end: nat, prot: Prot) returns (st: Status, wrapped: bool)
      requires Valid() && addr % PGSIZE == 0 && addr <= end < W64
      modifies pages`flat, pages`vmrs, pages.table.mem
      ensures Valid() && st != Invalid && (wrapped ==> end > W64 - PGSIZE && st == Ok)
      ensures Protected(View(), st) == ProtectRange(old(View()), addr / PGSIZE, Pages(end - addr), prot)
    {
      st, wrapped := Ok, false;
      var a := addr;
      while a < end
        invariant a % PGSIZE == 0 && Valid() && st == Ok
        invariant ProtectRange(View(), a / PGSIZE, Left(a, end), prot) ==
                  ProtectRange(old(View()), addr / PGSIZE, Pages(end - addr), prot)
      {
        LeftStep(a, end);
        st := ProtectOne(a / PGSIZE % PT.VPNS, prot);
        if st != Ok { return; }
        a := a + PGSIZE;
        if a == W64 { wrapped := true; return; }
      }
    }
  }
}
