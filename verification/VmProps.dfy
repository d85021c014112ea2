/** What the page-level operations guarantee to a process: contents, permissions, and addresses. */
module VmProps {
  import opened Vm

  // ---- demand paging is transparent ----

  /** Faulting a sequence of pages in, with the results that matter: a failed kassert anywhere stops the run. */
  function FaultAll(c: Config, s: State, ps: seq<nat>, prot: Prot): Option<State>
    decreases |ps|
  {
    if ps == [] then Some(s)
    else
      match PageFault(c, s, ps[0], prot)
      case Panic => None
      case Fault(s', _) => FaultAll(c, s', ps[1..], prot)
  }

  /** The page p can be faulted in: it is lazy, inside user space and its bytes exist. */
  ghost predicate Loadable(c: Config, s: State, p: nat) {
    && IsLazy(s, p) && p * PGSIZE < c.mmapMax
    && s.vmrs[At(s, p).v].addr <= p * PGSIZE < s.vmrs[At(s, p).v].addr + s.vmrs[At(s, p).v].length
    && Content(c, s.vmrs[At(s, p).v], p).Some?
  }

  ghost function LoadedLeaf(c: Config, s: State, p: nat): Leaf
    requires IsLazy(s, p)
  {
    Present(p + c.frame0, ProtToType(s.vmrs[At(s, p).v].prot, true))
  }

  ghost predicate SameRecord(s: State, s': State, v: nat)
    requires v < |s.vmrs| == |s'.vmrs|
  {
    s'.vmrs[v] == s.vmrs[v].(refcnt := s'.vmrs[v].refcnt)
  }

  ghost predicate LeafAfter(c: Config, s: State, done: set<nat>, s': State, p: nat)
    requires p in s.pt && p in s'.pt
  {
    s'.pt[p] == if p in done && IsLazy(s, p) then LoadedLeaf(c, s, p) else s.pt[p]
  }

  ghost predicate BytesAfter(c: Config, s: State, done: set<nat>, s': State, p: nat) {
    if p in done && Loadable(c, s, p)
    then p in s'.mem && s'.mem[p] == Content(c, s.vmrs[At(s, p).v], p).value
    else (p in s'.mem <==> p in s.mem) && (p in s.mem ==> s'.mem[p] == s.mem[p])
  }

  /** The state in which exactly the pages of `done` have been loaded, compared with s: nothing in it but the
      counts depends on the order in which they were. */
  ghost predicate Loaded(c: Config, s: State, done: set<nat>, s': State) {
    && s'.pt.Keys == s.pt.Keys && |s'.vmrs| == |s.vmrs|
    && (forall p :: p in done ==> Loadable(c, s, p))
    && (forall v :: 0 <= v < |s.vmrs| ==> SameRecord(s, s', v))
    && (forall p :: p in s.pt ==> LeafAfter(c, s, done, s', p))
    && (forall p: nat :: BytesAfter(c, s, done, s', p))
  }

  lemma {:induction false} LoadedNothing(c: Config, s: State)
    ensures Loaded(c, s, {}, s)
  {}

  /** A fault on a page that is still lazy: the whole effect. */
  lemma {:induction false} FaultEffect(c: Config, s: State, p: nat, prot: Prot)
    requires Loadable(c, s, p)
    ensures PageFault(c, s, p, prot).Fault?
    ensures var v, s' := At(s, p).v, PageFault(c, s, p, prot).s;
            && s'.pt == s.pt[p := LoadedLeaf(c, s, p)]
            && s'.mem == s.mem[p := Content(c, s.vmrs[v], p).value]
            && |s'.vmrs| == |s.vmrs|
            && (forall x :: 0 <= x < |s.vmrs| ==> SameRecord(s, s', x))
            && PageFault(c, s, p, prot).ok == Covers(ProtToType(s.vmrs[v].prot, true), ProtToType(prot, true))
  {}

  /** One more fault extends the set of loaded pages by one, whichever were loaded before. */
  lemma {:induction false} LoadOneMore(c: Config, s: State, done: set<nat>, s': State, p: nat, prot: Prot)
    requires Loaded(c, s, done, s') && Loadable(c, s, p)
    ensures PageFault(c, s', p, prot).Fault? && Loaded(c, s, done + {p}, PageFault(c, s', p, prot).s)
  {
    assert LeafAfter(c, s, done, s', p);
    if p in done {
      assert done + {p} == done;
    } else {
      LoadNew(c, s, done, s', p, prot);
    }
  }

  lemma {:induction false} LoadNew(c: Config, s: State, done: set<nat>, s': State, p: nat, prot: Prot)
    requires Loaded(c, s, done, s') && Loadable(c, s, p) && p !in done
    ensures PageFault(c, s', p, prot).Fault? && Loaded(c, s, done + {p}, PageFault(c, s', p, prot).s)
  {
    assert LeafAfter(c, s, done, s', p);
    assert SameRecord(s, s', At(s, p).v);
    StillLoadable(c, s, done, s', p);
    FaultEffect(c, s', p, prot);
    var s'' := PageFault(c, s', p, prot).s;
    forall v | 0 <= v < |s.vmrs|
      ensures SameRecord(s, s'', v)
    {
      assert SameRecord(s, s', v) && SameRecord(s', s'', v);
    }
    forall q | q in s.pt ensures LeafAfter(c, s, done + {p}, s'', q) { assert LeafAfter(c, s, done, s', q); }
    forall q: nat ensures BytesAfter(c, s, done + {p}, s'', q) { assert BytesAfter(c, s, done, s', q); }
  }

  lemma {:induction false} StillLoadable(c: Config, s: State, done: set<nat>, s': State, p: nat)
    requires Loaded(c, s, done, s') && Loadable(c, s, p) && p !in done
    ensures Loadable(c, s', p) && At(s', p) == At(s, p) && LoadedLeaf(c, s', p) == LoadedLeaf(c, s, p)
    ensures Content(c, s'.vmrs[At(s', p).v], p) == Content(c, s.vmrs[At(s, p).v], p)
  {
    assert LeafAfter(c, s, done, s', p);
    assert SameRecord(s, s', At(s, p).v);
  }

  ghost function PagesOf(ps: seq<nat>): set<nat> { set q | q in ps }

  lemma {:induction false} FaultsLoad(c: Config, s: State, done: set<nat>, s': State, ps: seq<nat>, prot: Prot)
    requires Loaded(c, s, done, s') && forall q :: q in ps ==> Loadable(c, s, q)
    ensures FaultAll(c, s', ps, prot).Some? && Loaded(c, s, done + PagesOf(ps), FaultAll(c, s', ps, prot).value)
    decreases |ps|
  {
    if ps == [] {
      assert done + PagesOf(ps) == done;
    } else {
      var s'' := PageFault(c, s', ps[0], prot);
      LoadOneMore(c, s, done, s', ps[0], prot);
      FaultsLoad(c, s, done + {ps[0]}, s''.s, ps[1..], prot);
      Gather(done, ps);
    }
  }

  lemma {:induction false} Gather(done: set<nat>, ps: seq<nat>)
    requires ps != []
    ensures done + {ps[0]} + PagesOf(ps[1..]) == done + PagesOf(ps)
  {}

  /** Any two orders of faulting the same pages leave the same leaves and the same bytes. */
  lemma {:induction false} FaultOrderIrrelevant(c: Config, s: State, ps: seq<nat>, qs: seq<nat>, prot: Prot,
                                                prot': Prot)
    requires (forall q :: q in ps <==> q in qs) && forall q :: q in ps ==> Loadable(c, s, q)
    ensures var a, b := FaultAll(c, s, ps, prot), FaultAll(c, s, qs, prot');
            a.Some? && b.Some? && a.value.pt == b.value.pt && a.value.mem == b.value.mem
  {
    LoadedNothing(c, s);
    FaultsLoad(c, s, {}, s, ps, prot);
    FaultsLoad(c, s, {}, s, qs, prot');
    assert PagesOf(ps) == PagesOf(qs);
    LoadedUnique(c, s, {} + PagesOf(ps), FaultAll(c, s, ps, prot).value, FaultAll(c, s, qs, prot').value);
  }

  lemma {:induction false} LoadedUnique(c: Config, s: State, done: set<nat>, a: State, b: State)
    requires Loaded(c, s, done, a) && Loaded(c, s, done, b)
    ensures a.pt == b.pt && a.mem == b.mem
  {
    forall p | p in s.pt
      ensures a.pt[p] == b.pt[p]
    {
      assert LeafAfter(c, s, done, a, p) && LeafAfter(c, s, done, b, p);
    }
    forall p: nat ensures (p in a.mem <==> p in b.mem) && (p in a.mem ==> a.mem[p] == b.mem[p]) {
      assert BytesAfter(c, s, done, a, p) && BytesAfter(c, s, done, b, p);
    }
  }

  lemma {:induction false} LoadedPage(c: Config, s: State, done: set<nat>, s': State, q: nat)
    requires Loaded(c, s, done, s') && q in done
    ensures IsLazy(s, q) && At(s', q) == LoadedLeaf(c, s, q) && SameRecord(s, s', At(s, q).v)
    ensures Loadable(c, s, q) && q in s'.mem && s'.mem[q] == Content(c, s.vmrs[At(s, q).v], q).value
  {
    assert Loadable(c, s, q);
    assert LeafAfter(c, s, done, s', q) && BytesAfter(c, s, done, s', q);
  }

  /** The bytes of a loaded page: the file's bytes from its offset on, then zeros, one page in all. */
  lemma {:induction false} ContentBytes(c: Config, r: Vmr, p: nat)
    requires r.addr <= p * PGSIZE < r.addr + r.length
    ensures Content(c, r, p).Some? <==>
            r.file.Some? ==> r.file.value < |c.disk| && p * PGSIZE - r.addr + r.offset < |c.disk[r.file.value]|
    ensures Content(c, r, p).Some? ==> |Content(c, r, p).value| == PGSIZE
    ensures Content(c, r, p).Some? && r.file.Some? ==>
            forall i :: 0 <= i < PGSIZE ==>
              var at := p * PGSIZE - r.addr + i;
              Content(c, r, p).value[i] ==
              if at < r.length && at + r.offset < |c.disk[r.file.value]| then c.disk[r.file.value][at + r.offset] else 0
  {}

  /** When every page has bytes, the eager loop is the same faults in ascending order. */
  lemma {:induction false} PopulateIsFaults(c: Config, s: State, p: nat, n: nat, prot: Prot)
    requires forall q :: p <= q < p + n ==> Loadable(c, s, q) && s.vmrs[At(s, q).v].prot == prot
    ensures Populate(c, s, p, n, prot).Some?
    ensures Populate(c, s, p, n, prot) == FaultAll(c, s, Ascending(p, n), prot)
    decreases n
  {
    if n > 0 {
      assert Loadable(c, s, p);
      FaultEffect(c, s, p, prot);
      var s' := PageFault(c, s, p, prot).s;
      forall q | p + 1 <= q < p + 1 + (n - 1)
        ensures Loadable(c, s', q) && s'.vmrs[At(s', q).v].prot == prot
      {
        assert Loadable(c, s, q);
        assert SameRecord(s, s', At(s, q).v);
      }
      PopulateIsFaults(c, s', p + 1, n - 1, prot);
      assert Ascending(p, n)[0] == p && Ascending(p, n)[1..] == Ascending(p + 1, n - 1);
    }
  }

  /** The page p is lazy, inside user space and its record, with this protection: whether it has bytes is open. */
  ghost predicate Mapped(c: Config, s: State, p: nat, prot: Prot) {
    && IsLazy(s, p) && p * PGSIZE < c.mmapMax && s.vmrs[At(s, p).v].prot == prot
    && s.vmrs[At(s, p).v].addr <= p * PGSIZE < s.vmrs[At(s, p).v].addr + s.vmrs[At(s, p).v].length
  }

  /** The kassert of the eager loop holds exactly when every page has bytes; then the loop is the page faults in
      ascending order. */
  lemma {:induction false} PopulateIff(c: Config, s: State, p: nat, n: nat, prot: Prot)
    requires forall q :: p <= q < p + n ==> Mapped(c, s, q, prot)
    ensures Populate(c, s, p, n, prot).Some? <==> forall q :: p <= q < p + n ==> Loadable(c, s, q)
    ensures Populate(c, s, p, n, prot).Some? ==> Populate(c, s, p, n, prot) == FaultAll(c, s, Ascending(p, n), prot)
  {
    if forall q :: p <= q < p + n ==> Loadable(c, s, q) {
      forall q | p <= q < p + n
        ensures Loadable(c, s, q) && s.vmrs[At(s, q).v].prot == prot
      {
        assert Mapped(c, s, q, prot);
      }
      PopulateIsFaults(c, s, p, n, prot);
    } else if Populate(c, s, p, n, prot).Some? {
      PopulateNeeds(c, s, p, n, prot);
    }
  }

  lemma {:induction false} PopulateNeeds(c: Config, s: State, p: nat, n: nat, prot: Prot)
    requires (forall q :: p <= q < p + n ==> Mapped(c, s, q, prot)) && Populate(c, s, p, n, prot).Some?
    ensures forall q :: p <= q < p + n ==> Loadable(c, s, q)
    decreases n
  {
    if n > 0 {
      assert Mapped(c, s, p, prot) && Loadable(c, s, p);
      FaultEffect(c, s, p, prot);
      var s' := PageFault(c, s, p, prot).s;
      forall q | p + 1 <= q < p + 1 + (n - 1) ensures Mapped(c, s', q, prot) {
        assert Mapped(c, s, q, prot) && SameRecord(s, s', At(s, q).v);
      }
      PopulateNeeds(c, s', p + 1, n - 1, prot);
      forall q | p <= q < p + n ensures Loadable(c, s, q) {
        if q > p { assert Mapped(c, s, q, prot) && Loadable(c, s', q) && SameRecord(s, s', At(s, q).v); }
      }
    }
  }

  function Ascending(p: nat, n: nat): seq<nat>
    decreases n
  {
    if n == 0 then [] else [p] + Ascending(p + 1, n - 1)
  }

  // ---- permissions only shrink ----

  predicate MayWrite(s: State, p: nat) {
    match At(s, p)
    case Empty => false
    case Lazy(v) => v < |s.vmrs| && Has(s.vmrs[v].prot, PROT_WRITE)
    case Present(_, f) => f.w
  }

  predicate MayExec(s: State, p: nat) {
    match At(s, p)
    case Empty => false
    case Lazy(v) => v < |s.vmrs| && Has(s.vmrs[v].prot, PROT_EXEC)
    case Present(_, f) => f.x
  }

  /** No page gained write or execute permission and none appeared or disappeared. */
  ghost predicate NoGain(s: State, s': State) {
    s'.pt.Keys == s.pt.Keys &&
    forall p :: p in s.pt ==> (MayWrite(s', p) ==> MayWrite(s, p)) && (MayExec(s', p) ==> MayExec(s, p))
  }

  lemma {:induction false} SubsetBits(old': Prot, prot: Prot)
    requires !Widens(old', prot)
    ensures Has(prot, PROT_READ) ==> Has(old', PROT_READ)
    ensures Has(prot, PROT_WRITE) ==> Has(old', PROT_WRITE)
    ensures Has(prot, PROT_EXEC) ==> Has(old', PROT_EXEC)
  {}

  lemma {:induction false} FaultNoGain(c: Config, s: State, p: nat, prot: Prot)
    requires PageFault(c, s, p, prot).Fault?
    ensures NoGain(s, PageFault(c, s, p, prot).s)
  {
    var s' := PageFault(c, s, p, prot).s;
    forall q | q in s.pt
      ensures (MayWrite(s', q) ==> MayWrite(s, q)) && (MayExec(s', q) ==> MayExec(s, q))
    {
      if q != p { assert s'.pt[q] == s.pt[q]; }
    }
  }

  lemma {:induction false} ProtectNoGain(s: State, p: nat, prot: Prot)
    ensures NoGain(s, ProtectPage(s, p, prot).s)
  {
    var s' := ProtectPage(s, p, prot).s;
    if IsLazy(s, p) && s' != s { SubsetBits(s.vmrs[At(s, p).v].prot, prot); }
    forall q | q in s.pt
      ensures (MayWrite(s', q) ==> MayWrite(s, q)) && (MayExec(s', q) ==> MayExec(s, q))
    {
      if q != p { assert s'.pt[q] == s.pt[q]; }
    }
  }

  lemma {:induction false} ProtectRangeNoGain(s: State, p: nat, n: nat, prot: Prot)
    ensures NoGain(s, ProtectRange(s, p, n, prot).s)
    decreases n
  {
    if n > 0 {
      ProtectNoGain(s, p % 0x800_0000, prot);
      var r := ProtectPage(s, p % 0x800_0000, prot);
      if r.status == Ok {
        ProtectRangeNoGain(r.s, p + 1, n - 1, prot);
        NoGainTrans(s, r.s, ProtectRange(r.s, p + 1, n - 1, prot).s);
      }
    }
  }

  lemma {:induction false} NoGainTrans(a: State, b: State, d: State)
    requires NoGain(a, b) && NoGain(b, d)
    ensures NoGain(a, d)
  {}

  datatype Access = Touch(p: nat, want: Prot) | Protect(p: nat, n: nat, prot: Prot)

  /** A run of faults and do_mprotect calls, whether they succeed, fail or fail half way. */
  function AccessRun(c: Config, s: State, ops: seq<Access>): Option<State>
    decreases |ops|
  {
    if ops == [] then Some(s)
    else
      match ops[0]
      case Protect(p, n, prot) => AccessRun(c, ProtectRange(s, p, n, prot).s, ops[1..])
      case Touch(p, want) =>
        match PageFault(c, s, p, want)
        case Panic => None
        case Fault(s', _) => AccessRun(c, s', ops[1..])
  }

  lemma {:induction false} RunNoGain(c: Config, s: State, ops: seq<Access>)
    requires AccessRun(c, s, ops).Some?
    ensures NoGain(s, AccessRun(c, s, ops).value)
    decreases |ops|
  {
    if ops != [] {
      var s' := match ops[0]
                case Protect(p, n, prot) => ProtectRange(s, p, n, prot).s
                case Touch(p, want) => PageFault(c, s, p, want).s;
      match ops[0] {
        case Protect(p, n, prot) => ProtectRangeNoGain(s, p, n, prot);
        case Touch(p, want) => FaultNoGain(c, s, p, want);
      }
      RunNoGain(c, s', ops[1..]);
      NoGainTrans(s, s', AccessRun(c, s', ops[1..]).value);
    }
  }

  // ---- read permission can grow ----

  predicate MayRead(s: State, p: nat) {
    match At(s, p)
    case Empty => false
    case Lazy(v) => v < |s.vmrs| && Has(s.vmrs[v].prot, PROT_READ)
    case Present(_, f) => f.r
  }

  /** A protection without any of the three permissions, which prot_to_type turns into read permission. */
  predicate Silent(prot: Prot) { !Has(prot, PROT_READ) && !Has(prot, PROT_WRITE) && !Has(prot, PROT_EXEC) }

  /** A fault makes a page readable that was not exactly when it loads it and its region has no permission at all. */
  lemma {:induction false} FaultReadIff(c: Config, s: State, p: nat, want: Prot, q: nat)
    requires PageFault(c, s, p, want).Fault?
    ensures !MayRead(s, q) && MayRead(PageFault(c, s, p, want).s, q) <==>
            q == p && IsLazy(s, p) && p * PGSIZE < c.mmapMax && Silent(s.vmrs[At(s, p).v].prot)
  {
    var s' := PageFault(c, s, p, want).s;
    if q != p { assert At(s', q) == At(s, q); }
  }

  /** do_mprotect makes a page readable that was not exactly when the page is a present user page and the request has
      no permission at all. */
  lemma {:induction false} ProtectReadIff(s: State, p: nat, prot: Prot, q: nat)
    ensures !MayRead(s, q) && MayRead(ProtectPage(s, p, prot).s, q) <==>
            q == p && At(s, p).Present? && At(s, p).f.u && !At(s, p).f.r && Silent(prot)
  {
    var s' := ProtectPage(s, p, prot).s;
    if IsLazy(s, p) && s' != s { SubsetBits(s.vmrs[At(s, p).v].prot, prot); }
    if q != p { assert At(s', q) == At(s, q); }
  }

  /** A page that waits for its fault with no permission at all. */
  predicate SilentLazy(s: State, q: nat) { IsLazy(s, q) && Silent(s.vmrs[At(s, q).v].prot) }

  lemma {:induction false} ProtectNotSilent(s: State, p: nat, n: nat, prot: Prot, q: nat)
    requires !SilentLazy(s, q) && !Silent(prot)
    ensures !SilentLazy(ProtectRange(s, p, n, prot).s, q)
    ensures MayRead(ProtectRange(s, p, n, prot).s, q) ==> MayRead(s, q)
    decreases n
  {
    if n > 0 {
      var r := ProtectPage(s, p % 0x800_0000, prot);
      ProtectReadIff(s, p % 0x800_0000, prot, q);
      assert !SilentLazy(r.s, q);
      if r.status == Ok { ProtectNotSilent(r.s, p + 1, n - 1, prot, q); }
    }
  }

  /** Over any run no page gains read permission unless it waits with no permission, or a request has none. */
  lemma {:induction false} RunNoReadGain(c: Config, s: State, ops: seq<Access>, q: nat)
    requires AccessRun(c, s, ops).Some? && !SilentLazy(s, q)
    requires forall op :: op in ops && op.Protect? ==> !Silent(op.prot)
    ensures MayRead(AccessRun(c, s, ops).value, q) ==> MayRead(s, q)
    decreases |ops|
  {
    if ops != [] {
      match ops[0] {
        case Protect(p, n, prot) =>
          assert ops[0] in ops;
          ProtectNotSilent(s, p, n, prot, q);
          RunNoReadGain(c, ProtectRange(s, p, n, prot).s, ops[1..], q);
        case Touch(p, want) =>
          FaultReadIff(c, s, p, want, q);
          var s' := PageFault(c, s, p, want).s;
          if q != p { assert At(s', q) == At(s, q); }
          assert !SilentLazy(s', q);
          RunNoReadGain(c, s', ops[1..], q);
      }
    }
  }

  /** And with such a request every user page can be made readable: ask for no permission, then touch it. */
  lemma {:induction false} ReadIsGained(c: Config, s: State, p: nat)
    requires p < 0x800_0000 && (Loadable(c, s, p) || (At(s, p).Present? && At(s, p).f.u))
    ensures var s' := AccessRun(c, s, [Protect(p, 1, 0), Touch(p, PROT_READ)]); s'.Some? && MayRead(s'.value, p)
  {
    NothingWidensLess();
    var r := ProtectPage(s, p, 0);
    assert p % 0x800_0000 == p && ProtectRange(s, p, 1, 0).s == r.s;
    assert [Protect(p, 1, 0), Touch(p, PROT_READ)][1..] == [Touch(p, PROT_READ)];
    assert [Touch(p, PROT_READ)][1..] == [];
    if Loadable(c, s, p) {
      assert Loadable(c, r.s, p);
      FaultEffect(c, r.s, p, PROT_READ);
    }
    var s' := PageFault(c, r.s, p, PROT_READ).s;
    assert MayRead(s', p);
    assert AccessRun(c, s', []) == Some(s');
    assert AccessRun(c, r.s, [Touch(p, PROT_READ)]) == Some(s');
  }

  lemma {:induction false} NothingWidensLess()
    ensures Silent(0) && forall was: Prot :: !Widens(was, 0)
  {}

  // ---- va2pa ----

  /** The macro va2pa of pk/mmap.h. */
  function Va2Pa(c: Config, va: nat): nat {
    if va >= DRAM_PAGE * PGSIZE then va else va + c.frame0 * PGSIZE
  }

  /** In every state of the invariant the table translates a mapped address to what va2pa computes. */
  lemma {:induction false} Va2PaAgrees(c: Config, s: State, others: seq<nat>, va: nat)
    requires Inv(c, s, others) && At(s, va / PGSIZE).Present?
    ensures At(s, va / PGSIZE).ppn * PGSIZE + va % PGSIZE == Va2Pa(c, va)
  {
    assert LeafOk(c, s, va / PGSIZE);
  }

  /** User frames are pairwise distinct, lie above the table pool and end inside DRAM. */
  lemma {:induction false} FramesSeparate(c: Config, s: State, others: seq<nat>, memPages: nat, p: nat, q: nat)
    requires Inv(c, s, others) && p < DRAM_PAGE && q < DRAM_PAGE && p != q && At(s, p).Present? && At(s, q).Present?
    requires DRAM_PAGE <= c.frame0 && c.mmapMax <= (memPages - (c.frame0 - DRAM_PAGE)) * PGSIZE
    ensures At(s, p).ppn != At(s, q).ppn && c.frame0 <= At(s, p).ppn < DRAM_PAGE + memPages
  {
    assert LeafOk(c, s, p) && LeafOk(c, s, q);
  }
}
