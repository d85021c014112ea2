/** Permissions, exactly: what a page may be used for after a fault or a change of protection, which faults are answered
    as handled, and when and why a change of protection is refused. */
module VmPerms {
  import opened Vm
  import opened VmProps
  import Files
  import VmRuns

  // ---- faults ----

  /** The flags of a user page with the permissions of prot; one without any can be read. */
  predicate Exactly(f: Flags, prot: Prot) {
    && f.u && (f.w <==> Has(prot, PROT_WRITE)) && (f.x <==> Has(prot, PROT_EXEC))
    && (f.r <==> Has(prot, PROT_READ) || Silent(prot))
    && (f.a <==> Has(prot, PROT_READ) || Has(prot, PROT_EXEC)) && (f.d <==> Has(prot, PROT_WRITE))
  }

  /** The fault finds a page that waits to be loaded. */
  predicate Loads(c: Config, s: State, p: nat) { IsLazy(s, p) && p * PGSIZE < c.mmapMax }

  ghost predicate Untouched(s: State, s': State, q: nat) {
    At(s', q) == At(s, q) && (q in s'.mem <==> q in s.mem) && (q in s.mem ==> s'.mem[q] == s.mem[q])
  }

  /** A fault that loads a page gives it the permissions of its region, in its own frame, and touches no other page; one
      that does not load changes nothing. */
  lemma {:induction false} FaultGrants(c: Config, s: State, p: nat, want: Prot)
    requires PageFault(c, s, p, want).Fault?
    ensures var s' := PageFault(c, s, p, want).s;
            if Loads(c, s, p) then
              var prot := s.vmrs[At(s, p).v].prot;
              && At(s', p).Present? && At(s', p).ppn == p + c.frame0 && Exactly(At(s', p).f, prot)
              && (MayWrite(s', p) <==> Has(prot, PROT_WRITE)) && (MayExec(s', p) <==> Has(prot, PROT_EXEC))
              && (MayRead(s', p) <==> Has(prot, PROT_READ) || Silent(prot))
              && (forall q: nat :: q != p ==> Untouched(s, s', q))
            else s' == s
  {}

  /** Whether a page with flags f can be used by the process for everything in want, its accessed and dirty bits
      included; a request for nothing asks for read. */
  predicate Grants(f: Flags, want: Prot) {
    && f.u && (Has(want, PROT_READ) ==> f.r && f.a) && (Has(want, PROT_WRITE) ==> f.w && f.d)
    && (Has(want, PROT_EXEC) ==> f.x && f.a) && (Silent(want) ==> f.r)
  }

  /** A fault is answered as handled exactly when the page lies in user space and afterwards is present with what was
      asked for. */
  lemma {:induction false} FaultAnswers(c: Config, s: State, p: nat, want: Prot)
    requires PageFault(c, s, p, want).Fault?
    ensures var r := PageFault(c, s, p, want);
            r.ok <==> p * PGSIZE < c.mmapMax && At(r.s, p).Present? && Grants(At(r.s, p).f, want)
  {}

  /** For a page that was waiting: exactly when its region has every permission asked for, or none was asked for and the
      page can be read. */
  lemma {:induction false} LoadAnswers(c: Config, s: State, p: nat, want: Prot)
    requires PageFault(c, s, p, want).Fault? && Loads(c, s, p)
    ensures var prot := s.vmrs[At(s, p).v].prot;
            PageFault(c, s, p, want).ok <==>
            Includes(prot, want) && (Silent(want) ==> Has(prot, PROT_READ) || Silent(prot))
  {}

  /** A fault fails its kassert exactly when it would load a page without bytes. */
  lemma {:induction false} FaultPanics(c: Config, s: State, p: nat, want: Prot)
    requires IsLazy(s, p) ==> Covered(s.vmrs[At(s, p).v], p)
    ensures PageFault(c, s, p, want).Panic? <==> Loads(c, s, p) && Content(c, s.vmrs[At(s, p).v], p).None?
  {}

  // ---- present pages have the flags of some protection ----

  /** Flags that prot_to_type makes: the dirty bit goes with write permission, and the accessed bit with the others
      unless the page is readable for want of any permission. */
  predicate Typed(f: Flags) {
    f.d == f.w && (f.w || f.x ==> f.a == (f.r || f.x)) && (!f.w && !f.x ==> f.r)
  }

  ghost predicate AllTyped(s: State) { forall p :: p in s.pt && s.pt[p].Present? ==> Typed(s.pt[p].f) }

  /** So in every state of a run a fault is answered as handled exactly when the page has the permissions asked for
      afterwards, a page that can be read for want of any permission apart. */
  lemma {:induction false} TypedAnswers(c: Config, s: State, p: nat, want: Prot)
    requires AllTyped(s) && PageFault(c, s, p, want).Fault?
    ensures AllTyped(PageFault(c, s, p, want).s)
    ensures var r := PageFault(c, s, p, want);
            r.ok <==>
              && p * PGSIZE < c.mmapMax && At(r.s, p).Present? && At(r.s, p).f.u
              && (Has(want, PROT_READ) ==> MayRead(r.s, p) && At(r.s, p).f.a)
              && (Has(want, PROT_WRITE) ==> MayWrite(r.s, p)) && (Has(want, PROT_EXEC) ==> MayExec(r.s, p))
              && (Silent(want) ==> MayRead(r.s, p))
  {
    var s' := PageFault(c, s, p, want).s;
    forall q | q in s'.pt && s'.pt[q].Present? ensures Typed(s'.pt[q].f) { if q != p { assert s'.pt[q] == s.pt[q]; } }
  }

  lemma {:induction false} UnmapTyped(s: State, p: nat, n: nat)
    requires AllTyped(s)
    ensures AllTyped(UnmapRange(s, p, n))
    decreases n
  {
    if n > 0 { UnmapTyped(UnmapPage(s, p), p + 1, n - 1); }
  }

  lemma {:induction false} MapTyped(s: State, p: nat, n: nat, v: nat)
    requires AllTyped(s)
    ensures AllTyped(MapRange(s, p, n, v))
    decreases n
  {
    if n > 0 { MapTyped(MapPage(s, p, v), p + 1, n - 1, v); }
  }

  lemma {:induction false} PopulateTyped(c: Config, s: State, p: nat, n: nat, prot: Prot)
    requires AllTyped(s)
    ensures Populate(c, s, p, n, prot).Some? ==> AllTyped(Populate(c, s, p, n, prot).value)
    decreases n
  {
    if n > 0 && PageFault(c, s, p, prot).Fault? {
      TypedAnswers(c, s, p, prot);
      PopulateTyped(c, PageFault(c, s, p, prot).s, p + 1, n - 1, prot);
    }
  }

  lemma {:induction false} MmapAtTyped(c: Config, s: State, addr: nat, length: nat, prot: Prot, file: Option<nat>,
                                       offset: nat, populate: bool)
    requires AllTyped(s)
    ensures var m := VmRuns.MmapAt(c, s, addr, length, prot, file, offset, populate); m.Mapped? ==> AllTyped(m.s)
  {
    var r := VmrAlloc(s, Vmr(addr, length, file, offset, NPage(length) % W32, prot));
    if r.Some? {
      MapTyped(r.value.0, addr / PGSIZE, Pages(length), r.value.1);
      PopulateTyped(c, MapRange(r.value.0, addr / PGSIZE, Pages(length), r.value.1), addr / PGSIZE, Pages(length),
                    prot);
    }
  }

  lemma {:induction false} ProtectTyped(s: State, p: nat, n: nat, prot: Prot)
    requires AllTyped(s)
    ensures AllTyped(ProtectRange(s, p, n, prot).s)
    decreases n
  {
    if n > 0 {
      var r := ProtectPage(s, p % 0x800_0000, prot);
      forall q | q in r.s.pt && r.s.pt[q].Present? ensures Typed(r.s.pt[q].f) {
        if q != p % 0x800_0000 { assert r.s.pt[q] == s.pt[q]; }
      }
      if r.status == Ok { ProtectTyped(r.s, p + 1, n - 1, prot); }
    }
  }

  /** Every call keeps the flags of present pages so. */
  lemma {:induction false} StepTyped(c: Config, x: VmRuns.Proc, op: VmRuns.Op)
    requires AllTyped(x.s) && VmRuns.Step(c, x, op).Some?
    ensures AllTyped(VmRuns.Step(c, x, op).value.s)
  {
    match op {
      case SysMmap(addr, length, prot, fixed, populate, from, offset) => MmapTyped(c, x, op);
      case SysMunmap(addr, length) => UnmapTyped(x.s, addr / PGSIZE, Pages(length));
      case SysFault(vaddr, prot) => TypedAnswers(c, x.s, vaddr / PGSIZE, prot);
      case SysBrk(addr) => BrkTyped(c, x, addr);
      case SysMprotect(addr, length, prot) => ProtectTyped(x.s, addr / PGSIZE, Pages(length), prot);
      case _ => assert VmRuns.Step(c, x, op).value.s.pt == x.s.pt;
    }
  }

  lemma {:induction false} MapStepTyped(c: Config, x: VmRuns.Proc, addr: nat, length: nat, prot: Prot, fixed: bool,
                                        populate: bool, file: Option<nat>, offset: nat)
    requires AllTyped(x.s)
    ensures var r := VmRuns.MapStep(c, x, addr, length, prot, fixed, populate, file, offset);
            r.Some? ==> AllTyped(r.value.s)
  {
    var at := VmRuns.Placed(c, x.s.pt, x.brk, addr, length, fixed);
    if at.Some? { MmapAtTyped(c, x.s, at.value, length, prot, file, offset, populate || !c.demandPaging); }
  }

  lemma {:induction false} MmapTyped(c: Config, x: VmRuns.Proc, op: VmRuns.Op)
    requires op.SysMmap? && AllTyped(x.s)
    ensures VmRuns.MmapStep(c, x, op).Some? ==> AllTyped(VmRuns.MmapStep(c, x, op).value.s)
  {
    var refs := if op.from.None? then x.s.refs else Files.Get(Files.Table(x.s.refs, x.fds), op.from.value).0.refs;
    var file := if op.from.None? then None else Files.Get(Files.Table(x.s.refs, x.fds), op.from.value).1;
    MapStepTyped(c, x.(s := x.s.(refs := refs)), op.addr, op.length, op.prot, op.fixed, op.populate, file, op.offset);
    assert x.s.(refs := x.s.refs) == x.s;
  }

  lemma {:induction false} BrkTyped(c: Config, x: VmRuns.Proc, addr: nat)
    requires AllTyped(x.s)
    ensures VmRuns.BrkStep(c, x, addr).Some? ==> AllTyped(VmRuns.BrkStep(c, x, addr).value.s)
  {
    var brk, page := VmRuns.OldBrk(x), VmRuns.NewBrk(x, addr);
    if brk > page { UnmapTyped(x.s, page / PGSIZE, (brk - page) / PGSIZE); }
    if brk < page { MmapAtTyped(c, x.s, brk, page - brk, 0xFFFF_FFFF, None, 0, !c.demandPaging); }
  }

  // ---- mprotect ----

  /** The i-th page of a range; the walk looks at 27 bits of its number. */
  function PageNo(p: nat, i: nat): nat { (p + i) % 0x800_0000 }

  lemma {:induction false} NextNo(p: nat, i: nat)
    ensures PageNo(p + 1, i) == PageNo(p, i + 1)
  {}

  ghost function Range(p: nat, n: nat): set<nat> { set i | 0 <= i < n :: PageNo(p, i) }

  /** A mapped page that has every permission of prot already: for one that waits, its region does; one that is present
      belongs to the user. */
  predicate Permits(s: State, q: nat, prot: Prot) {
    match At(s, q)
    case Empty => false
    case Lazy(v) => v < |s.vmrs| && !Lacks(s.vmrs[v].prot, prot)
    case Present(_, f) => f.u && Allows(f, prot)
  }

  /** Some bit of prot is not in was. */
  predicate Lacks(was: Prot, prot: Prot) { prot & !was != 0 }

  predicate Allows(f: Flags, prot: Prot) {
    (Has(prot, PROT_READ) ==> f.r) && (Has(prot, PROT_WRITE) ==> f.w) && (Has(prot, PROT_EXEC) ==> f.x)
  }

  lemma {:induction false} WidensIs(was: Prot, prot: Prot)
    ensures Widens(was, prot) <==> Lacks(was, prot)
  {}

  lemma {:induction false} BitOf(was: Prot, prot: Prot)
    ensures !Lacks(was, prot) ==> Includes(was, prot)
    ensures prot < 8 && Includes(was, prot) ==> !Lacks(was, prot)
  {}

  /** Every permission in prot is in was. */
  predicate Includes(was: Prot, prot: Prot) {
    && (Has(prot, PROT_READ) ==> Has(was, PROT_READ)) && (Has(prot, PROT_WRITE) ==> Has(was, PROT_WRITE))
    && (Has(prot, PROT_EXEC) ==> Has(was, PROT_EXEC))
  }

  /** For a protection of the three permissions: every one that is asked for is there. */
  lemma {:induction false} PermitsIs(s: State, q: nat, prot: Prot)
    requires prot < 8 && (IsLazy(s, q) || (At(s, q).Present? && At(s, q).f.u))
    ensures Permits(s, q, prot) <==>
            && (Has(prot, PROT_READ) ==> MayRead(s, q)) && (Has(prot, PROT_WRITE) ==> MayWrite(s, q))
            && (Has(prot, PROT_EXEC) ==> MayExec(s, q))
  {
    if IsLazy(s, q) { BitOf(s.vmrs[At(s, q).v].prot, prot); }
  }

  /** One page: it goes well exactly when the page permits it, and then nothing is permitted or refused that was not
      before. */
  lemma {:induction false} ProtectOneOk(s: State, p: nat, prot: Prot)
    ensures var r := ProtectPage(s, p, prot);
            && (r.status == Ok <==> Permits(s, p, prot)) && (r.status == NoMem <==> At(s, p).Empty?)
            && (r.status != Ok ==> r.status == NoMem || r.status == Access) && (r.status != Ok ==> r.s == s)
  {
    if IsLazy(s, p) { WidensIs(s.vmrs[At(s, p).v].prot, prot); }
  }

  lemma {:induction false} ProtectOneSame(s: State, p: nat, prot: Prot, q: nat)
    requires Permits(s, p, prot)
    ensures var s' := ProtectPage(s, p, prot).s;
            (Permits(s', q, prot) <==> Permits(s, q, prot)) && (At(s', q).Empty? <==> At(s, q).Empty?)
  {
    ProtectOneOk(s, p, prot);
    if IsLazy(s, p) {
      var v := At(s, p).v;
      assert ProtectPage(s, p, prot).s == s.(vmrs := s.vmrs[v := s.vmrs[v].(prot := prot)]);
      NoneLacking(prot);
      RecordSame(s, v, s.vmrs[v].(prot := prot), prot, q);
    } else {
      AllowsOwn(prot);
      var leaf := At(s, p);
      assert ProtectPage(s, p, prot).s == s.(pt := s.pt[p := Present(leaf.ppn, ProtToType(prot, true))]);
      LeafSame(s, p, leaf.ppn, ProtToType(prot, true), prot, q);
    }
  }

  lemma {:induction false} RecordSame(s: State, v: nat, r: Vmr, prot: Prot, q: nat)
    requires v < |s.vmrs| && !Lacks(s.vmrs[v].prot, prot) && !Lacks(r.prot, prot)
    ensures var s' := s.(vmrs := s.vmrs[v := r]);
            (Permits(s', q, prot) <==> Permits(s, q, prot)) && At(s', q) == At(s, q)
  {}

  lemma {:induction false} LeafSame(s: State, p: nat, ppn: nat, f: Flags, prot: Prot, q: nat)
    requires Permits(s, p, prot) && At(s, p).Present? && f.u && Allows(f, prot)
    ensures var s' := s.(pt := s.pt[p := Present(ppn, f)]);
            (Permits(s', q, prot) <==> Permits(s, q, prot)) && (At(s', q).Empty? <==> At(s, q).Empty?)
  {
    if q == p {
      assert At(s.(pt := s.pt[p := Present(ppn, f)]), q) == Present(ppn, f);
    } else {
      assert At(s.(pt := s.pt[p := Present(ppn, f)]), q) == At(s, q);
    }
  }

  lemma {:induction false} AllowsOwn(prot: Prot)
    ensures ProtToType(prot, true).u && Allows(ProtToType(prot, true), prot)
  {}

  lemma {:induction false} NoneLacking(prot: Prot)
    ensures !Lacks(prot, prot)
  {}

  /** mprotect stops at the first page that does not permit it, i: with NoMem if that is not mapped and Access
      otherwise, having done what it would have done for the i pages before it alone. Without one it succeeds. */
  lemma {:induction false} ProtectStops(s: State, p: nat, n: nat, prot: Prot) returns (i: nat)
    ensures i <= n && (forall k :: 0 <= k < i ==> Permits(s, PageNo(p, k), prot))
    ensures i < n ==> !Permits(s, PageNo(p, i), prot)
    ensures ProtectRange(s, p, n, prot).status ==
            if i == n then Ok else if At(s, PageNo(p, i)).Empty? then NoMem else Access
    ensures ProtectRange(s, p, i, prot) == Protected(ProtectRange(s, p, n, prot).s, Ok)
    decreases n
  {
    i := 0;
    if n > 0 {
      var r := ProtectPage(s, PageNo(p, 0), prot);
      ProtectOneOk(s, PageNo(p, 0), prot);
      if r.status == Ok {
        var j := ProtectStops(r.s, p + 1, n - 1, prot);
        i := j + 1;
        if j < n - 1 { NextNo(p, j); }
        forall k | 0 <= k < n
          ensures Permits(r.s, PageNo(p, k), prot) == Permits(s, PageNo(p, k), prot)
          ensures At(r.s, PageNo(p, k)).Empty? == At(s, PageNo(p, k)).Empty?
        {
          ProtectOneSame(s, PageNo(p, 0), prot, PageNo(p, k));
        }
        forall k | 0 <= k < i ensures Permits(s, PageNo(p, k), prot) {
          if k > 0 { NextNo(p, k - 1); }
        }
      }
    }
  }

  /** From s to s' the pages of ps have been given prot: a present one exactly its permissions, and a region its
      protection when one of ps waits in it, for all its waiting pages. Nothing else has changed. */
  ghost predicate Given(s: State, ps: set<nat>, prot: Prot, s': State) {
    && s'.refs == s.refs && s'.mem == s.mem && s'.pt.Keys == s.pt.Keys && |s'.vmrs| == |s.vmrs|
    && (forall q :: q in s.pt ==> LeafGiven(s.pt[q], q in ps, prot, s'.pt[q]))
    && (forall v :: 0 <= v < |s.vmrs| ==> RecordGiven(s, ps, prot, v, s'.vmrs[v]))
  }

  predicate LeafGiven(leaf: Leaf, given: bool, prot: Prot, leaf': Leaf) {
    if given && leaf.Present? then leaf'.Present? && leaf'.ppn == leaf.ppn && Exactly(leaf'.f, prot) else leaf' == leaf
  }

  ghost predicate Waits(s: State, ps: set<nat>, v: nat) { exists q :: q in ps && q in s.pt && s.pt[q] == Lazy(v) }

  ghost predicate RecordGiven(s: State, ps: set<nat>, prot: Prot, v: nat, r: Vmr)
    requires v < |s.vmrs|
  {
    r == if Waits(s, ps, v) then s.vmrs[v].(prot := prot) else s.vmrs[v]
  }

  lemma {:induction false} GivenNothing(s: State, prot: Prot)
    ensures Given(s, {}, prot, s)
  {}

  lemma {:induction false} GivenOne(s: State, p: nat, prot: Prot)
    requires ProtectPage(s, p, prot).status == Ok
    ensures Given(s, {p}, prot, ProtectPage(s, p, prot).s)
  {
    var s' := ProtectPage(s, p, prot).s;
    forall v | 0 <= v < |s.vmrs| ensures RecordGiven(s, {p}, prot, v, s'.vmrs[v]) {
      if Waits(s, {p}, v) { assert s.pt[p] == Lazy(v); }
      if At(s, p) == Lazy(v) { assert Waits(s, {p}, v); }
    }
  }

  lemma {:induction false} GivenBoth(s: State, ps: set<nat>, prot: Prot, t: State, qs: set<nat>, u: State)
    requires Given(s, ps, prot, t) && Given(t, qs, prot, u)
    ensures Given(s, ps + qs, prot, u)
  {
    forall q | q in s.pt ensures LeafGiven(s.pt[q], q in ps + qs, prot, u.pt[q]) {
      assert LeafGiven(s.pt[q], q in ps, prot, t.pt[q]) && LeafGiven(t.pt[q], q in qs, prot, u.pt[q]);
    }
    forall v | 0 <= v < |s.vmrs| ensures RecordGiven(s, ps + qs, prot, v, u.vmrs[v]) {
      assert RecordGiven(s, ps, prot, v, t.vmrs[v]) && RecordGiven(t, qs, prot, v, u.vmrs[v]);
      WaitsEither(s, ps, prot, t, qs, v);
    }
  }

  lemma {:induction false} WaitsEither(s: State, ps: set<nat>, prot: Prot, t: State, qs: set<nat>, v: nat)
    requires Given(s, ps, prot, t)
    ensures Waits(s, ps + qs, v) <==> Waits(s, ps, v) || Waits(t, qs, v)
  {
    if Waits(s, ps + qs, v) {
      var q :| q in ps + qs && q in s.pt && s.pt[q] == Lazy(v);
      assert LeafGiven(s.pt[q], q in ps, prot, t.pt[q]);
    }
    if Waits(t, qs, v) {
      var q :| q in qs && q in t.pt && t.pt[q] == Lazy(v);
      assert LeafGiven(s.pt[q], q in ps, prot, t.pt[q]);
    }
  }

  /** What a successful mprotect does, to every page and every region. */
  lemma {:induction false} ProtectGives(s: State, p: nat, n: nat, prot: Prot)
    requires ProtectRange(s, p, n, prot).status == Ok
    ensures Given(s, Range(p, n), prot, ProtectRange(s, p, n, prot).s)
    decreases n
  {
    if n == 0 {
      assert Range(p, n) == {};
    } else {
      var s1 := ProtectPage(s, PageNo(p, 0), prot).s;
      GivenOne(s, PageNo(p, 0), prot);
      ProtectGives(s1, p + 1, n - 1, prot);
      GivenBoth(s, {PageNo(p, 0)}, prot, s1, Range(p + 1, n - 1), ProtectRange(s, p, n, prot).s);
      RangeStep(p, n);
    }
  }

  lemma {:induction false} RangeStep(p: nat, n: nat)
    requires n > 0
    ensures Range(p, n) == {PageNo(p, 0)} + Range(p + 1, n - 1)
  {
    forall q | q in Range(p, n) ensures q in {PageNo(p, 0)} + Range(p + 1, n - 1) {
      var i :| 0 <= i < n && q == PageNo(p, i);
      if i > 0 { NextNo(p, i - 1); assert q == PageNo(p + 1, i - 1); }
    }
    forall q | q in Range(p + 1, n - 1) ensures q in Range(p, n) {
      var i :| 0 <= i < n - 1 && q == PageNo(p + 1, i);
      NextNo(p, i);
      assert q == PageNo(p, i + 1);
    }
  }

  /** After a successful mprotect every page of the range may be written and executed exactly as asked for, and read
      when that was asked for, or when nothing was and the page is present. */
  lemma {:induction false} ProtectedMay(s: State, p: nat, n: nat, prot: Prot, i: nat)
    requires ProtectRange(s, p, n, prot).status == Ok && i < n
    ensures var s', q := ProtectRange(s, p, n, prot).s, PageNo(p, i);
            && q in s'.pt && (MayWrite(s', q) <==> Has(prot, PROT_WRITE)) && (MayExec(s', q) <==> Has(prot, PROT_EXEC))
            && (MayRead(s', q) <==> Has(prot, PROT_READ) || (Silent(prot) && At(s', q).Present?))
  {
    var s', q := ProtectRange(s, p, n, prot).s, PageNo(p, i);
    var j := ProtectStops(s, p, n, prot);
    assert Permits(s, q, prot);
    ProtectGives(s, p, n, prot);
    assert q in Range(p, n) && LeafGiven(s.pt[q], true, prot, s'.pt[q]);
    if s.pt[q].Lazy? {
      var v := s.pt[q].v;
      assert Waits(s, Range(p, n), v) && RecordGiven(s, Range(p, n), prot, v, s'.vmrs[v]);
    }
  }

  /** A page outside the range changes its permissions exactly when it waits in a region in which a page of the range
      waits, and that region's protection was another. */
  lemma {:induction false} ProtectSpills(s: State, p: nat, n: nat, prot: Prot, q: nat)
    requires ProtectRange(s, p, n, prot).status == Ok && q !in Range(p, n)
    ensures var s' := ProtectRange(s, p, n, prot).s;
            && At(s', q) == At(s, q) && |s'.vmrs| == |s.vmrs|
            && (IsLazy(s, q) ==> s'.vmrs[At(s, q).v].prot ==
                                 if Waits(s, Range(p, n), At(s, q).v) then prot else s.vmrs[At(s, q).v].prot)
  {
    var s' := ProtectRange(s, p, n, prot).s;
    ProtectGives(s, p, n, prot);
    if q in s.pt { assert LeafGiven(s.pt[q], false, prot, s'.pt[q]); }
    if IsLazy(s, q) { assert RecordGiven(s, Range(p, n), prot, At(s, q).v, s'.vmrs[At(s, q).v]); }
  }
}
