/** __vm_alloc: the first-fit search that skips past the page that blocked a candidate. */
module VmAlloc {
  import opened Vm

  ghost predicate Fits(pt: map<nat, Leaf>, p: nat, n: nat) {
    forall q :: p <= q < p + n ==> q !in pt
  }

  /** Naive first fit: the lowest start in [p, last] of n free pages. */
  ghost function FirstFit(pt: map<nat, Leaf>, p: nat, last: int, n: nat): Option<nat>
    decreases last - p
  {
    if p > last then None else if Fits(pt, p, n) then Some(p) else FirstFit(pt, p + 1, last, n)
  }

  /** First fit means what it says. */
  lemma {:induction false} FirstFitIsLowest(pt: map<nat, Leaf>, p: nat, last: int, n: nat)
    ensures match FirstFit(pt, p, last, n)
            case None => forall q :: p <= q <= last ==> !Fits(pt, q, n)
            case Some(r) => p <= r <= last && Fits(pt, r, n) && forall q :: p <= q < r ==> !Fits(pt, q, n)
    decreases last - p
  {
    if p <= last && !Fits(pt, p, n) { FirstFitIsLowest(pt, p + 1, last, n); }
  }

  /** A mapped page x within reach of every start in [p, x] rules them all out at once. */
  lemma {:induction false} SkipBlocked(pt: map<nat, Leaf>, p: nat, x: nat, last: int, n: nat)
    requires p <= x < p + n && x in pt
    ensures FirstFit(pt, p, last, n) == FirstFit(pt, x + 1, last, n)
    decreases x - p
  {
    assert !Fits(pt, p, n);
    if p < x { SkipBlocked(pt, p + 1, x, last, n); }
    if p > last { assert x + 1 > last; }
  }

  // ---- the bounds of the search ----

  const TOP: nat := 0x10_0000_0000_0000      // the pages of the 64-bit address space

  /** A walk looks at the low 27 bits of a page number. */
  function Cut(p: nat): nat { p % 0x800_0000 }

  /** Every page number of the address space with the entry a walk finds for it. */
  ghost function Unrolled(pt: map<nat, Leaf>): map<nat, Leaf> {
    map p: nat | p < 2 * TOP && Cut(p) in pt :: pt[Cut(p)]
  }

  /** The last start the search accepts. Its bound, `mmap_max - npage*RISCV_PGSIZE`, is computed modulo 2^64 and not
      checked: a request larger than user space may start anywhere it does not run over the end of the address space. */
  function LastStart(mmapMax: nat, npage: nat): int {
    if npage * PGSIZE <= mmapMax then mmapMax / PGSIZE - npage else TOP - npage
  }

  ghost function Found(pt: map<nat, Leaf>, brk: nat, mmapMax: nat, npage: nat): Option<nat> {
    FirstFit(Unrolled(pt), brk / PGSIZE, LastStart(mmapMax, npage), npage)
  }

  /** The bound stays inside user space exactly when the request fits there. */
  lemma {:induction false} EndInRangeIff(mmapMax: nat, npage: nat)
    requires mmapMax < W64 && npage <= TOP
    ensures npage * PGSIZE <= mmapMax ==> (mmapMax - npage * PGSIZE) % W64 == mmapMax - npage * PGSIZE
    ensures npage * PGSIZE > mmapMax ==> W64 - npage * PGSIZE <= (mmapMax - npage * PGSIZE) % W64
    ensures npage < TOP ==> ((mmapMax - npage * PGSIZE) % W64 <= mmapMax <==> npage * PGSIZE <= mmapMax)
  {
    var d := mmapMax - npage * PGSIZE;
    if d < 0 { assert d + W64 >= 0 && d % W64 == d + W64; }
  }

  lemma {:induction false} UnrolledFits(pt: map<nat, Leaf>, p: nat, n: nat)
    requires p + n <= 0x800_0000
    ensures Fits(Unrolled(pt), p, n) <==> Fits(pt, p, n)
  {
    assert forall q: nat :: q < 0x800_0000 ==> Cut(q) == q && (q in Unrolled(pt) <==> q in pt);
  }

  /** A start that is found keeps the request inside user space exactly when the request fits there, and the pages
      from it on are free. */
  lemma {:induction false} FoundInRangeIff(pt: map<nat, Leaf>, brk: nat, mmapMax: nat, npage: nat)
    requires mmapMax % PGSIZE == 0 && mmapMax <= DRAM_PAGE * PGSIZE && Found(pt, brk, mmapMax, npage).Some?
    ensures var p := Found(pt, brk, mmapMax, npage).value;
            && brk / PGSIZE <= p && Fits(Unrolled(pt), p, npage)
            && ((p + npage) * PGSIZE <= mmapMax <==> npage * PGSIZE <= mmapMax)
            && (npage * PGSIZE <= mmapMax ==> Fits(pt, p, npage))
  {
    FirstFitIsLowest(Unrolled(pt), brk / PGSIZE, LastStart(mmapMax, npage), npage);
    var p := Found(pt, brk, mmapMax, npage).value;
    if npage * PGSIZE <= mmapMax {
      assert p + npage <= mmapMax / PGSIZE;
      UnrolledFits(pt, p, npage);
    }
  }

  /** And a request that does not fit is not refused: with all mapped pages below `top` there is room above. */
  lemma {:induction false} OversizeIsFound(pt: map<nat, Leaf>, brk: nat, mmapMax: nat, npage: nat, top: nat)
    requires npage * PGSIZE > mmapMax && (forall p :: p in pt ==> p < top) && brk / PGSIZE <= top
    requires top + npage <= 0x800_0000
    ensures Found(pt, brk, mmapMax, npage).Some?
  {
    FirstFitIsLowest(Unrolled(pt), brk / PGSIZE, LastStart(mmapMax, npage), npage);
    UnrolledFits(pt, top, npage);
    assert Fits(Unrolled(pt), top, npage);
  }
}
