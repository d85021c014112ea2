/** The words of the pool read as the page-level model sees them: leaf words of the radix table as page entries, and
    the words of the record pages as region records. */
module PageMap {
  import opened Vm
  import Words
  import PT = PageTable

  // ---- leaf words ----

  const RECORD: nat := 40                       // sizeof(vmr_t)

  function Bit(b: bool, weight: nat): nat { if b then weight else 0 }
  predicate HasBit(w: nat, weight: nat) requires weight > 0 { w / weight % 2 == 1 }

  /** pte_create(ppn, type) */
  function PteCreate(ppn: nat, f: Flags): nat {
    ppn * 1024 + 1 + Bit(f.r, 2) + Bit(f.w, 4) + Bit(f.x, 8) + Bit(f.u, 16) + Bit(f.a, 64) + Bit(f.d, 128)
  }

  /** A leaf word: nothing, the address of a region record, or a valid entry. */
  function Decode(recs: nat, w: nat): Leaf {
    if w == 0 then Empty
    else if PT.Valid(w) then
      Present(PT.PtePpn(w),
              Flags(HasBit(w, 2), HasBit(w, 4), HasBit(w, 8), HasBit(w, 16), HasBit(w, 64), HasBit(w, 128)))
    else Lazy(if w < recs then 0 else (w - recs) / RECORD)
  }

  predicate WordOk(recs: nat, n: nat, w: nat) {
    w == 0 || PT.Valid(w) || (recs <= w && (w - recs) % RECORD == 0 && (w - recs) / RECORD < n)
  }

  lemma {:induction false} DecodePte(recs: nat, ppn: nat, f: Flags)
    ensures Decode(recs, PteCreate(ppn, f)) == Present(ppn, f) && PT.Valid(PteCreate(ppn, f))
  {
    PteBits(PteCreate(ppn, f), ppn, Bit(f.r, 1), Bit(f.w, 1), Bit(f.x, 1), Bit(f.u, 1), Bit(f.a, 1), Bit(f.d, 1));
  }

  lemma {:induction false} PteBits(n: nat, ppn: nat, r: nat, w: nat, x: nat, u: nat, a: nat, d: nat)
    requires r <= 1 && w <= 1 && x <= 1 && u <= 1 && a <= 1 && d <= 1
    requires n == 1024 * ppn + 1 + 2 * r + 4 * w + 8 * x + 16 * u + 64 * a + 128 * d
    ensures n % 2 == 1 && n / 1024 == ppn && n / 2 % 2 == r && n / 4 % 2 == w && n / 8 % 2 == x
    ensures n / 16 % 2 == u && n / 64 % 2 == a && n / 128 % 2 == d
  {
    assert n / 2 % 2 == r by { FlagBit(n, 1, r, 2, w + 2 * x + 4 * u + 16 * a + 32 * d + 256 * ppn); }
    assert n / 4 % 2 == w by { FlagBit(n, 1 + 2 * r, w, 4, x + 2 * u + 8 * a + 16 * d + 128 * ppn); }
    assert n / 8 % 2 == x by { FlagBit(n, 1 + 2 * r + 4 * w, x, 8, u + 4 * a + 8 * d + 64 * ppn); }
    assert n / 16 % 2 == u by { FlagBit(n, 1 + 2 * r + 4 * w + 8 * x, u, 16, 2 * a + 4 * d + 32 * ppn); }
    assert n / 64 % 2 == a by { FlagBit(n, 1 + 2 * r + 4 * w + 8 * x + 16 * u, a, 64, d + 8 * ppn); }
    assert n / 128 % 2 == d by { FlagBit(n, 1 + 2 * r + 4 * w + 8 * x + 16 * u + 64 * a, d, 128, 4 * ppn); }
    assert n / 1024 == ppn by {
      Words.DivModUnique(n, 1024, ppn, 1 + 2 * r + 4 * w + 8 * x + 16 * u + 64 * a + 128 * d);
    }
    assert n % 2 == 1 by { Words.DivModUnique(n, 2, r + 2 * w + 4 * x + 8 * u + 32 * a + 64 * d + 512 * ppn, 1); }
  }

  /** The bit of a word between what is below it and what is above it. */
  lemma {:induction false} FlagBit(n: nat, below: nat, b: nat, weight: nat, above: nat)
    requires below < weight && b <= 1 && n == below + weight * b + 2 * weight * above
    ensures n / weight % 2 == b
  {
    var q := b + 2 * above;
    assert n == weight * q + below;
    Words.DivModUnique(n, weight, q, below);
  }

  lemma {:induction false} Aligned(page: nat)
    requires page > 0
    ensures page * PGSIZE > 0 && page * PGSIZE % 8 == 0
  {
    assert page * PGSIZE == 8 * (512 * page);
  }

  lemma {:induction false} DecodeRecord(recs: nat, n: nat, v: nat)
    requires recs > 0 && recs % 8 == 0 && v < n
    ensures var w := recs + RECORD * v; w != 0 && Decode(recs, w) == Lazy(v) && WordOk(recs, n, w)
  {}

  // ---- region records ----

  const MAX_VMR: nat := 10240                   // RISCV_PGSIZE*100 / sizeof(vmr_t)
  const FIELDS: nat := 5                        // the words of a record

  function FilePtr(files: nat, f: Option<nat>): nat { if f.None? then 0 else files + 8 * f.value }
  function FileAt(files: nat, w: nat): Option<nat> { if w < files || w == 0 then None else Some((w - files) / 8) }

  function Pack(refcnt: nat, prot: Prot): nat { refcnt + W32 * (prot as nat) }
  function ProtIn(w: nat): Prot { (w / W32 % W32) as Prot }

  function RecAt(files: nat, words: seq<nat>, i: nat): Vmr
    requires i + FIELDS <= |words|
  {
    Vmr(words[i], words[i + 1], FileAt(files, words[i + 2]), words[i + 3], words[i + 4] % W32, ProtIn(words[i + 4]))
  }

  /** The record array in the pages from `first` on. */
  ghost function Recs(files: nat, words: seq<nat>, first: nat): seq<Vmr>
    requires 512 * first + FIELDS * MAX_VMR <= |words|
  {
    seq(MAX_VMR, v requires 0 <= v < MAX_VMR => RecAt(files, words, 512 * first + FIELDS * v))
  }

  const BLANK: Vmr := Vmr(0, 0, None, 0, 0, 0)

  ghost function Blanks(): seq<Vmr> { seq(MAX_VMR, _ => BLANK) }

  lemma {:induction false} PackReads(refcnt: nat, prot: Prot)
    requires refcnt < W32
    ensures Pack(refcnt, prot) % W32 == refcnt && ProtIn(Pack(refcnt, prot)) == prot
  {
    PackParts(refcnt, prot as nat);
  }

  lemma {:induction false} PackParts(refcnt: nat, q: nat)
    requires refcnt < W32 && q < W32
    ensures (refcnt + W32 * q) % W32 == refcnt && (refcnt + W32 * q) / W32 % W32 == q
  {}

  lemma {:induction false} FileReads(files: nat, f: Option<nat>)
    requires files > 0
    ensures FileAt(files, FilePtr(files, f)) == f
  {}

  /** Words that hold nothing are blank records, free to be taken. */
  lemma {:induction false} ZeroIsBlank(files: nat, words: seq<nat>, i: nat)
    requires files > 0 && i + FIELDS <= |words| && forall k :: i <= k < i + FIELDS ==> words[k] == 0
    ensures RecAt(files, words, i) == BLANK
  {}

  /** Of the records in a page that has become a page table all are blank but for one at most, and the first has lost
      its count or its length. */
  lemma {:induction false} WreckedRecords(files: nat, words: seq<nat>, first: nat) returns (x: nat)
    requires files > 0 && PT.AlmostClear(words, first)
    ensures forall v: nat :: v < 102 && v != x ==> RecAt(files, words, 512 * first + FIELDS * v) == BLANK
    ensures var r := RecAt(files, words, 512 * first); r.refcnt == 0 || r.length == 0
  {
    var k: nat :| PT.ClearBut(words, first, k);
    x := if 512 * first <= k then (k - 512 * first) / FIELDS else 0;
    forall v: nat | v < 102 && v != x ensures RecAt(files, words, 512 * first + FIELDS * v) == BLANK {
      ZeroIsBlank(files, words, 512 * first + FIELDS * v);
    }
    assert words[512 * first + 1] == 0 || words[512 * first + 4] == 0;
  }

  lemma {:induction false} RecsKept(files: nat, words: seq<nat>, words': seq<nat>, first: nat)
    requires 512 * first + FIELDS * MAX_VMR <= |words| && PT.KeptAbove(words, words', first)
    ensures Recs(files, words', first) == Recs(files, words, first)
  {}

  lemma {:induction false} KeptHigher(words: seq<nat>, words': seq<nat>, next: nat, first: nat)
    requires PT.KeptAbove(words, words', next) && next <= first
    ensures PT.KeptAbove(words, words', first)
  {}

  /** A record written field by field reads back, and no other changes. */
  lemma {:induction false} RecWritten(files: nat, words: seq<nat>, words': seq<nat>, first: nat, v: nat, r: Vmr)
    requires files > 0 && 512 * first + FIELDS * MAX_VMR <= |words| == |words'| && v < MAX_VMR && r.refcnt < W32
    requires var i := 512 * first + FIELDS * v;
             (forall k :: 0 <= k < |words| && !(i <= k < i + FIELDS) ==> words'[k] == words[k]) &&
             words'[i..i + FIELDS] == [r.addr, r.length, FilePtr(files, r.file), r.offset, Pack(r.refcnt, r.prot)]
    ensures Recs(files, words', first) == Recs(files, words, first)[v := r]
  {
    FieldsRead(files, words', 512 * first + FIELDS * v, r);
    forall x | 0 <= x < MAX_VMR
      ensures Recs(files, words', first)[x] == Recs(files, words, first)[v := r][x]
    {
      var i, k := 512 * first + FIELDS * v, 512 * first + FIELDS * x;
      if x != v { assert k + FIELDS <= i || i + FIELDS <= k; }
    }
  }

  lemma {:induction false} FieldsRead(files: nat, words: seq<nat>, i: nat, r: Vmr)
    requires files > 0 && i + FIELDS <= |words| && r.refcnt < W32
    requires words[i..i + FIELDS] == [r.addr, r.length, FilePtr(files, r.file), r.offset, Pack(r.refcnt, r.prot)]
    ensures RecAt(files, words, i) == r
  {
    PackReads(r.refcnt, r.prot);
    FileReads(files, r.file);
    var w := words[i..i + FIELDS];
    assert words[i] == w[0] && words[i + 1] == w[1] && words[i + 2] == w[2] && words[i + 3] == w[3] &&
           words[i + 4] == w[4];
  }

  // ---- the flat map behind the table ----

  ghost function Entries(words: seq<nat>, node: map<nat, PT.Node>, next: nat): nat -> nat {
    p => PT.Entry(words, node, next, p)
  }

  ghost function Flat(recs: nat, e: nat -> nat): map<nat, Leaf> {
    map p: nat | p < PT.VPNS && e(p) != 0 :: Decode(recs, e(p))
  }

  lemma {:induction false} FlatSame(recs: nat, e: nat -> nat, e': nat -> nat)
    requires forall p: nat :: e'(p) == e(p)
    ensures Flat(recs, e') == Flat(recs, e)
  {}

  lemma {:induction false} FlatPut(recs: nat, e: nat -> nat, e': nat -> nat, p: nat, w: nat)
    requires p < PT.VPNS && forall q: nat :: e'(q) == if q == p then w else e(q)
    ensures Flat(recs, e') == if w == 0 then Flat(recs, e) - {p} else Flat(recs, e)[p := Decode(recs, w)]
  {
    if w == 0 { assert Flat(recs, e') == Flat(recs, e) - {p}; } else {
      assert Flat(recs, e') == Flat(recs, e)[p := Decode(recs, w)];
    }
  }

  /** Words other than record addresses read the same wherever the records are. */
  lemma {:induction false} FlatAnywhere(recs: nat, recs': nat, e: nat -> nat)
    requires forall p: nat :: WordOk(recs, 0, e(p))
    ensures Flat(recs', e) == Flat(recs, e)
    ensures forall p: nat :: WordOk(recs', MAX_VMR, e(p))
  {
    forall p: nat
      ensures Decode(recs', e(p)) == Decode(recs, e(p)) && WordOk(recs', MAX_VMR, e(p))
    {
      assert WordOk(recs, 0, e(p));
    }
  }

  /** Names the meaning of the words without unfolding it. */
  ghost predicate Key(k: nat) { k == k }

  /** No page the allocator has handed out holds records. */
  ghost predicate Apart(n: nat, next: nat) { forall p: nat :: PT.HandedOut(p, n, next) ==> !PT.HoldsRecords(p, n) }

  /** How creating a path ends: with a slot, without a page to be had, or with a table where the records are. */
  datatype Made = Slot | NoPage | Hit

  class Map {
    const table: PT.Table
    const files: nat                             // where the file table is
    var ready: bool                              // the record pages have been taken,
    var n: nat                                   // when the allocator stood at n
    ghost var flat: map<nat, Leaf>
    ghost var vmrs: seq<Vmr>

    /** The first page of the records, their address, and how many there are. */
    function First(): nat reads this { 100 * n }
    function Base(): nat reads this { (table.base + 100 * n) * PGSIZE }
    function Count(): nat reads this { if ready then MAX_VMR else 0 }

    /** The leaf word of every page. */
    ghost function LeafWords(): nat -> nat
      reads table, table.mem
    {
      Entries(table.mem[..], table.node, table.nextFreePage)
    }

    ghost predicate Represents()
      reads this, table, table.mem
    {
      && flat == Flat(Base(), LeafWords()) && (forall p: nat :: WordOk(Base(), Count(), LeafWords()(p)))
      && vmrs == if ready && 512 * First() + FIELDS * MAX_VMR <= table.mem.Length
                 then Recs(files, table.mem[..], First())
                 else Blanks()
    }

    /** The flat map and the records are what the words say, and the allocator has not reached the record pages. */
    ghost predicate Valid()
      reads this, table, table.mem
    {
      && table.Inv() && table.base > 0 && files > 0 && |vmrs| == MAX_VMR
      && (ready ==> 2 <= n && n + 100 <= table.nextFreePage <= First() && First() + 100 <= table.freePages)
      && forall k: nat {:trigger Key(k)} :: Key(k) ==> Represents()
    }

    /** The first record page has become a page table: it was cleared, and holds at most one link. */
    ghost predicate Wrecked()
      reads this, table, table.mem
    {
      ready && First() in table.node && PT.AlmostClear(table.mem[..], First())
    }

    ghost predicate IsSlot(p: nat, slot: nat)
      reads table
    {
      PT.HasPage(table.node, PT.NodeFor(p, 0)) && slot == PT.SlotOf(table.node, p) && slot < table.mem.Length
    }

    ghost function Get(p: nat): Leaf
      reads this
    {
      if p in flat then flat[p] else Empty
    }

    constructor (table: PT.Table, files: nat)
      requires table.Inv() && table.base > 0 && files > 0 && forall p: nat :: table.Leaf(p) == 0
      ensures Valid() && flat == map[] && vmrs == Blanks() && !ready && this.table == table && this.files == files
      ensures table.node == old(table.node) && table.nextFreePage == old(table.nextFreePage)
    {
      this.table, this.files, ready, n := table, files, false, 0;
      flat, vmrs := map[], Blanks();
      new;
      forall p: nat ensures LeafWords()(p) == 0 { assert table.Leaf(p) == 0; }
    }

    /** A page that is mapped has an entry. */
    lemma {:induction false} NeverEmpty()
      requires Valid()
      ensures forall p :: p in flat ==> flat[p] != Empty
    {
      assert Key(0);
    }

    /** `*__walk(a)`, reading 0 where there is no slot */
    method Load(p: nat) returns (found: bool, slot: nat, w: nat)
      requires Valid() && p < PT.VPNS
      ensures Decode(Base(), w) == Get(p) && (w != 0 <==> p in flat) && WordOk(Base(), Count(), w)
      ensures found ==> IsSlot(p, slot)
      ensures w != 0 ==> found
    {
      assert Key(0);
      w := 0;
      found, slot := table.Walk(p);
      if found { w := table.mem[slot]; }
      assert w == LeafWords()(p);
    }

    method StoreWord(p: nat, slot: nat, w: nat)
      requires table.Inv() && IsSlot(p, slot)
      modifies table.mem
      ensures table.Inv() && PT.KeptAbove(old(table.mem[..]), table.mem[..], table.nextFreePage)
      ensures forall q: nat :: LeafWords()(q) == if q == p then w else old(LeafWords())(q)
    {
      table.Store(p, slot, w);
      forall q: nat ensures LeafWords()(q) == if q == p then w else old(LeafWords())(q) {
        assert table.Leaf(q) == if q == p then w else old(table.Leaf(q));
      }
    }

    /** `*pte = w` */
    method Store(p: nat, slot: nat, w: nat)
      requires Valid() && p < PT.VPNS && WordOk(Base(), Count(), w) && IsSlot(p, slot)
      modifies this`flat, table.mem
      ensures Valid()
      ensures flat == if w == 0 then old(flat) - {p} else old(flat)[p := Decode(Base(), w)]
    {
      assert Key(0);
      ghost var e, was := LeafWords(), table.mem[..];
      StoreWord(p, slot, w);
      FlatPut(Base(), e, LeafWords(), p, w);
      flat := if w == 0 then flat - {p} else flat[p := Decode(Base(), w)];
      assert flat == Flat(Base(), LeafWords());
      if ready {
        KeptHigher(was, table.mem[..], table.nextFreePage, First());
        RecsKept(files, was, table.mem[..], First());
      }
    }

    /** __walk_create. Once the records are in place a path can be made exactly as long as its missing tables fit below
        them; one more, and the first record page is a page table. */
    method MakeSlot(p: nat) returns (made: Made, slot: nat, w: nat)
      requires Valid() && p < PT.VPNS
      modifies table`nextFreePage, table`node, table.mem
      ensures !made.Hit? ==> Valid()
      ensures made.Slot? ==> IsSlot(p, slot) && Decode(Base(), w) == Get(p) && (w != 0 <==> p in flat)
      ensures made.Slot? ==> PT.Grown(old(table.node), old(table.nextFreePage), p, table.node, table.nextFreePage)
      ensures made.Slot? ==> table.nextFreePage == old(table.nextFreePage) + old(PT.Missing(table.node, p))
      ensures ready ==> (made.Slot? <==> old(table.nextFreePage) + old(PT.Missing(table.node, p)) <= First())
      ensures made.Hit? ==> Wrecked() && flat == Flat(Base(), LeafWords())
      ensures ready ==> (made.Slot? <==> Apart(n, table.nextFreePage))
      ensures made.NoPage? ==> !ready && old(table.nextFreePage) + old(PT.Missing(table.node, p)) > table.freePages
    {
      assert Key(0);
      ghost var e, was := LeafWords(), table.mem[..];
      var ok;
      ok, slot := table.WalkCreate(p);
      forall q: nat ensures LeafWords()(q) == e(q) { assert table.Leaf(q) == old(table.Leaf(q)); }
      FlatSame(Base(), e, LeafWords());
      w := 0;
      if !ok { return NoPage, 0, 0; }
      w := table.mem[slot];
      assert w == LeafWords()(p);
      made := Slot;
      if ready { PT.RecordsDisjointIff(n, table.nextFreePage); }
      if ready && table.nextFreePage > First() {
        made := Hit;
        PT.WroteMeansOf(was, table.mem[..], old(table.nextFreePage), table.nextFreePage,
                        old(PT.Missing(table.node, p)));
        PT.GrownMeans(old(table.node), old(table.nextFreePage), p, table.node, table.nextFreePage);
        assert PT.Between(old(table.nextFreePage), First(), table.nextFreePage);
      } else if ready {
        RecsKept(files, was, table.mem[..], First());
      }
    }

    /** The first call of __vmr_alloc takes the record pages. Only from index 2 on do they lie above the allocator. */
    method AllocRecords() returns (ok: bool)
      requires Valid() && !ready
      modifies this`ready, this`n, table`nextFreePage, table.mem
      ensures ok <==> 2 <= old(table.nextFreePage) && 100 * old(table.nextFreePage) + 100 <= table.freePages
      ensures ok ==> Valid() && ready && n == old(table.nextFreePage) && table.nextFreePage == n + 100
    {
      assert Key(0);
      ghost var e, base := LeafWords(), Base();
      var index := table.nextFreePage;
      var page;
      ok, page := table.PageAlloc1();
      if !ok { return; }
      if index < 2 { ok := false; return; }
      ready, n := true, index;
      forall q: nat ensures LeafWords()(q) == e(q) { assert table.Leaf(q) == old(table.Leaf(q)); }
      FlatSame(Base(), e, LeafWords());
      FlatAnywhere(base, Base(), e);
      forall v | 0 <= v < MAX_VMR ensures RecAt(files, table.mem[..], 512 * First() + FIELDS * v) == BLANK {
        ZeroIsBlank(files, table.mem[..], 512 * First() + FIELDS * v);
      }
      assert Recs(files, table.mem[..], First()) == Blanks();
    }

    /** `__page_alloc()` for a page that is no table, once the records are in place. */
    method TakePage() returns (ok: bool)
      requires Valid() && ready
      modifies table`nextFreePage, table.mem
      ensures ok <==> old(table.nextFreePage) < First()
      ensures ok ==> Valid() && table.nextFreePage == old(table.nextFreePage) + 1
    {
      assert Key(0);
      ghost var e, was := LeafWords(), table.mem[..];
      var page;
      ok, page := table.PageAlloc();
      ok := page < First();
      if !ok { return; }
      forall q: nat ensures LeafWords()(q) == e(q) { assert table.Leaf(q) == old(table.Leaf(q)); }
      FlatSame(Base(), e, LeafWords());
      RecsKept(files, was, table.mem[..], First());
    }

    method RecordAddress(v: nat) returns (w: nat)
      requires Valid() && ready && v < MAX_VMR
      ensures w != 0 && Decode(Base(), w) == Lazy(v) && WordOk(Base(), Count(), w)
    {
      Aligned(table.base + 100 * n);
      DecodeRecord(Base(), MAX_VMR, v);
      w := Base() + RECORD * v;
    }

    method GetRec(v: nat) returns (r: Vmr)
      requires Valid() && ready && v < MAX_VMR
      ensures r == vmrs[v] && r.refcnt < W32
    {
      assert Key(0);
      r := RecAt(files, table.mem[..], 512 * First() + FIELDS * v);
    }

    method PutRec(v: nat, r: Vmr)
      requires Valid() && ready && v < MAX_VMR && r.refcnt < W32
      modifies this`vmrs, table.mem
      ensures Valid() && vmrs == old(vmrs)[v := r]
    {
      assert Key(0);
      ghost var e, was := LeafWords(), table.mem[..];
      var i := 512 * First() + FIELDS * v;
      PokeFive(i, [r.addr, r.length, FilePtr(files, r.file), r.offset, Pack(r.refcnt, r.prot)]);
      FlatSame(Base(), e, LeafWords());
      RecWritten(files, was, table.mem[..], First(), v, r);
      vmrs := vmrs[v := r];
    }

    /** The five stores that fill a record. */
    method PokeFive(i: nat, ws: seq<nat>)
      requires table.Inv() && |ws| == FIELDS && 512 * table.nextFreePage <= i && i + FIELDS <= table.mem.Length
      modifies table.mem
      ensures table.Inv() && table.mem[..][i..i + FIELDS] == ws
      ensures forall k :: 0 <= k < table.mem.Length && !(i <= k < i + FIELDS) ==> table.mem[k] == old(table.mem[k])
      ensures forall q: nat :: LeafWords()(q) == old(LeafWords())(q)
    {
      var k := 0;
      while k < FIELDS
        invariant 0 <= k <= FIELDS && table.Inv() && table.nextFreePage == old(table.nextFreePage)
        invariant forall x :: 0 <= x < table.mem.Length ==>
                  table.mem[x] == if i <= x < i + k then ws[x - i] else old(table.mem[x])
        invariant forall q: nat :: table.Leaf(q) == old(table.Leaf(q))
      {
        table.Poke(i + k, ws[k]);
        k := k + 1;
      }
      forall q: nat ensures LeafWords()(q) == old(LeafWords())(q) { assert table.Leaf(q) == old(table.Leaf(q)); }
    }
  }
}
