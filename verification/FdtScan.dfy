/** fdt_scan_helper with the callbacks of filter_compat, in place on the words of a structure block. */
module FdtScan {
  import opened Fdt
  import opened FdtFilter
  import opened FdtNodes

  // ---- replacing a run of words ----

  /** `now` is `was` with the words from i to k replaced by part. */
  ghost predicate Spliced(was: seq<Word>, i: nat, part: seq<Word>, k: nat, now: seq<Word>) {
    forall u: nat {:trigger SpliceKey(was, now, u)} :: SpliceKey(was, now, u) ==>
      k == i + |part| && k <= |was| && now == was[..i] + part + was[k..]
  }

  ghost predicate SpliceKey(was: seq<Word>, now: seq<Word>, u: nat) { u == u }

  lemma {:induction false} SpliceMeans(was: seq<Word>, i: nat, part: seq<Word>, k: nat, now: seq<Word>)
    ensures Spliced(was, i, part, k, now) <==> k == i + |part| && k <= |was| && now == was[..i] + part + was[k..]
  {
    assert SpliceKey(was, now, 0);
  }

  lemma {:induction false} SpliceJoin(was: seq<Word>, i: nat, a: seq<Word>, j: nat, mid: seq<Word>, b: seq<Word>,
                                      k: nat, now: seq<Word>)
    requires Spliced(was, i, a, j, mid) && Spliced(mid, j, b, k, now)
    ensures Spliced(was, i, a + b, k, now)
  {
    SpliceMeans(was, i, a, j, mid);
    SpliceMeans(mid, j, b, k, now);
    SpliceMeans(was, i, a + b, k, now);
    assert mid[..j] == was[..i] + a;
    assert mid[k..] == was[k..];
  }

  lemma {:induction false} SpliceNothing(ws: seq<Word>, i: nat, part: seq<Word>)
    requires Holds(ws, i, part)
    ensures Spliced(ws, i, part, i + |part|, ws)
  {
    SpliceMeans(ws, i, part, i + |part|, ws);
  }

  /** Words outside the replaced run stay. */
  lemma {:induction false} SpliceKeeps(was: seq<Word>, i: nat, part: seq<Word>, k: nat, now: seq<Word>, at: nat,
                                       what: seq<Word>)
    requires Spliced(was, i, part, k, now) && Holds(was, at, what) && (at + |what| <= i || k <= at)
    ensures |now| == |was| && Holds(now, at, what)
  {
    SpliceMeans(was, i, part, k, now);
    assert now[at..at + |what|] == was[at..at + |what|];
  }

  lemma {:induction false} SpliceSpells(was: seq<Word>, i: nat, part: seq<Word>, k: nat, now: seq<Word>, at: nat,
                                        f: Forest, end: nat)
    requires Spliced(was, i, part, k, now) && Spells(was, at, f, end) && k <= at
    ensures Spells(now, at, f, end)
  {
    SpellsMeans(was, at, f, end);
    SpellsMeans(now, at, f, end);
    SpliceKeeps(was, i, part, k, now, at, Encode(f));
    SpliceMeans(was, i, part, k, now);
    assert now[end] == was[end];
  }

  // ---- the words of a scan ----

  /** What the scan leaves of one node. */
  ghost function NodeOut(q: Query, name: seq<Word>, body: Forest, d: int, kill: int): seq<Word> {
    if ScanKill(q, body, d + 1, kill) == d + 1 then NopWords(|EncodeNode(name, body)|)
    else [FDT_BEGIN_NODE] + name + ScanOut(q, body, d + 1, kill) + [FDT_END_NODE]
  }

  lemma {:induction false} ScanLength(q: Query, f: Forest, d: int, kill: int)
    ensures |ScanOut(q, f, d, kill)| == |Encode(f)|
    decreases f
  {
    match f {
      case Done =>
      case Nop(rest) => ScanLength(q, rest, d, kill);
      case Prop(len, off, value, rest) => ScanLength(q, rest, d, PropKill(q, len, off, value, d, kill));
      case Sub(name, body, rest) =>
        ScanLength(q, body, d + 1, kill);
        ScanLength(q, rest, d, CloseKill(ScanKill(q, body, d + 1, kill), d + 1));
    }
  }

  /** compat_prop looks at the words of the property alone: the word behind them starts with a zero byte. */
  lemma {:induction false} ListInBuffer(ws: seq<Word>, pos: nat, len: nat, s: seq<Byte>)
    requires pos + Size(len) < |ws| && ws[pos + Size(len)] < 0x100_0000 && 0 !in s
    ensures ListIndex(Bytes(ws[pos..]), 0, len, s, 0) == ListIndex(Bytes(ws[pos..pos + Size(len)]) + [0], 0, len, s, 0)
  {
    var n := Size(len);
    var value, more := ws[pos..pos + n], ws[pos + n..];
    assert ws[pos..] == value + more;
    BytesAppend(value, more);
    assert Bytes(more)[0] == 0;
    var p, r := Bytes(value) + [0], Bytes(more)[1..];
    assert Bytes(ws[pos..]) == p + r;
    ListPrefix(p, r, 0, len, s, 0);
  }

  /** The loop of fdt_string_list_index over the bytes from the value on. */
  method IndexIn(bytes: seq<Byte>, len: nat, s: seq<Byte>) returns (index: int)
    requires len < |bytes|
    ensures index == ListIndex(bytes, 0, len, s, 0)
  {
    var list := 0;
    index := 0;
    while list < len
      invariant index >= 0 && ListIndex(bytes, 0, len, s, 0) == ListIndex(bytes, list, len, s, index)
      decreases len - list
    {
      if StrEq(bytes, list, s) { return; }
      index := index + 1;
      list := Term(bytes, list) + 1;
    }
    return -1;
  }

  class Scanner {
    const buf: array<Word>
    const q: Query
    var depth: int
    var kill: int

    ghost predicate Valid() { 0 !in q.compat }

    constructor (buf: array<Word>, q: Query)
      ensures this.buf == buf && this.q == q && depth == 0 && kill == NO_KILL
    {
      this.buf, this.q, depth, kill := buf, q, 0, NO_KILL;
    }

    /** fdt_string_list_index on the value at pos */
    method StringListIndex(pos: nat, len: nat) returns (index: int)
      requires Valid() && pos + Size(len) < buf.Length && buf[pos + Size(len)] < 0x100_0000
      ensures index == ListIndex(Bytes(buf[pos..pos + Size(len)]) + [0], 0, len, q.compat, 0)
    {
      ListInBuffer(buf[..], pos, len, q.compat);
      assert buf[..][pos..pos + Size(len)] == buf[pos..pos + Size(len)];
      index := IndexIn(Bytes(buf[..][pos..]), len, q.compat);
    }

    /** compat_prop */
    method CompatProp(len: Word, off: Word, pos: nat)
      requires Valid() && pos + Size(len) < buf.Length && buf[pos + Size(len)] < 0x100_0000
      modifies this`kill
      ensures kill == PropKill(q, len, off, buf[pos..pos + Size(len)], depth, old(kill))
    {
      if StrEq(q.strings, off, COMPATIBLE) {
        var index := StringListIndex(pos, len);
        if index >= 0 && depth < kill { kill := depth; }
      }
    }

    /** compat_close */
    method CompatClose() returns (remove: bool)
      modifies this`kill, this`depth
      ensures depth == old(depth) - 1 && kill == CloseKill(old(kill), old(depth))
      ensures (remove <==> old(kill) == old(depth))
    {
      remove := kill == depth;
      depth := depth - 1;
      if remove { kill := NO_KILL; }
    }

    /** Overwrite the words from lex to next. */
    method Wipe(lex: nat, next: nat)
      requires lex <= next <= buf.Length
      modifies buf
      ensures Spliced(old(buf[..]), lex, NopWords(next - lex), next, buf[..])
    {
      var i := lex;
      while i != next
        invariant lex <= i <= next
        invariant forall k :: 0 <= k < buf.Length ==> buf[k] == if lex <= k < i then FDT_NOP else old(buf[k])
      {
        buf[i] := FDT_NOP;
        i := i + 1;
      }
      assert buf[..] == old(buf[..])[..lex] + NopWords(next - lex) + old(buf[..])[next..];
      SpliceMeans(old(buf[..]), lex, NopWords(next - lex), next, buf[..]);
    }

    /** strlen of the name at pos, divided by four */
    method NameLengthBy4(pos: nat) returns (n: nat)
      requires pos <= buf.Length && ZeroWord(buf[..], pos) < buf.Length
      ensures pos + n == ZeroWord(buf[..], pos)
    {
      StrlenWords(buf[..], pos);
      n := Term(Bytes(buf[..][pos..]), 0) / 4;
    }

    /** The FDT_BEGIN_NODE case of fdt_scan_helper. */
    method ScanNode(lex: nat, ghost name: seq<Word>, ghost body: Forest, ghost rest: Forest, ghost end: nat)
      returns (next: nat)
      requires Valid() && WellFormed(body) && Spells(buf[..], lex, Sub(name, body, rest), end)
      modifies this`kill, this`depth, buf
      ensures depth == old(depth) && kill == CloseKill(ScanKill(q, body, depth + 1, old(kill)), depth + 1)
      ensures Spliced(old(buf[..]), lex, NodeOut(q, name, body, depth, old(kill)), next, buf[..])
      ensures Spells(buf[..], next, rest, end)
      decreases |Encode(body)|, 3
    {
      ghost var was, d, k := buf[..], depth, kill;
      ghost var j;
      next, j := ScanBody(lex, name, body, rest, end);
      ghost var mid := buf[..];
      var remove := CompatClose();
      if remove { Wipe(lex, next); }
      FinishNode(q, lex, name, body, rest, end, d, k, was, j, mid, buf[..]);
    }

    /** Up to the end of the node: compat_open and the recursive call. */
    method ScanBody(lex: nat, ghost name: seq<Word>, ghost body: Forest, ghost rest: Forest, ghost end: nat)
      returns (next: nat, ghost j: nat)
      requires Valid() && WellFormed(body) && Spells(buf[..], lex, Sub(name, body, rest), end)
      modifies this`kill, this`depth, buf
      ensures depth == old(depth) + 1 && kill == ScanKill(q, body, depth, old(kill))
      ensures lex < buf.Length && old(buf[lex]) == FDT_BEGIN_NODE && Holds(old(buf[..]), lex + 1, name)
      ensures lex <= j && next == j + 1 <= buf.Length
      ensures SpellsBetween(old(buf[..]), lex + 1 + |name|, body, j, rest, end)
      ensures Spliced(old(buf[..]), lex + 1 + |name|, ScanOut(q, body, depth, old(kill)), j, buf[..])
      decreases |Encode(body)|, 2
    {
      j := NodeParts(buf[..], lex, name, body, rest, end);
      SpellsLength(buf[..], lex + 1 + |name|, body, j);
      depth := depth + 1;
      var name4 := NameLengthBy4(lex + 1);
      next := ScanHelper(lex + 2 + name4, body, j);
    }

    /** fdt_scan_helper over the run of items f; its assertion that no property follows a child holds. */
    method ScanHelper(start: nat, ghost f: Forest, ghost end: nat) returns (next: nat)
      requires Valid() && WellFormed(f) && Spells(buf[..], start, f, end) && end < buf.Length && buf[end] < 0x100_0000
      modifies this`kill, this`depth, buf
      ensures depth == old(depth) && kill == ScanKill(q, f, old(depth), old(kill))
      ensures Spliced(old(buf[..]), start, ScanOut(q, f, old(depth), old(kill)), end, buf[..])
      ensures next == end + (if old(buf[end]) == FDT_END_NODE then 1 else 0)
      decreases |Encode(f)|, 1
    {
      ghost var job := Job(q, buf[..], start, f, depth, kill, end);
      var lex: nat := start;
      var last := false;
      ghost var g, done := f, [];
      StartStep(job);
      while true
        invariant depth == job.d && Progress(job, lex, g, done, buf[..], kill)
        invariant WellFormed(g) && Spells(buf[..], lex, g, end) && buf[end] < 0x100_0000
        invariant |Encode(g)| <= |Encode(f)| && (last ==> NoProps(g))
        decreases |Encode(g)|
      {
        ghost var now := buf[..];
        FirstWord(now, lex, g, end);
        if buf[lex] == FDT_NOP {
          NopStep(job, lex, g, done, now, kill);
          done, g := done + [FDT_NOP], g.rest;
          lex := lex + 1;
        } else if buf[lex] == FDT_PROP {
          assert !last;
          ghost var was := kill;
          ghost var part := PropPart(now, lex, g, end);
          var len := buf[lex + 1];
          CompatProp(len, buf[lex + 2], lex + 3);
          PropStep(job, lex, g, done, now, was);
          done, g := done + part, g.rest;
          lex := lex + 3 + Size(len);
        } else if buf[lex] == FDT_BEGIN_NODE {
          last := true;
          ghost var part, was := NodeOut(q, g.name, g.body, depth, kill), kill;
          next := ScanNode(lex, g.name, g.body, g.rest, end);
          NodeStep(job, lex, g, done, now, was, next, buf[..]);
          done, g := done + part, g.rest;
          lex := next;
        } else {
          FinishStep(job, lex, done, now, kill);
          return if buf[lex] == FDT_END_NODE then lex + 1 else lex;
        }
      }
    }
  }

  /** A call of fdt_scan_helper: the words, the items to scan and the counters it starts with. */
  datatype Job = Job(q: Query, was: seq<Word>, start: nat, f: Forest, d: int, kill: int, end: nat)

  /** The items up to lex have been replaced by `done`; g is left. */
  ghost predicate Progress(job: Job, lex: nat, g: Forest, done: seq<Word>, now: seq<Word>, kill: int) {
    forall u: nat {:trigger ProgressKey(lex, g, u)} :: ProgressKey(lex, g, u) ==>
      ProgressMeans(job, lex, g, done, now, kill)
  }

  ghost predicate ProgressKey(lex: nat, g: Forest, u: nat) { u == u }

  ghost predicate ProgressMeans(job: Job, lex: nat, g: Forest, done: seq<Word>, now: seq<Word>, kill: int) {
    && WellFormed(g) && Spells(now, lex, g, job.end) && |Encode(g)| <= |Encode(job.f)|
    && ScanKill(job.q, g, job.d, kill) == ScanKill(job.q, job.f, job.d, job.kill)
    && done + ScanOut(job.q, g, job.d, kill) == ScanOut(job.q, job.f, job.d, job.kill)
    && Spliced(job.was, job.start, done, lex, now) && job.end < |job.was| == |now|
    && now[job.end] == job.was[job.end] && now[job.end] < 0x100_0000
  }

  lemma {:induction false} StartStep(job: Job)
    requires WellFormed(job.f) && Spells(job.was, job.start, job.f, job.end) && job.end < |job.was|
    requires job.was[job.end] < 0x100_0000
    ensures Progress(job, job.start, job.f, [], job.was, job.kill)
  {
    SpellsMeans(job.was, job.start, job.f, job.end);
    SpliceNothing(job.was, job.start, []);
  }

  lemma {:induction false} FinishStep(job: Job, lex: nat, done: seq<Word>, now: seq<Word>, kill: int)
    requires Progress(job, lex, Done, done, now, kill)
    ensures lex == job.end < |job.was| == |now| && now[lex] == job.was[lex]
    ensures kill == ScanKill(job.q, job.f, job.d, job.kill)
    ensures Spliced(job.was, job.start, ScanOut(job.q, job.f, job.d, job.kill), job.end, now)
  {
    assert ProgressKey(lex, Done, 0);
    SpellsDone(now, lex, job.end);
  }

  lemma {:induction false} NopStep(job: Job, lex: nat, g: Forest, done: seq<Word>, now: seq<Word>, kill: int)
    requires Progress(job, lex, g, done, now, kill) && g.Nop?
    ensures Progress(job, lex + 1, g.rest, done + [FDT_NOP], now, kill) && Spells(now, lex + 1, g.rest, job.end)
    ensures |Encode(g.rest)| < |Encode(g)|
  {
    assert ProgressKey(lex, g, 0);
    SpellsNop(now, lex, g.rest, job.end);
    SpliceNothing(now, lex, [FDT_NOP]);
    Move(job, lex, g, done, now, kill, lex + 1, g.rest, [FDT_NOP], now, kill);
  }

  lemma {:induction false} PropStep(job: Job, lex: nat, g: Forest, done: seq<Word>, now: seq<Word>, kill: int)
    requires Progress(job, lex, g, done, now, kill) && g.Prop?
    ensures Progress(job, lex + 3 + Size(g.len), g.rest, done + ([FDT_PROP, g.len, g.off] + g.value), now,
                     PropKill(job.q, g.len, g.off, g.value, job.d, kill))
    ensures |Encode(g.rest)| < |Encode(g)|
  {
    assert ProgressKey(lex, g, 0);
    var part := PropPart(now, lex, g, job.end);
    assert Yields(job.q, g, job.d, kill, part, g.rest, PropKill(job.q, g.len, g.off, g.value, job.d, kill));
    Move(job, lex, g, done, now, kill, lex + 3 + Size(g.len), g.rest, part, now,
         PropKill(job.q, g.len, g.off, g.value, job.d, kill));
  }

  lemma {:induction false} NodeStep(job: Job, lex: nat, g: Forest, done: seq<Word>, now: seq<Word>, kill: int,
                                    next: nat, now': seq<Word>)
    requires Progress(job, lex, g, done, now, kill) && g.Sub? && |now'| == |now|
    requires Spliced(now, lex, NodeOut(job.q, g.name, g.body, job.d, kill), next, now')
    requires Spells(now', next, g.rest, job.end)
    ensures Progress(job, next, g.rest, done + NodeOut(job.q, g.name, g.body, job.d, kill), now',
                     CloseKill(ScanKill(job.q, g.body, job.d + 1, kill), job.d + 1))
    ensures |Encode(g.body)| < |Encode(g)| && |Encode(g.rest)| < |Encode(g)|
    ensures job.end < |now| && now'[job.end] == now[job.end]
  {
    assert ProgressKey(lex, g, 0);
    var part := NodeOut(job.q, g.name, g.body, job.d, kill);
    SubUnfolds(job.q, g, job.d, kill);
    SpliceEnd(now, lex, part, next, now', g.rest, job.end);
    Move(job, lex, g, done, now, kill, next, g.rest, part, now',
         CloseKill(ScanKill(job.q, g.body, job.d + 1, kill), job.d + 1));
  }

  lemma {:induction false} SubUnfolds(q: Query, g: Forest, d: int, kill: int)
    requires g.Sub?
    ensures WellFormed(g) ==> WellFormed(g.rest)
    ensures |Encode(g.body)| < |Encode(g)| && |Encode(g.rest)| < |Encode(g)|
    ensures var k := CloseKill(ScanKill(q, g.body, d + 1, kill), d + 1);
            Yields(q, g, d, kill, NodeOut(q, g.name, g.body, d, kill), g.rest, k)
  {}

  /** Scanning g is writing part and scanning g'. */
  ghost predicate Yields(q: Query, g: Forest, d: int, kill: int, part: seq<Word>, g': Forest, kill': int) {
    ScanKill(q, g, d, kill) == ScanKill(q, g', d, kill') && ScanOut(q, g, d, kill) == part + ScanOut(q, g', d, kill')
  }

  lemma {:induction false} Move(job: Job, lex: nat, g: Forest, done: seq<Word>, now: seq<Word>, kill: int,
                                lex': nat, g': Forest, part: seq<Word>, now': seq<Word>, kill': int)
    requires Progress(job, lex, g, done, now, kill) && WellFormed(g') && |Encode(g')| <= |Encode(g)|
    requires Spliced(now, lex, part, lex', now') && Spells(now', lex', g', job.end)
    requires job.end < |now| == |now'| && now'[job.end] == now[job.end]
    requires Yields(job.q, g, job.d, kill, part, g', kill')
    ensures Progress(job, lex', g', done + part, now', kill')
  {
    assert ProgressKey(lex, g, 0);
    SpliceJoin(job.was, job.start, done, lex, now, part, lex', now');
    Reassociate(done, part, ScanOut(job.q, g', job.d, kill'));
  }

  lemma {:induction false} Reassociate(a: seq<Word>, b: seq<Word>, c: seq<Word>)
    ensures (a + b) + c == a + (b + c)
  {}

  /** A property at lex, and the zero byte behind it. */
  lemma {:induction false} PropPart(ws: seq<Word>, lex: nat, g: Forest, end: nat) returns (part: seq<Word>)
    requires g.Prop? && Spells(ws, lex, g, end) && end < |ws| && ws[end] < 0x100_0000
    ensures part == [FDT_PROP, g.len, g.off] + g.value && |g.value| == Size(g.len)
    ensures Spliced(ws, lex, part, lex + 3 + Size(g.len), ws)
    ensures lex + 3 + Size(g.len) <= |ws| && ws[lex + 1] == g.len && ws[lex + 2] == g.off
    ensures ws[lex + 3..lex + 3 + Size(g.len)] == g.value
    ensures Spells(ws, lex + 3 + Size(g.len), g.rest, end)
    ensures lex + 3 + Size(g.len) < |ws| && ws[lex + 3 + Size(g.len)] < 0x100_0000
  {
    SpellsProp(ws, lex, g.len, g.off, g.value, g.rest, end);
    part := [FDT_PROP, g.len, g.off] + g.value;
    HoldsJoin(ws, lex, [FDT_PROP, g.len, g.off], g.value);
    SpliceNothing(ws, lex, part);
    FirstWord(ws, lex + 3 + Size(g.len), g.rest, end);
    if g.rest.Done? { SpellsDone(ws, lex + 3 + Size(g.len), end); }
  }

  lemma {:induction false} SpliceEnd(was: seq<Word>, i: nat, part: seq<Word>, k: nat, now: seq<Word>, rest: Forest,
                                     end: nat)
    requires Spliced(was, i, part, k, now) && Spells(now, k, rest, end)
    ensures k <= end < |was| == |now| && now[end] == was[end]
  {
    SpliceMeans(was, i, part, k, now);
    SpellsMeans(now, k, rest, end);
  }

  /** The body of a node was replaced: so was the node, by itself with the new body. */
  lemma {:induction false} NodeSpliced(was: seq<Word>, lex: nat, name: seq<Word>, out: seq<Word>, j: nat,
                                       now: seq<Word>)
    requires lex < |was| && was[lex] == FDT_BEGIN_NODE && Holds(was, lex + 1, name) && j < |was|
    requires was[j] == FDT_END_NODE
    requires Spliced(was, lex + 1 + |name|, out, j, now)
    ensures Spliced(was, lex, [FDT_BEGIN_NODE] + name + out + [FDT_END_NODE], j + 1, now)
  {
    SpliceMeans(was, lex + 1 + |name|, out, j, now);
    SpliceMeans(was, lex, [FDT_BEGIN_NODE] + name + out + [FDT_END_NODE], j + 1, now);
    assert was[..lex + 1 + |name|] == was[..lex] + ([FDT_BEGIN_NODE] + name);
    assert was[j..] == [FDT_END_NODE] + was[j + 1..];
  }

  /** The node is either kept around its scanned body or overwritten. */
  lemma {:induction false} FinishNode(q: Query, lex: nat, name: seq<Word>, body: Forest, rest: Forest, end: nat,
                                      d: int, kill: int, was: seq<Word>, j: nat, mid: seq<Word>, now: seq<Word>)
    requires lex < |was| && was[lex] == FDT_BEGIN_NODE && Holds(was, lex + 1, name) && lex <= j
    requires SpellsBetween(was, lex + 1 + |name|, body, j, rest, end)
    requires Spliced(was, lex + 1 + |name|, ScanOut(q, body, d + 1, kill), j, mid)
    requires if ScanKill(q, body, d + 1, kill) == d + 1 then Spliced(mid, lex, NopWords(j + 1 - lex), j + 1, now)
             else now == mid
    ensures Spliced(was, lex, NodeOut(q, name, body, d, kill), j + 1, now) && Spells(now, j + 1, rest, end)
  {
    var out := ScanOut(q, body, d + 1, kill);
    var node := [FDT_BEGIN_NODE] + name + out + [FDT_END_NODE];
    NodeSpliced(was, lex, name, out, j, mid);
    ScanLength(q, body, d + 1, kill);
    SpliceMeans(was, lex, node, j + 1, mid);
    assert |node| == |EncodeNode(name, body)|;
    if ScanKill(q, body, d + 1, kill) == d + 1 { WipeSpliced(was, lex, node, j + 1, mid, now); }
    SpliceSpells(was, lex, NodeOut(q, name, body, d, kill), j + 1, now, j + 1, rest, end);
  }

  lemma {:induction false} WipeSpliced(was: seq<Word>, i: nat, a: seq<Word>, k: nat, mid: seq<Word>, now: seq<Word>)
    requires i <= k && Spliced(was, i, a, k, mid) && Spliced(mid, i, NopWords(k - i), k, now)
    ensures Spliced(was, i, NopWords(k - i), k, now)
  {
    SpliceMeans(was, i, a, k, mid);
    SpliceMeans(mid, i, NopWords(k - i), k, now);
    SpliceMeans(was, i, NopWords(k - i), k, now);
    assert mid[..i] == was[..i] && mid[k..] == was[k..];
  }

  // ---- filter_compat ----

  /** A structure block: what the words spell is well formed and ended by FDT_END. */
  ghost predicate Block(ws: seq<Word>, f: Forest, end: nat) {
    WellFormed(f) && Spells(ws, 0, f, end) && end < |ws| && ws[end] == FDT_END
  }

  /** What the filtered words spell, exactly when no surviving node sits at depth 999. */
  lemma {:induction false} FilteredSpells(q: Query, ws: seq<Word>, f: Forest, end: nat, now: seq<Word>)
    requires Block(ws, f, end) && Spliced(ws, 0, ScanOut(q, f, 0, NO_KILL), end, now) && !Listed(q, f)
    ensures !TooDeep(q, f, 0) <==> Spells(now, 0, Filter(q, f), end)
    ensures !TooDeep(q, f, 0) ==> Block(now, Filter(q, f), end) && Overwritten(ws, now)
  {
    ScanLive(q, f, 0);
    FilterShape(q, f);
    FilterOverwrites(q, f);
    WellFormedSized(Filter(q, f));
    SpellsMeans(ws, 0, f, end);
    SpellsMeans(now, 0, Filter(q, f), end);
    SpliceMeans(ws, 0, ScanOut(q, f, 0, NO_KILL), end, now);
    var out := ScanOut(q, f, 0, NO_KILL);
    assert now[..end] == out && now[end..] == ws[end..] && now[end] == ws[end];
    if !TooDeep(q, f, 0) {
      OverwrittenJoin(Encode(f), out, ws[end..], ws[end..]);
      assert ws == Encode(f) + ws[end..] && now == out + ws[end..];
    }
  }

  /** A listing property outside every node, which no devicetree has, lowers kill to 0 for good: nothing is removed. */
  lemma {:induction false} ListedAtTop(q: Query, ws: seq<Word>, f: Forest, end: nat, now: seq<Word>)
    requires Block(ws, f, end) && Spliced(ws, 0, ScanOut(q, f, 0, NO_KILL), end, now) && Listed(q, f)
    ensures now == ws
  {
    ScanListed(q, f, 0);
    SpellsMeans(ws, 0, f, end);
    SpliceMeans(ws, 0, ScanOut(q, f, 0, NO_KILL), end, now);
  }

  /** What the filtered words spell in every case. */
  lemma {:induction false} BlockLeft(q: Query, ws: seq<Word>, f: Forest, end: nat, now: seq<Word>)
    requires Block(ws, f, end) && Spliced(ws, 0, ScanOut(q, f, 0, NO_KILL), end, now)
    ensures Block(now, Filtered(q, f), end) && Overwritten(ws, now)
    ensures end <= |ws| && now == Encode(Filtered(q, f)) + ws[end..]
  {
    if Listed(q, f) { ScanListed(q, f, 0); } else { ScanLeaves(q, f, 0); }
    FilteredStays(q, f);
    BlockReplaced(ws, f, end, Filtered(q, f), now);
  }

  lemma {:induction false} BlockReplaced(ws: seq<Word>, f: Forest, end: nat, g: Forest, now: seq<Word>)
    requires Block(ws, f, end) && Spliced(ws, 0, Encode(g), end, now)
    requires WellFormed(g) && Overwritten(Encode(f), Encode(g))
    ensures Block(now, g, end) && Overwritten(ws, now) && end <= |ws| && now == Encode(g) + ws[end..]
  {
    WellFormedSized(g);
    SpellsMeans(ws, 0, f, end);
    SpliceMeans(ws, 0, Encode(g), end, now);
    assert ws == Encode(f) + ws[end..] && now == Encode(g) + ws[end..];
    OverwrittenJoin(Encode(f), Encode(g), ws[end..], ws[end..]);
    assert now[..end] == Encode(g) && now[end..] == ws[end..] && now[end] == ws[end];
    SpellsMeans(now, 0, g, end);
  }

  /** filter_compat: the buffer spells a tree with exactly the nodes that neither list the string nor lie below one that
      does nor are 999 levels deep, in their places, with their names and properties, the rest overwritten by NOPs. That
      is the block with each maximal listed subtree overwritten exactly when no node that is to survive is 999 levels
      deep; no block of a lesser height has one. A listing property outside every node disables the filter. */
  method FilterCompat(buf: array<Word>, q: Query, ghost f: Forest, ghost end: nat)
    requires 0 !in q.compat && Block(buf[..], f, end)
    modifies buf
    ensures Block(buf[..], Filtered(q, f), end) && Overwritten(old(buf[..]), buf[..])
    ensures buf[..] == Encode(Filtered(q, f)) + old(buf[..])[end..] && end <= buf.Length
    ensures Own(Filtered(q, f)) == Own(f)
    ensures Chains(Filtered(q, f), []) == if Marked(q, Own(f)) then Chains(f, []) else Staying(q, Chains(f, []))
    ensures (Listed(q, f) <==> Marked(q, Own(f))) && (TooDeep(q, f, 0) <==> DeepIn(q, Chains(f, [])))
    ensures Listed(q, f) ==> buf[..] == old(buf[..])
    ensures !Listed(q, f) ==> (Spells(buf[..], 0, Filter(q, f), end) <==> !TooDeep(q, f, 0))
    ensures !Listed(q, f) && !TooDeep(q, f, 0) ==> Block(buf[..], Filter(q, f), end)
    ensures Height(f) < NO_KILL ==> !TooDeep(q, f, 0)
    ensures Clean(Filter(q, f)) == Prune(q, Clean(f)) && NoneListed(q, Filter(q, f))
  {
    ghost var was := buf[..];
    var scan := new Scanner(buf, q);
    var next := scan.ScanHelper(0, f, end);
    if Height(f) < NO_KILL { ShallowIsFine(q, f, 0); }
    BlockLeft(q, was, f, end, buf[..]);
    if Listed(q, f) { ListedAtTop(q, was, f, end, buf[..]); } else { FilteredSpells(q, was, f, end, buf[..]); }
    FilterIsPrune(q, f);
    FilterRemovesAll(q, f);
    FilteredChains(q, f);
    ListedIff(q, f);
    TooDeepIff(q, f, []);
  }

  /** A second run changes nothing, whatever the first one met. */
  method FilterTwice(buf: array<Word>, q: Query, ghost f: Forest, ghost end: nat) returns (ghost once: seq<Word>)
    requires 0 !in q.compat && Block(buf[..], f, end)
    modifies buf
    ensures once == Encode(Filtered(q, f)) + old(buf[..])[end..] && buf[..] == once
  {
    FilterCompat(buf, q, f, end);
    once := buf[..];
    FilteredStays(q, f);
    FilterCompat(buf, q, Filtered(q, f), end);
  }

  /** At depth 999 the filter removes a node for no reason: kill rests at 999, the depth the node closes at. */
  lemma {:induction false} DeepNodeVanishes(q: Query, name: seq<Word>, body: Forest)
    ensures ScanOut(q, Sub(name, body, Done), NO_KILL - 1, NO_KILL) == NopWords(|EncodeNode(name, body)|)
  {
    ScanTooDeep(q, body, NO_KILL);
    assert NopWords(|EncodeNode(name, body)|) + [] == NopWords(|EncodeNode(name, body)|);
  }
}
