/** The open-file table of pk/file.c: a slot's count is zero without references and one more than its
    references otherwise. Each function is one step, as pk runs on one hart. */
module Files {
  import opened Vm

  datatype Table = Table(refs: seq<nat>, fds: seq<Option<nat>>)

  // ---- the functions of file.c, on values ----

  /** The first slot with a zero count, at or above i. */
  function FreeSlot(refs: seq<nat>, i: nat): (f: nat)
    requires i <= |refs|
    ensures i <= f <= |refs| && (f < |refs| ==> refs[f] == 0) && forall k :: i <= k < f ==> refs[k] != 0
    decreases |refs| - i
  {
    if i == |refs| || refs[i] == 0 then i else FreeSlot(refs, i + 1)
  }

  /** The first empty descriptor, at or above i. */
  function FreeFd(fds: seq<Option<nat>>, i: nat): (d: nat)
    requires i <= |fds|
    ensures i <= d <= |fds| && (d < |fds| ==> fds[d].None?) && forall k :: i <= k < d ==> fds[k].Some?
    decreases |fds| - i
  {
    if i == |fds| || fds[i].None? then i else FreeFd(fds, i + 1)
  }

  /** file_get_free: the new slot starts at 2, one base reference and one for the caller. */
  function GetFree(t: Table): (Table, Option<nat>) {
    var f := FreeSlot(t.refs, 0);
    if f == |t.refs| then (t, None) else (t.(refs := t.refs[f := 2]), Some(f))
  }

  /** file_dup */
  function Dup(t: Table, f: nat): (Table, Option<nat>) {
    var d := FreeFd(t.fds, 0);
    if d == |t.fds| then (t, None) else (Table(FileIncref(t.refs, f), t.fds[d := Some(f)]), Some(d))
  }

  /** file_get */
  function Get(t: Table, fd: int): (Table, Option<nat>) {
    if fd < 0 || fd >= |t.fds| || t.fds[fd].None? then (t, None)
    else
      var f := t.fds[fd].value;
      if f >= |t.refs| || t.refs[f] == 0 then (t, None) else (t.(refs := FileIncref(t.refs, f)), Some(f))
  }

  function Drop(t: Table, f: nat): Table { t.(refs := FileDecref(t.refs, f)) }

  /** fd_close */
  function Close(t: Table, fd: int): (Table, bool) {
    var (t1, f) := Get(t, fd);
    if f.None? then (t1, false)
    else (Drop(Drop(t1.(fds := t1.fds[fd := None]), f.value), f.value), true)
  }

  // ---- the invariant ----

  ghost function Naming(fds: seq<Option<nat>>, f: nat): set<nat> {
    set d | 0 <= d < |fds| && fds[d] == Some(f)
  }

  /** k references, counted outside the table by outside[f] and inside it by the descriptors naming f. */
  ghost predicate SlotOk(t: Table, outside: seq<nat>, f: nat)
    requires f < |t.refs| == |outside|
  {
    var k := |Naming(t.fds, f)| + outside[f];
    t.refs[f] == if k == 0 then 0 else k + 1
  }

  ghost predicate TableOk(t: Table, outside: seq<nat>) {
    && |outside| == |t.refs|
    && (forall d :: 0 <= d < |t.fds| && t.fds[d].Some? ==> t.fds[d].value < |t.refs|)
    && (forall f :: 0 <= f < |t.refs| ==> outside[f] + |t.fds| + 3 < W32 && SlotOk(t, outside, f))
  }

  // ---- every step keeps it ----

  lemma {:induction false} NamingBound(fds: seq<Option<nat>>, f: nat)
    ensures |Naming(fds, f)| <= |fds|
  {
    SubsetOfRange(Naming(fds, f), |fds|);
  }

  lemma {:induction false} NamingWith(fds: seq<Option<nat>>, d: nat, g: nat, f: nat)
    requires d < |fds| && fds[d].None?
    ensures |Naming(fds[d := Some(g)], f)| == |Naming(fds, f)| + (if f == g then 1 else 0)
  {
    assert Naming(fds[d := Some(g)], f) == if f == g then Naming(fds, f) + {d} else Naming(fds, f);
  }

  lemma {:induction false} NamingWithout(fds: seq<Option<nat>>, d: nat, f: nat)
    requires d < |fds| && fds[d].Some?
    ensures |Naming(fds[d := None], f)| == |Naming(fds, f)| - (if fds[d] == Some(f) then 1 else 0)
  {
    if fds[d] == Some(f) { assert d in Naming(fds, f); }
    assert Naming(fds[d := None], f) == if fds[d] == Some(f) then Naming(fds, f) - {d} else Naming(fds, f);
  }

  function Bump(s: seq<nat>, f: nat): seq<nat> { if f < |s| then s[f := s[f] + 1] else s }
  function Unbump(s: seq<nat>, f: nat): seq<nat> { if f < |s| && s[f] > 0 then s[f := s[f] - 1] else s }

  /** Taking a reference to a live slot. */
  lemma {:induction false} IncrefOk(t: Table, outside: seq<nat>, f: nat)
    requires TableOk(t, outside) && f < |t.refs| && t.refs[f] > 0 && outside[f] + |t.fds| + 4 < W32
    ensures TableOk(t.(refs := FileIncref(t.refs, f)), Bump(outside, f))
  {
    NamingBound(t.fds, f);
    forall g | 0 <= g < |t.refs| ensures SlotOk(t.(refs := FileIncref(t.refs, f)), Bump(outside, f), g) {
      assert SlotOk(t, outside, g);
    }
  }

  /** Dropping a reference: the count becomes zero exactly when it was the last one. */
  lemma {:induction false} DropOk(t: Table, outside: seq<nat>, f: nat)
    requires TableOk(t, outside) && f < |t.refs| && outside[f] > 0
    ensures TableOk(Drop(t, f), Unbump(outside, f))
    ensures Drop(t, f).refs[f] == 0 <==> |Naming(t.fds, f)| + outside[f] == 1
  {
    forall g | 0 <= g < |t.refs| ensures SlotOk(Drop(t, f), Unbump(outside, f), g) {
      assert SlotOk(t, outside, g);
    }
  }

  /** Moving a reference from the caller to a descriptor, or back. */
  lemma {:induction false} StoreFdOk(t: Table, outside: seq<nat>, d: nat, f: nat)
    requires TableOk(t, outside) && d < |t.fds| && t.fds[d].None? && f < |t.refs| && outside[f] > 0
    ensures TableOk(t.(fds := t.fds[d := Some(f)]), Unbump(outside, f))
  {
    var t' := t.(fds := t.fds[d := Some(f)]);
    forall g | 0 <= g < |t.refs|
      ensures SlotOk(t', Unbump(outside, f), g) && Unbump(outside, f)[g] + |t'.fds| + 3 < W32
    {
      assert SlotOk(t, outside, g);
      NamingWith(t.fds, d, f, g);
    }
  }

  lemma {:induction false} ClearFdOk(t: Table, outside: seq<nat>, d: nat)
    requires TableOk(t, outside) && d < |t.fds| && t.fds[d].Some? && outside[t.fds[d].value] + |t.fds| + 4 < W32
    ensures TableOk(t.(fds := t.fds[d := None]), Bump(outside, t.fds[d].value))
  {
    var f := t.fds[d].value;
    var t' := t.(fds := t.fds[d := None]);
    forall g | 0 <= g < |t.refs|
      ensures SlotOk(t', Bump(outside, f), g) && Bump(outside, f)[g] + |t'.fds| + 3 < W32
    {
      assert SlotOk(t, outside, g);
      NamingWithout(t.fds, d, g);
    }
  }

  lemma {:induction false} GetFreeOk(t: Table, outside: seq<nat>)
    requires TableOk(t, outside) && forall f :: 0 <= f < |outside| ==> outside[f] + |t.fds| + 4 < W32
    ensures var (t', f) := GetFree(t);
            f.None? ==> t' == t && forall k :: 0 <= k < |t.refs| ==> t.refs[k] != 0
    ensures var (t', f) := GetFree(t);
            f.Some? ==>
            f.value < |t.refs| && outside[f.value] == 0 && TableOk(t', Bump(outside, f.value))
  {
    var (t', f) := GetFree(t);
    if f.Some? {
      assert SlotOk(t, outside, f.value);
      forall g | 0 <= g < |t.refs| ensures SlotOk(t', Bump(outside, f.value), g) { assert SlotOk(t, outside, g); }
    }
  }

  /** file_dup of a slot the caller holds: one more descriptor names it, and the caller keeps its reference. */
  lemma {:induction false} DupOk(t: Table, outside: seq<nat>, f: nat)
    requires TableOk(t, outside) && f < |t.refs| && outside[f] > 0 && outside[f] + |t.fds| + 4 < W32
    ensures var (t', d) := Dup(t, f); TableOk(t', outside)
    ensures var (t', d) := Dup(t, f); d.None? ==> t' == t && forall k :: 0 <= k < |t.fds| ==> t.fds[k].Some?
    ensures var (t', d) := Dup(t, f); d.Some? ==> d.value < |t.fds| && t'.fds == t.fds[d.value := Some(f)]
  {
    var (t', d) := Dup(t, f);
    if d.Some? {
      assert SlotOk(t, outside, f);
      IncrefOk(t, outside, f);
      StoreFdOk(t.(refs := FileIncref(t.refs, f)), Bump(outside, f), d.value, f);
      assert Unbump(Bump(outside, f), f) == outside;
    }
  }

  /** file_get: a descriptor that names a slot yields a counted reference to it. */
  lemma {:induction false} GetOk(t: Table, outside: seq<nat>, fd: int)
    requires TableOk(t, outside) && forall f :: 0 <= f < |outside| ==> outside[f] + |t.fds| + 4 < W32
    ensures var (t', f) := Get(t, fd);
            if 0 <= fd < |t.fds| && t.fds[fd].Some?
            then f == t.fds[fd] && t'.fds == t.fds && TableOk(t', Bump(outside, f.value))
            else f.None? && t' == t
  {
    if 0 <= fd < |t.fds| && t.fds[fd].Some? {
      var f := t.fds[fd].value;
      assert SlotOk(t, outside, f);
      assert fd in Naming(t.fds, f);
      IncrefOk(t, outside, f);
    }
  }

  /** fd_close: the descriptor gives up its reference and nothing else changes. */
  lemma {:induction false} CloseOk(t: Table, outside: seq<nat>, fd: int)
    requires TableOk(t, outside) && forall f :: 0 <= f < |outside| ==> outside[f] + |t.fds| + 5 < W32
    ensures var (t', ok) := Close(t, fd);
            TableOk(t', outside) &&
            (ok <==> 0 <= fd < |t.fds| && t.fds[fd].Some?) &&
            (if ok then t'.fds == t.fds[fd := None] else t' == t)
  {
    GetOk(t, outside, fd);
    var (t1, f) := Get(t, fd);
    if f.Some? {
      var o1 := Bump(outside, f.value);
      ClearFdOk(t1, o1, fd);
      var t2, o2 := t1.(fds := t1.fds[fd := None]), Bump(o1, f.value);
      DropOk(t2, o2, f.value);
      DropOk(Drop(t2, f.value), Unbump(o2, f.value), f.value);
      assert Unbump(Unbump(o2, f.value), f.value) == outside;
    }
  }

  // ---- the table as file.c keeps it ----

  class FileTable {
    const refs: array<nat>
    const fds: array<Option<nat>>
    ghost var outside: seq<nat>          // references held by callers and region records

    ghost function T(): Table
      reads refs, fds
    {
      Table(refs[..], fds[..])
    }

    ghost predicate Valid()
      reads this, refs, fds
    {
      TableOk(T(), outside) && forall f :: 0 <= f < |outside| ==> outside[f] + fds.Length + 5 < W32
    }

    constructor (maxFiles: nat, maxFds: nat)
      requires maxFds + 5 < W32
      ensures Valid() && fresh(refs) && fresh(fds) && refs.Length == maxFiles && fds.Length == maxFds
      ensures forall f :: 0 <= f < maxFiles ==> outside[f] == 0 && refs[f] == 0
    {
      refs := new nat[maxFiles](_ => 0);
      fds := new Option<nat>[maxFds](_ => None);
      outside := seq(maxFiles, _ => 0);
      new;
      forall f | 0 <= f < maxFiles ensures SlotOk(T(), outside, f) {
        assert Naming(fds[..], f) == {};
      }
    }

    /** file_get_free */
    method FileGetFree() returns (f: Option<nat>)
      requires Valid()
      modifies this`outside, refs
      ensures (T(), f) == GetFree(old(T())) && TableOk(T(), outside)
      ensures outside == if f.Some? then Bump(old(outside), f.value) else old(outside)
    {
      GetFreeOk(T(), outside);
      var i := 0;
      while i < refs.Length
        invariant 0 <= i <= refs.Length && FreeSlot(refs[..], 0) == FreeSlot(refs[..], i)
      {
        if refs[i] == 0 {
          refs[i] := 2;
          outside := Bump(outside, i);
          assert refs[..] == old(refs[..])[i := 2];
          return Some(i);
        }
        i := i + 1;
      }
      return None;
    }

    /** file_dup of a slot the caller holds */
    method FileDup(f: nat) returns (d: Option<nat>)
      requires Valid() && f < refs.Length && outside[f] > 0
      modifies refs, fds
      ensures (T(), d) == Dup(old(T()), f) && Valid()
    {
      DupOk(T(), outside, f);
      var i := 0;
      while i < fds.Length
        invariant 0 <= i <= fds.Length && FreeFd(fds[..], 0) == FreeFd(fds[..], i)
      {
        if fds[i].None? {
          fds[i] := Some(f);
          refs[f] := (refs[f] + 1) % W32;
          assert refs[..] == FileIncref(old(refs[..]), f) && fds[..] == old(fds[..])[i := Some(f)];
          return Some(i);
        }
        i := i + 1;
      }
      return None;
    }

    /** fd_close */
    method FdClose(fd: int) returns (ok: bool)
      requires Valid()
      modifies refs, fds
      ensures (T(), ok) == Close(old(T()), fd) && Valid()
    {
      CloseOk(T(), outside, fd);
      GetOk(T(), outside, fd);
      if fd < 0 || fd >= fds.Length || fds[fd].None? { return false; }
      var f := fds[fd].value;
      if refs[f] == 0 { return false; }
      refs[f] := (refs[f] + 1) % W32;
      assert refs[..] == FileIncref(old(refs[..]), f);
      fds[fd] := None;
      assert fds[..] == old(fds[..])[fd := None];
      FileDecref(f);
      FileDecref(f);
      ok := true;
    }

    /** file_decref: dropping the last reference skips the base value and frees the slot. */
    method FileDecref(f: nat)
      requires f < refs.Length
      modifies refs
      ensures T() == Drop(old(T()), f)
    {
      var was := refs[f];
      refs[f] := if was == 2 then 0 else if was == 0 then W32 - 1 else was - 1;
      assert refs[..] == Vm.FileDecref(old(refs[..]), f);
    }
  }
}
