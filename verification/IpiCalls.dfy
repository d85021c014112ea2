/** What send_ipi_many sends: in every interleaving exactly its event, to exactly the harts of its mask. */
module IpiCalls {
  import opened Ipi

  /** What a step of a hart does for others to see. */
  datatype Deed = Posted(k: nat, event: Event) | Rang(k: nat) | SawClear(k: nat)

  ghost function DeedOf(s: State, j: nat): Option<Deed>
    requires Shaped(s) && j < |s.pc|
  {
    assert PcOk(s.pc[j], |s.pc|);
    match s.pc[j]
    case Post(todo, event, _) => if todo != [] && todo[0] !in s.disabled then Some(Posted(todo[0], event)) else None
    case Ring(todo, _, _) => Some(Rang(todo[0]))
    case Wait(todo, _) => if todo != [] && !s.ipi[todo[0]] then Some(SawClear(todo[0])) else None
    case _ => None
  }

  /** The deeds are what happens: posting makes the very event pending at the recipient, ringing sets its ipi, seeing it
      clear is reading it so; and a step without one adds nothing to what is pending anywhere and sets no ipi but the
      hart's own. */
  lemma {:induction false} DeedIs(s: State, j: nat)
    requires Inv(s) && j < |s.pc|
    ensures var s' := Move(s, j);
            match DeedOf(s, j)
            case None =>
              && |s'.pending| == |s'.ipi| == |s.pc|
              && forall i :: 0 <= i < |s.pc| ==> s'.pending[i] <= s.pending[i] && (s'.ipi[i] ==> s.ipi[i] || i == j)
            case Some(d) =>
              && d.k < |s.pc|
              && match d
                 case Posted(k, event) => s'.pending == s.pending[k := s.pending[k] + {event}] && s'.ipi == s.ipi
                 case Rang(k) => s'.ipi == s.ipi[k := true] && s'.pending == s.pending
                 case SawClear(k) => !s.ipi[k] && s'.ipi == s.ipi && s'.pending == s.pending
  {
    assert PcOk(s.pc[j], |s.pc|);
  }

  /** The deeds of hart j in a run, in order. */
  ghost function Does(s: State, acts: seq<Act>, j: nat): seq<Deed>
    requires Inv(s) && j < |s.pc| && Runs(s, acts).Some?
    decreases |acts|
  {
    if acts == [] then []
    else
      StepKeeps(s, acts[0]);
      (if acts[0] == Run(j) then First(s, j) else []) + Does(Step(s, acts[0]).value, acts[1..], j)
  }

  /** Each hart that is not disabled is posted the event and rung; each hart of the mask is seen clear. */
  function Sends(ts: seq<nat>, event: Event, disabled: set<nat>): seq<Deed> {
    if ts == [] then []
    else (if ts[0] in disabled then [] else [Posted(ts[0], event), Rang(ts[0])]) + Sends(ts[1..], event, disabled)
  }

  function Sees(ts: seq<nat>): seq<Deed> { if ts == [] then [] else [SawClear(ts[0])] + Sees(ts[1..]) }

  function Script(ts: seq<nat>, event: Event, disabled: set<nat>): seq<Deed> {
    Sends(ts, event, disabled) + if event.Soft? then [] else Sees(ts)
  }

  /** What a hart has still to do before it is back. */
  function Rest(p: Pc, disabled: set<nat>): seq<Deed> {
    match p
    case Post(todo, event, all) => Sends(todo, event, disabled) + if event.Soft? then [] else Sees(all)
    case Ring(todo, event, all) =>
      if todo == [] then []
      else [Rang(todo[0])] + Sends(todo[1..], event, disabled) + if event.Soft? then [] else Sees(all)
    case Wait(todo, _) => Sees(todo)
    case Swap(todo, _) => Sees(todo)
    case _ => []
  }

  /** Every step does the first of what is left. */
  lemma {:induction false} MoveRest(s: State, j: nat)
    requires Inv(s) && j < |s.pc|
    ensures |Move(s, j).pc| == |s.pc| && Move(s, j).disabled == s.disabled
    ensures Rest(s.pc[j], s.disabled) == First(s, j) + Rest(Move(s, j).pc[j], s.disabled)
  {
    assert PcOk(s.pc[j], |s.pc|);
    match s.pc[j] {
      case Post(_, _, _) => MovePost(s, j);
      case Ring(todo, event, all) => RingRest(todo, event, all, s.disabled);
      case Wait(_, _) => MoveWait(s, j);
      case _ =>
    }
  }

  ghost function First(s: State, j: nat): seq<Deed>
    requires Shaped(s) && j < |s.pc|
  {
    if DeedOf(s, j).Some? then [DeedOf(s, j).value] else []
  }

  lemma {:induction false} MovePost(s: State, j: nat)
    requires Inv(s) && j < |s.pc| && s.pc[j].Post?
    ensures |Move(s, j).pc| == |s.pc|
    ensures Rest(s.pc[j], s.disabled) == First(s, j) + Rest(Move(s, j).pc[j], s.disabled)
  {
    assert PcOk(s.pc[j], |s.pc|);
    PostRest(s.pc[j].todo, s.pc[j].event, s.pc[j].all, s.disabled);
    assert [] + Rest(Move(s, j).pc[j], s.disabled) == Rest(Move(s, j).pc[j], s.disabled);
  }

  lemma {:induction false} MoveWait(s: State, j: nat)
    requires Inv(s) && j < |s.pc| && s.pc[j].Wait?
    ensures |Move(s, j).pc| == |s.pc|
    ensures Rest(s.pc[j], s.disabled) == First(s, j) + Rest(Move(s, j).pc[j], s.disabled)
  {
    assert PcOk(s.pc[j], |s.pc|);
  }

  lemma {:induction false} PostRest(todo: seq<nat>, event: Event, all: seq<nat>, disabled: set<nat>)
    ensures Rest(Post(todo, event, all), disabled) ==
            if todo == [] then Rest(if event.Soft? then Idle else Wait(all, false), disabled)
            else if todo[0] in disabled then Rest(Post(todo[1..], event, all), disabled)
            else [Posted(todo[0], event)] + Rest(Ring(todo, event, all), disabled)
  {
    if todo != [] && todo[0] !in disabled {
      var more, last := Sends(todo[1..], event, disabled), if event.Soft? then [] else Sees(all);
      var p, r := [Posted(todo[0], event)], [Rang(todo[0])];
      assert [Posted(todo[0], event), Rang(todo[0])] == p + r;
      assert ((p + r) + more) + last == p + (r + more + last);
    }
  }

  lemma {:induction false} RingRest(todo: seq<nat>, event: Event, all: seq<nat>, disabled: set<nat>)
    requires todo != []
    ensures Rest(Ring(todo, event, all), disabled) == [Rang(todo[0])] + Rest(Post(todo[1..], event, all), disabled)
  {
    var more, last := Sends(todo[1..], event, disabled), if event.Soft? then [] else Sees(all);
    assert [Rang(todo[0])] + more + last == [Rang(todo[0])] + (more + last);
  }

  /** A hart that is neither called nor interrupted again does exactly what was left for it to do, in order. */
  lemma {:induction false} RunDoes(s: State, acts: seq<Act>, j: nat)
    requires Inv(s) && j < |s.pc| && Runs(s, acts).Some? && forall a :: a in acts && a.j == j ==> a.Run?
    ensures var t := Runs(s, acts).value;
            && |t.pc| == |s.pc| && t.disabled == s.disabled
            && Rest(s.pc[j], s.disabled) == Does(s, acts, j) + Rest(t.pc[j], s.disabled)
    decreases |acts|
  {
    if acts != [] {
      StepKeeps(s, acts[0]);
      var s1 := Step(s, acts[0]).value;
      assert acts[0] in acts;
      StepRest(s, acts[0], j);
      RunDoes(s1, acts[1..], j);
      JoinDeeds(if acts[0] == Run(j) then First(s, j) else [], Does(s1, acts[1..], j),
                Rest(Runs(s, acts).value.pc[j], s.disabled));
    }
  }

  lemma {:induction false} JoinDeeds(a: seq<Deed>, b: seq<Deed>, c: seq<Deed>)
    ensures a + (b + c) == (a + b) + c
  {}

  lemma {:induction false} StepRest(s: State, act: Act, j: nat)
    requires Inv(s) && j < |s.pc| && Step(s, act).Some? && (act.j == j ==> act.Run?)
    ensures var s' := Step(s, act).value;
            && |s'.pc| == |s.pc| && s'.disabled == s.disabled
            && Rest(s.pc[j], s.disabled) ==
               (if act == Run(j) then First(s, j) else []) + Rest(s'.pc[j], s.disabled)
  {
    if act.Run? { MoveRest(s, act.j); }
  }

  lemma {:induction false} SendsAre(ts: seq<nat>, event: Event, disabled: set<nat>, d: Deed)
    ensures d in Sends(ts, event, disabled) <==>
            d.k in ts && d.k !in disabled && (d == Posted(d.k, event) || d.Rang?)
    decreases |ts|
  {
    if ts != [] { SendsAre(ts[1..], event, disabled, d); }
  }

  lemma {:induction false} SeesAre(ts: seq<nat>, d: Deed)
    ensures d in Sees(ts) <==> d.k in ts && d.SawClear?
    decreases |ts|
  {
    if ts != [] { SeesAre(ts[1..], d); }
  }

  /** There is one list of the harts of a mask in order. */
  lemma {:induction false} AscendingUnique(a: seq<nat>, b: seq<nat>)
    requires Ascending(a) && Ascending(b) && forall k: nat :: k in a <==> k in b
    ensures a == b
    decreases |a|
  {
    HasFirst(a);
    HasFirst(b);
    if a != [] {
      FirstIsLeast(a, b[0]);
      FirstIsLeast(b, a[0]);
      TailOf(a);
      TailOf(b);
      AscendingUnique(a[1..], b[1..]);
    }
  }

  lemma {:induction false} HasFirst(ts: seq<nat>)
    ensures ts != [] ==> ts[0] in ts
  {}

  lemma {:induction false} FirstIsLeast(ts: seq<nat>, k: nat)
    requires Ascending(ts) && k in ts
    ensures ts[0] <= k
  {}

  lemma {:induction false} TailOf(ts: seq<nat>)
    requires Ascending(ts) && ts != []
    ensures Ascending(ts[1..]) && forall k: nat :: k in ts[1..] <==> k in ts && k != ts[0]
  {
    forall i, j | 0 <= i < j < |ts[1..]| ensures ts[1..][i] < ts[1..][j] { assert ts[i + 1] < ts[j + 1]; }
    forall k: nat ensures k in ts[1..] <==> k in ts && k != ts[0] {
      if k in ts[1..] { var i :| 0 <= i < |ts[1..]| && ts[1..][i] == k; assert ts[i + 1] == k && ts[0] < ts[i + 1]; }
    }
  }

  /** send_ipi_many, in every interleaving: by the time the caller has sent, it has, for each hart of the mask in
      ascending order that is not disabled, posted this very event and rung, and no other hart; by the time it is back
      from an event other than a software interrupt it has then seen the ipi of each hart of the mask clear. */
  lemma {:induction false} CallDoes(s: State, j: nat, mask: nat, event: Event, acts: seq<Act>, ts: seq<nat>)
    requires Inv(s) && Step(s, Call(j, mask, event)).Some? && Inv(Step(s, Call(j, mask, event)).value)
    requires Ascending(ts) && forall k: nat :: k in ts <==> BitSet(mask, k)
    requires Runs(Step(s, Call(j, mask, event)).value, acts).Some? && forall a :: a in acts && a.j == j ==> a.Run?
    ensures var s1 := Step(s, Call(j, mask, event)).value;
            var t, does := Runs(s1, acts).value, Does(s1, acts, j);
            && j < |t.pc|
            && (t.pc[j].Idle? ==> does == Script(ts, event, s.disabled))
            && (t.pc[j].Wait? || t.pc[j].Swap? || t.pc[j].Restore? ==> Sends(ts, event, s.disabled) <= does)
            && does <= Script(ts, event, s.disabled)
  {
    BitsAre(mask, 0);
    forall k: nat ensures k in Bits(mask, 0) <==> k in ts { assert k in Bits(mask, 0) <==> BitSet(mask, k - 0); }
    AscendingUnique(Bits(mask, 0), ts);
    var s1 := Step(s, Call(j, mask, event)).value;
    RunDoes(s1, acts, j);
    StaysThrough(s1, acts, j, ts, event);
    var p := Runs(s1, acts).value.pc[j];
    if p.Wait? || p.Swap? || p.Restore? { SentAll(p, ts, event, s.disabled, Does(s1, acts, j)); }
  }

  /** A hart on its way through the call: while it waits it has no more to see than the harts of the mask. */
  predicate Through(p: Pc, ts: seq<nat>, event: Event) {
    match p
    case Post(_, e, all) => e == event && all == ts
    case Ring(_, e, all) => e == event && all == ts
    case Wait(todo, _) => |todo| <= |ts| && !event.Soft?
    case Swap(todo, _) => |todo| <= |ts| && !event.Soft?
    case Restore(_) => !event.Soft?
    case Idle => true
    case _ => false
  }

  lemma {:induction false} StaysThrough(s: State, acts: seq<Act>, j: nat, ts: seq<nat>, event: Event)
    requires Inv(s) && j < |s.pc| && Runs(s, acts).Some? && (forall a :: a in acts && a.j == j ==> a.Run?)
    requires Through(s.pc[j], ts, event)
    ensures j < |Runs(s, acts).value.pc| && Through(Runs(s, acts).value.pc[j], ts, event)
    decreases |acts|
  {
    if acts != [] {
      StepKeeps(s, acts[0]);
      assert acts[0] in acts;
      if acts[0].Run? { MoveShaped(s, acts[0].j); }
      StaysThrough(Step(s, acts[0]).value, acts[1..], j, ts, event);
    }
  }

  lemma {:induction false} SeesLength(ts: seq<nat>)
    ensures |Sees(ts)| == |ts|
    decreases |ts|
  {
    if ts != [] { SeesLength(ts[1..]); }
  }

  /** So it has sent everything by then. */
  lemma {:induction false} SentAll(p: Pc, ts: seq<nat>, event: Event, disabled: set<nat>, does: seq<Deed>)
    requires Through(p, ts, event) && (p.Wait? || p.Swap? || p.Restore?)
    requires Script(ts, event, disabled) == does + Rest(p, disabled)
    ensures Sends(ts, event, disabled) <= does
  {
    SeesLength(ts);
    if !p.Restore? { SeesLength(p.todo); }
    assert |does| >= |Sends(ts, event, disabled)|;
    assert (does + Rest(p, disabled))[..|Sends(ts, event, disabled)|] == does[..|Sends(ts, event, disabled)|];
  }

  /** So the harts that are sent the event and rung are those of the mask that are not disabled, and for anything but a
      software interrupt those seen clear are all of the mask. */
  lemma {:induction false} ScriptIs(ts: seq<nat>, mask: nat, event: Event, disabled: set<nat>, d: Deed)
    requires forall k: nat :: k in ts <==> BitSet(mask, k)
    ensures d in Script(ts, event, disabled) <==>
            BitSet(mask, d.k) &&
            match d
            case Posted(k, e) => e == event && k !in disabled
            case Rang(k) => k !in disabled
            case SawClear(_) => !event.Soft?
  {
    SendsAre(ts, event, disabled, d);
    SeesAre(ts, d);
  }
}
