/** Inter-processor interrupts of machine/mtrap.c and machine/mentry.S: any number of harts send events to each
    other, wait for each other and handle what they receive, one shared access a step, in any interleaving. */
module Ipi {
  datatype Option<T> = None | Some(value: T)

  datatype Event = Soft | FenceI | SfenceVma | Halt

  // ---- the mask ----

  predicate BitSet(mask: nat, k: nat) { if k == 0 then mask % 2 == 1 else BitSet(mask / 2, k - 1) }

  lemma {:induction false} NoBits(k: nat)
    ensures !BitSet(0, k)
    decreases k
  {
    if k > 0 { NoBits(k - 1); }
  }

  ghost predicate Ascending(ts: seq<nat>) { forall i, j :: 0 <= i < j < |ts| ==> ts[i] < ts[j] }

  ghost function Bits(m: nat, i: nat): seq<nat> {
    if m == 0 then [] else (if m % 2 == 1 then [i] else []) + Bits(m / 2, i + 1)
  }

  lemma {:induction false} BitsAre(m: nat, i: nat)
    ensures Ascending(Bits(m, i)) && forall k: nat :: k in Bits(m, i) <==> k >= i && BitSet(m, k - i)
    decreases m
  {
    var ts := Bits(m, i);
    if m == 0 {
      forall k: nat ensures k in ts <==> k >= i && BitSet(m, k - i) { if k >= i { NoBits(k - i); } }
    } else {
      BitsAre(m / 2, i + 1);
      var more := Bits(m / 2, i + 1);
      forall k: nat ensures k in ts <==> k >= i && BitSet(m, k - i) {
        assert k in more <==> k >= i + 1 && BitSet(m / 2, k - (i + 1));
      }
      assert forall x :: 0 <= x < |more| ==> more[x] in more && more[x] >= i + 1;
    }
  }

  lemma {:induction false} Regroup(a: seq<nat>, b: seq<nat>, c: seq<nat>)
    ensures (a + b) + c == a + (b + c)
  {}

  /** The loop `for (i = 0, m = mask; m; i++, m >>= 1) if (m & 1)` visits exactly the harts of the mask, in order. */
  method Targets(mask: nat) returns (ts: seq<nat>)
    ensures ts == Bits(mask, 0) && Ascending(ts) && forall k: nat :: k in ts <==> BitSet(mask, k)
  {
    ts := [];
    var i, m := 0, mask;
    while m != 0
      invariant ts + Bits(m, i) == Bits(mask, 0)
    {
      Regroup(ts, if m % 2 == 1 then [i] else [], Bits(m / 2, i + 1));
      ts := ts + if m % 2 == 1 then [i] else [];
      i, m := i + 1, m / 2;
    }
    BitsAre(mask, 0);
    assert ts == Bits(mask, 0);
    forall k: nat ensures k in ts <==> BitSet(mask, k) { assert k in Bits(mask, 0) <==> BitSet(mask, k - 0); }
  }

  // ---- the state ----

  datatype Pc =
    | Idle
    | Post(todo: seq<nat>, event: Event, all: seq<nat>)     // send_ipi: about to set the event bit of todo[0]
    | Ring(todo: seq<nat>, event: Event, all: seq<nat>)     // about to set its ipi
    | Wait(todo: seq<nat>, incoming: bool)                  // about to read the ipi of todo[0]
    | Swap(todo: seq<nat>, incoming: bool)                  // read it as set: about to consume its own
    | Restore(incoming: bool)                               // about to put back what it consumed
    | Clear                                                 // handler: about to clear its ipi
    | Take                                                  // about to take its pending events
    | Halted

  /** owing[i] is history: the harts that have posted an event to hart i which its handler has not taken since. */
  datatype State = State(ipi: seq<bool>, pending: seq<set<Event>>, pc: seq<Pc>, disabled: set<nat>,
                         owing: seq<set<nat>>)

  ghost predicate Shaped(s: State) {
    && |s.ipi| == |s.pending| == |s.owing| == |s.pc|
    && forall j :: 0 <= j < |s.pc| ==> PcOk(s.pc[j], |s.pc|)
  }

  ghost predicate Below(ts: seq<nat>, n: nat) { forall k :: 0 <= k < |ts| ==> ts[k] < n }

  /** Harts in the order of the mask. */
  ghost predicate Harts(ts: seq<nat>, n: nat) { Below(ts, n) && Ascending(ts) }

  lemma {:induction false} RestHarts(ts: seq<nat>, n: nat)
    requires ts != [] && Harts(ts, n)
    ensures Harts(ts[1..], n) && ts[0] !in ts[1..]
  {
    forall k | 0 <= k < |ts[1..]| ensures ts[1..][k] < n && ts[1..][k] != ts[0] { assert ts[1..][k] == ts[k + 1]; }
  }

  ghost predicate PcOk(p: Pc, n: nat) {
    match p
    case Post(todo, _, all) => Harts(todo, n) && Harts(all, n)
    case Ring(todo, _, all) => todo != [] && Harts(todo, n) && Harts(all, n)
    case Wait(todo, _) => Harts(todo, n)
    case Swap(todo, _) => todo != [] && Harts(todo, n)
    case _ => true
  }

  datatype Act = Call(j: nat, mask: nat, event: Event) | Interrupt(j: nat) | Run(j: nat)

  function Set(s: State, j: nat, p: Pc): State
    requires j < |s.pc|
  {
    s.(pc := s.pc[j := p])
  }

  /** One step of hart j. */
  ghost function Move(s: State, j: nat): State
    requires Shaped(s) && j < |s.pc|
  {
    var p := s.pc[j];
    assert PcOk(p, |s.pc|);
    match p
    case Post(todo, event, all) =>
      if todo == [] then Set(s, j, if event.Soft? then Idle else Wait(all, false))
      else if todo[0] in s.disabled then Set(s, j, Post(todo[1..], event, all))
      else
        var i := todo[0];
        Set(s.(pending := s.pending[i := s.pending[i] + {event}], owing := s.owing[i := s.owing[i] + {j}]), j,
            Ring(todo, event, all))
    case Ring(todo, event, all) => Set(s.(ipi := s.ipi[todo[0] := true]), j, Post(todo[1..], event, all))
    case Wait(todo, incoming) =>
      if todo == [] then Set(s, j, Restore(incoming))
      else if s.ipi[todo[0]] then Set(s, j, Swap(todo, incoming))
      else Set(s, j, Wait(todo[1..], incoming))
    case Swap(todo, incoming) => Set(s.(ipi := s.ipi[j := false]), j, Wait(todo, incoming || s.ipi[j]))
    case Restore(incoming) => Set(if incoming then s.(ipi := s.ipi[j := true]) else s, j, Idle)
    case Clear => Set(s.(ipi := s.ipi[j := false]), j, Take)
    case Take => Set(s.(pending := s.pending[j := {}], owing := s.owing[j := {}]), j,
                     if Halt in s.pending[j] then Halted else Idle)
    case _ => s
  }

  /** One step of the system, or nothing if it cannot happen: a hart takes an interrupt, or is called, only when it is
      not already in machine mode. */
  ghost function Step(s: State, act: Act): Option<State>
    requires Shaped(s)
  {
    match act
    case Call(j, mask, event) =>
      var targets := Bits(mask, 0);
      if j < |s.pc| && s.pc[j].Idle? && Below(targets, |s.pc|)
      then Some(Set(s, j, Post(targets, event, targets)))
      else None
    case Interrupt(j) => if j < |s.pc| && s.pc[j].Idle? && s.ipi[j] then Some(Set(s, j, Clear)) else None
    case Run(j) => if j < |s.pc| && !s.pc[j].Idle? && !s.pc[j].Halted? then Some(Move(s, j)) else None
  }

  // ---- no interrupt is lost ----

  predicate Holding(p: Pc) { (p.Wait? || p.Swap? || p.Restore?) && p.incoming }

  predicate Rings(p: Pc, i: nat) { p.Ring? && p.todo != [] && p.todo[0] == i }

  ghost predicate Ringing(s: State, i: nat) { exists j :: 0 <= j < |s.pc| && Rings(s.pc[j], i) }

  /** Pending events of hart i are on their way: its ipi is set, a sender is about to set it, it holds the
      interrupt until it restores it, or it is in its handler. */
  ghost predicate OnItsWay(s: State, i: nat)
    requires Shaped(s) && i < |s.pc|
  {
    s.pending[i] != {} ==> s.ipi[i] || Ringing(s, i) || Holding(s.pc[i]) || s.pc[i].Take?
  }

  /** Once sender j has rung, its event to hart i needs nobody else: i's ipi is set, i holds the interrupt until it
      restores it, or it is about to take the event. */
  ghost predicate Seen(s: State, i: nat, j: nat)
    requires Shaped(s) && i < |s.pc|
  {
    j in s.owing[i] ==>
      j < |s.pc| && s.pending[i] != {} && (Rings(s.pc[j], i) || s.ipi[i] || Holding(s.pc[i]) || s.pc[i].Take?)
  }

  ghost predicate Inv(s: State) {
    && Shaped(s)
    && (forall i :: 0 <= i < |s.pc| ==> OnItsWay(s, i))
    && (forall i, j :: 0 <= i < |s.pc| && j in s.owing[i] ==> Seen(s, i, j))
  }

  lemma {:induction false} MoveShaped(s: State, j: nat)
    requires Shaped(s) && j < |s.pc|
    ensures Shaped(Move(s, j)) && |Move(s, j).pc| == |s.pc|
  {
    var p, p' := s.pc[j], Move(s, j).pc[j];
    assert PcOk(p, |s.pc|);
    if (p.Post? || p.Ring? || p.Wait?) && p.todo != [] { RestHarts(p.todo, |s.pc|); }
    assert PcOk(p', |s.pc|);
  }

  lemma {:induction false} RingingAfter(s: State, j: nat, p: Pc, i: nat)
    requires j < |s.pc| && Ringing(s, i) && (Rings(s.pc[j], i) ==> Rings(p, i))
    ensures Ringing(Set(s, j, p), i)
  {
    var k :| 0 <= k < |s.pc| && Rings(s.pc[k], i);
    assert Rings(Set(s, j, p).pc[k], i);
  }

  lemma {:induction false} MoveKeeps(s: State, j: nat, i: nat)
    requires Inv(s) && j < |s.pc| && i < |s.pc|
    ensures MoveShapedOk(s, j) && OnItsWay(Move(s, j), i)
  {
    MoveShaped(s, j);
    assert OnItsWay(s, i) && PcOk(s.pc[j], |s.pc|);
    var s' := Move(s, j);
    if Ringing(s, i) && (Rings(s.pc[j], i) ==> Rings(s'.pc[j], i)) {
      RingingAfter(s, j, s'.pc[j], i);
      assert Set(s, j, s'.pc[j]).pc == s'.pc;
      assert Ringing(s', i);
    }
    if s.pc[j].Post? && s.pc[j].todo != [] && s.pc[j].todo[0] == i && s'.pc[j].Ring? { assert Rings(s'.pc[j], i); }
  }

  lemma {:induction false} MoveSees(s: State, k: nat, i: nat, j: nat)
    requires Inv(s) && k < |s.pc| && i < |s.pc| && MoveShapedOk(s, k)
    ensures Seen(Move(s, k), i, j)
  {
    assert PcOk(s.pc[k], |s.pc|);
    assert j in s.owing[i] ==> Seen(s, i, j);
  }

  ghost predicate MoveShapedOk(s: State, j: nat)
    requires Shaped(s) && j < |s.pc|
  {
    Shaped(Move(s, j)) && |Move(s, j).pc| == |s.pc|
  }

  lemma {:induction false} StartKeeps(s: State, j: nat, p: Pc)
    requires Inv(s) && j < |s.pc| && s.pc[j].Idle? && PcOk(p, |s.pc|)
    ensures Inv(Set(s, j, p))
  {
    forall i | 0 <= i < |s.pc| ensures OnItsWay(Set(s, j, p), i) {
      assert OnItsWay(s, i);
      if Ringing(s, i) { RingingAfter(s, j, p, i); }
    }
    forall i, k | 0 <= i < |s.pc| && k in Set(s, j, p).owing[i]
      ensures Seen(Set(s, j, p), i, k)
    {
      assert Seen(s, i, k);
    }
  }

  lemma {:induction false} StepKeeps(s: State, act: Act)
    requires Inv(s) && Step(s, act).Some?
    ensures Inv(Step(s, act).value)
  {
    match act {
      case Call(j, mask, event) =>
        BitsAre(mask, 0);
        StartKeeps(s, j, Post(Bits(mask, 0), event, Bits(mask, 0)));
      case Interrupt(j) => StartKeeps(s, j, Clear);
      case Run(j) =>
        MoveShaped(s, j);
        forall i | 0 <= i < |s.pc| ensures OnItsWay(Move(s, j), i) { MoveKeeps(s, j, i); }
        forall i, k | 0 <= i < |s.pc| && k in Move(s, j).owing[i]
          ensures Seen(Move(s, j), i, k)
        {
          MoveSees(s, j, i, k);
        }
    }
  }

  // ---- runs ----

  ghost function Runs(s: State, acts: seq<Act>): Option<State>
    requires Inv(s)
    decreases |acts|
  {
    if acts == [] then Some(s)
    else match Step(s, acts[0])
         case None => None
         case Some(s') => StepKeeps(s, acts[0]); Runs(s', acts[1..])
  }

  /** The events hart i's handler takes in a run. */
  ghost function Took(s: State, acts: seq<Act>, i: nat): set<Event>
    requires Inv(s) && i < |s.pc| && Runs(s, acts).Some?
    decreases |acts|
  {
    if acts == [] then {}
    else
      StepKeeps(s, acts[0]);
      (if acts[0] == Run(i) && s.pc[i].Take? then s.pending[i] else {}) + Took(Step(s, acts[0]).value, acts[1..], i)
  }

  /** The invariant holds in every reachable state, and an event once pending stays pending until its hart's
      handler takes it: senders only add bits and nobody else removes them. */
  lemma {:induction false} NothingLost(s: State, acts: seq<Act>, i: nat, e: Event)
    requires Inv(s) && i < |s.pc| && Runs(s, acts).Some?
    ensures var s' := Runs(s, acts).value;
            Inv(s') && |s'.pc| == |s.pc| && (e in s.pending[i] ==> e in s'.pending[i] || e in Took(s, acts, i))
    decreases |acts|
  {
    if acts != [] {
      StepKeeps(s, acts[0]);
      KeptOrTaken(s, acts[0], i, e);
      NothingLost(Step(s, acts[0]).value, acts[1..], i, e);
    }
  }

  lemma {:induction false} KeptOrTaken(s: State, act: Act, i: nat, e: Event)
    requires Inv(s) && i < |s.pc| && Step(s, act).Some?
    ensures var s' := Step(s, act).value;
            |s'.pc| == |s'.pending| == |s.pc| &&
              (e in s.pending[i] ==> e in s'.pending[i] || (act == Run(i) && s.pc[i].Take?))
  {
    if act.Run? { assert PcOk(s.pc[act.j], |s.pc|); }
  }

  /** Only the handler of hart i, which takes everything that is pending, settles what is owed to it. */
  lemma {:induction false} OwedOrTaken(s: State, act: Act, i: nat, j: nat)
    requires Inv(s) && i < |s.pc| && Step(s, act).Some? && j in s.owing[i]
    ensures i < |Step(s, act).value.owing| && (j in Step(s, act).value.owing[i] <==> !(act == Run(i) && s.pc[i].Take?))
  {
    if act.Run? { assert PcOk(s.pc[act.j], |s.pc|); }
  }

  /** A sender leaves a recipient behind when it reads its ipi as clear. At that moment its own event has been taken
      since it was posted, or the recipient is about to take it, or holds the interrupt in its own wait. */
  lemma {:induction false} LeftBehind(s: State, j: nat)
    requires Inv(s) && j < |s.pc| && s.pc[j].Wait? && s.pc[j].todo != [] && !s.ipi[s.pc[j].todo[0]]
    ensures var i := s.pc[j].todo[0];
            i < |s.pc| && (j in s.owing[i] ==> s.pc[i].Take? || Holding(s.pc[i]))
  {
    assert PcOk(s.pc[j], |s.pc|);
    var i := s.pc[j].todo[0];
    assert j in s.owing[i] ==> Seen(s, i, j);
  }

  /** And until the event is taken the recipient runs nothing outside machine mode: there, its ipi is set, so that the
      interrupt comes before its next instruction. */
  lemma {:induction false} OutsideIsInterrupted(s: State, i: nat, j: nat)
    requires Inv(s) && i < |s.pc| && j in s.owing[i] && j < |s.pc| && !Rings(s.pc[j], i) && s.pc[i].Idle?
    ensures s.ipi[i] && Step(s, Interrupt(i)).Some?
  {
    assert Seen(s, i, j);
  }

  /** So returning from send_ipi_many does not mean that the events were handled. Two harts that send to each
      other: each consumes its own ipi while it waits, the other sees it clear, and hart 0 is back before hart 1
      has taken its event. */
  lemma {:induction false} BackBeforeHandled(s: State)
    requires Fresh(s)
    ensures Inv(s)
    ensures exists s' :: Reaches(s, s') && Back(s') && Holding(s'.pc[1])
  {
    var a := PostAndRing(s, 0, 1);
    var b := PostAndRing(a, 1, 0);
    var c := Consume(b);
    var d := FinishWait(c);
    ReachesTrans(s, a, b); ReachesTrans(s, b, c); ReachesTrans(s, c, d);
  }

  /** Nor does it take a recipient that sends itself: one that has entered its handler and cleared its ipi has not yet
      taken the event when hart 0 is back. */
  lemma {:induction false} BackDuringHandler(s: State)
    requires Fresh(s)
    ensures exists s' :: Reaches(s, s') && Back(s') && s'.pc[1].Take?
  {
    var a := PostAndRing(s, 0, 1);
    var b := EnterHandler(a);
    var d := FinishWait(b);
    ReachesTrans(s, a, b); ReachesTrans(s, b, d);
  }

  /** Hart 0 is out of machine mode while its event to hart 1 is pending. */
  ghost predicate Back(s: State) { |s.pc| == |s.pending| == 2 && s.pc[0].Idle? && FenceI in s.pending[1] }

  /** Two harts with nothing to do. */
  ghost predicate Fresh(s: State) {
    |s.ipi| == 2 && !s.ipi[0] && !s.ipi[1] && s.pending == [{}, {}] && s.pc == [Idle, Idle] && s.disabled == {} &&
      s.owing == [{}, {}]
  }

  lemma {:induction false} EnterHandler(s: State) returns (t: State)
    requires Inv(s) && |s.pc| == 2 && s.pc[1].Idle? && s.ipi[1]
    ensures Reaches(s, t) && Inv(t) && t == s.(ipi := s.ipi[1 := false], pc := s.pc[1 := Take])
  {
    StepReaches(s, Interrupt(1));
    var a := Step(s, Interrupt(1)).value;
    assert a.pc[1] == Clear;
    MoveReaches(a, 1);
    t := Move(a, 1);
    ReachesTrans(s, a, t);
  }

  /** Hart 1, waiting for hart 0, consumes its own ipi. */
  lemma {:induction false} Consume(s: State) returns (t: State)
    requires Inv(s) && |s.pc| == 2 && s.pc[1] == Wait([0], false) && s.ipi[0] && s.ipi[1]
    ensures Reaches(s, t) && Inv(t) && t == s.(ipi := s.ipi[1 := false], pc := s.pc[1 := Wait([0], true)])
  {
    var a := Move(s, 1);
    assert a.pc[1] == Swap([0], false);
    MoveReaches(s, 1);
    t := Move(a, 1);
    MoveReaches(a, 1);
    ReachesTrans(s, a, t);
  }

  /** Hart 0 sees the ipi of hart 1 clear and returns. */
  lemma {:induction false} FinishWait(s: State) returns (t: State)
    requires Inv(s) && |s.pc| == 2 && s.pc[0] == Wait([1], false) && !s.ipi[1]
    ensures Reaches(s, t) && Inv(t) && t == s.(pc := s.pc[0 := Idle])
  {
    var a := Move(s, 0);
    assert a.pc[0] == Wait([], false);
    MoveReaches(s, 0);
    var b := Move(a, 0);
    assert b.pc[0] == Restore(false);
    MoveReaches(a, 0);
    t := Move(b, 0);
    MoveReaches(b, 0);
    ReachesTrans(s, a, b); ReachesTrans(s, b, t);
  }

  ghost predicate Reaches(s: State, t: State) { Inv(s) && exists acts :: Runs(s, acts) == Some(t) }

  lemma {:induction false} RunsTrans(s: State, acts: seq<Act>, more: seq<Act>)
    requires Inv(s) && Runs(s, acts).Some? && Inv(Runs(s, acts).value)
    ensures Runs(s, acts + more) == Runs(Runs(s, acts).value, more)
    decreases |acts|
  {
    if acts == [] {
      assert acts + more == more;
    } else {
      StepKeeps(s, acts[0]);
      assert (acts + more)[0] == acts[0] && (acts + more)[1..] == acts[1..] + more;
      RunsTrans(Step(s, acts[0]).value, acts[1..], more);
    }
  }

  lemma {:induction false} ReachesTrans(s: State, t: State, u: State)
    requires Reaches(s, t) && Reaches(t, u)
    ensures Reaches(s, u)
  {
    var acts :| Runs(s, acts) == Some(t);
    var more :| Runs(t, more) == Some(u);
    RunsTrans(s, acts, more);
  }

  lemma {:induction false} StepReaches(s: State, act: Act)
    requires Inv(s) && Step(s, act).Some?
    ensures Reaches(s, Step(s, act).value) && Inv(Step(s, act).value)
  {
    StepKeeps(s, act);
    var t := Step(s, act).value;
    assert Runs(t, []) == Some(t);
    assert [act][1..] == [];
    assert Runs(s, [act]) == Some(t);
  }

  lemma {:induction false} MoveReaches(s: State, j: nat)
    requires Inv(s) && j < |s.pc| && !s.pc[j].Idle? && !s.pc[j].Halted?
    ensures Reaches(s, Move(s, j)) && Inv(Move(s, j))
  {
    StepReaches(s, Run(j));
  }

  /** Hart j posts a fence to hart i, rings it and starts to wait. */
  lemma {:induction false} PostAndRing(s: State, j: nat, i: nat) returns (t: State)
    requires Inv(s) && |s.pc| == 2 && j < 2 && i < 2 && s.pc[j].Idle? && s.disabled == {}
    ensures Reaches(s, t) && Inv(t)
    ensures t ==
            State(s.ipi[i := true], s.pending[i := s.pending[i] + {FenceI}], s.pc[j := Wait([i], false)], {},
                  s.owing[i := s.owing[i] + {j}])
  {
    assert Bits(1, 0) == [0] && Bits(2, 0) == [1] by { assert Bits(0, 1) == [] && Bits(1, 1) == [1] + Bits(0, 2); }
    var mask := if i == 0 then 1 else 2;
    StepReaches(s, Call(j, mask, FenceI));
    var a := Step(s, Call(j, mask, FenceI)).value;
    assert a.pc[j] == Post([i], FenceI, [i]);
    MoveReaches(a, j);
    var b := Move(a, j);
    assert b.pc[j] == Ring([i], FenceI, [i]);
    MoveReaches(b, j);
    var c := Move(b, j);
    assert c.pc[j] == Post([], FenceI, [i]);
    MoveReaches(c, j);
    t := Move(c, j);
    ReachesTrans(s, a, b); ReachesTrans(s, b, c); ReachesTrans(s, c, t);
  }

  // ---- no cyclic waiting ----

  /** Hart j on its own: it takes an interrupt when it can. */
  ghost function AloneStep(s: State, j: nat): State
    requires Shaped(s) && j < |s.pc|
  {
    if s.pc[j].Idle? then (if s.ipi[j] then Set(s, j, Clear) else s) else Move(s, j)
  }

  lemma {:induction false} AloneShaped(s: State, j: nat)
    requires Shaped(s) && j < |s.pc|
    ensures Shaped(AloneStep(s, j)) && |AloneStep(s, j).pc| == |s.pc|
  {
    if s.pc[j].Idle? { assert PcOk(Clear, |s.pc|); } else { MoveShaped(s, j); }
  }

  ghost function Alone(s: State, j: nat, n: nat): State
    requires Shaped(s) && j < |s.pc|
    decreases n
  {
    if n == 0 then s else AloneShaped(s, j); Alone(AloneStep(s, j), j, n - 1)
  }

  ghost function Phase(p: Pc): nat {
    match p
    case Post(_, _, _) => 4
    case Ring(_, _, _) => 4
    case Wait(_, _) => 3
    case Swap(_, _) => 3
    case Restore(_) => 2
    case Take => 2
    case Idle => 1
    case _ => 0
  }

  ghost function Todo(p: Pc): nat {
    if p.Post? then 2 * |p.todo| + 1
    else if p.Ring? then 2 * |p.todo|
    else if p.Wait? then |p.todo|
    else 0
  }

  /** Halted, or about to take the event that halts it. */
  predicate Stuck(s: State, j: nat)
    requires j < |s.pc| == |s.pending|
  {
    s.pc[j].Halted? || (s.pc[j].Take? && Halt in s.pending[j])
  }

  /** Whatever hart j is doing, sending to itself included, a number of its own steps clears its ipi, unless it is
      stuck: so whoever waits for it is not waiting for anything that waits for others. */
  lemma {:induction false} AloneClears(s: State, j: nat) returns (n: nat)
    requires Shaped(s) && j < |s.pc|
    ensures var s' := Alone(s, j, n); Shaped(s') && |s'.pc| == |s.pc| && (!s'.ipi[j] || s'.pc[j].Halted?)
    ensures !Stuck(s, j) ==> !Alone(s, j, n).ipi[j]
    decreases Phase(s.pc[j]), Todo(s.pc[j])
  {
    n := 0;
    if s.ipi[j] && !s.pc[j].Halted? {
      assert PcOk(s.pc[j], |s.pc|);
      AloneShaped(s, j);
      var s1 := AloneStep(s, j);
      if s1.ipi[j] && !s1.pc[j].Halted? && s1.pc[j].Swap? {
        AloneShaped(s1, j);
        n := 2;
        assert Alone(s, j, 2) == Alone(s1, j, 1) == Alone(AloneStep(s1, j), j, 0);
      } else if s1.ipi[j] && !s1.pc[j].Halted? {
        var m := AloneClears(s1, j);
        n := m + 1;
      } else {
        n := 1;
        assert Alone(s, j, 1) == Alone(s1, j, 0);
      }
    }
  }

  // ---- a sender comes back ----

  /** t is reached from s, and no hart but i has moved. */
  ghost predicate Moved(s: State, t: State, i: nat) {
    Reaches(s, t) && Inv(t) && |t.pc| == |s.pc| && forall k :: 0 <= k < |s.pc| && k != i ==> t.pc[k] == s.pc[k]
  }

  lemma {:induction false} MovedOnce(s: State, i: nat)
    requires Inv(s) && i < |s.pc| && !s.pc[i].Idle? && !s.pc[i].Halted?
    ensures Moved(s, Move(s, i), i)
  {
    MoveReaches(s, i);
    MoveShaped(s, i);
  }

  lemma {:induction false} MovedTwice(s: State, t: State, u: State, i: nat)
    requires Moved(s, t, i) && Moved(t, u, i)
    ensures Moved(s, u, i)
  {
    ReachesTrans(s, t, u);
  }

  lemma {:induction false} AloneMoved(s: State, i: nat, n: nat)
    requires Inv(s) && i < |s.pc|
    ensures Moved(s, Alone(s, i, n), i)
    decreases n
  {
    if n == 0 {
      assert Runs(s, []) == Some(s);
    } else {
      var s1 := AloneStep(s, i);
      if s.pc[i].Idle? && s.ipi[i] {
        StepReaches(s, Interrupt(i));
      } else if s.pc[i].Idle? || s.pc[i].Halted? {
        assert s1 == s && Runs(s, []) == Some(s);
      } else {
        MovedOnce(s, i);
      }
      AloneMoved(s1, i, n - 1);
      MovedTwice(s, s1, Alone(s1, i, n - 1), i);
    }
  }

  /** Neither halted nor in the middle of its handler. */
  predicate Ready(s: State, k: nat) { k < |s.pc| && !s.pc[k].Halted? && !s.pc[k].Take? }

  /** Other harts leave their handlers. */
  lemma {:induction false} LeaveTake(s: State, j: nat, ts: seq<nat>) returns (t: State)
    requires Inv(s) && j < |s.pc| && !s.pc[j].Take? && forall k :: k in ts ==> k < |s.pc| && !Stuck(s, k)
    ensures Reaches(s, t) && Inv(t) && |t.pc| == |s.pc| && t.pc[j] == s.pc[j]
    ensures forall k :: k in ts || Ready(s, k) ==> Ready(t, k)
    decreases |ts|
  {
    if ts == [] {
      t := s;
      assert Runs(s, []) == Some(s);
    } else {
      var i, a := ts[0], s;
      assert i in ts;
      if s.pc[i].Take? {
        MovedOnce(s, i);
        a := Move(s, i);
      } else {
        assert Runs(s, []) == Some(s);
      }
      assert forall k :: k in ts[1..] ==> k in ts;
      t := LeaveTake(a, j, ts[1..]);
      ReachesTrans(s, a, t);
    }
  }

  ghost predicate CanReturn(s: State, j: nat) { exists t :: Reaches(s, t) && j < |t.pc| && t.pc[j].Idle? }

  lemma {:induction false} ReturnLater(s: State, t: State, j: nat)
    requires Reaches(s, t) && CanReturn(t, j)
    ensures CanReturn(s, j)
  {
    var u :| Reaches(t, u) && j < |u.pc| && u.pc[j].Idle?;
    ReachesTrans(s, t, u);
  }

  lemma {:induction false} RestoreEnds(s: State, j: nat)
    requires Inv(s) && j < |s.pc| && s.pc[j].Restore?
    ensures CanReturn(s, j)
  {
    MovedOnce(s, j);
    assert Move(s, j).pc[j] == Idle;
  }

  /** One target less to wait for. */
  lemma {:induction false} WaitStep(s: State, j: nat) returns (t: State)
    requires Inv(s) && j < |s.pc| && s.pc[j].Wait? && s.pc[j].todo != []
    requires s.pc[j].todo[0] != j ==> Ready(s, s.pc[j].todo[0])
    ensures Reaches(s, t) && Inv(t) && |t.pc| == |s.pc| && t.pc[j].Wait? && t.pc[j].todo == s.pc[j].todo[1..]
    ensures forall k :: 0 <= k < |s.pc| && k != j && k != s.pc[j].todo[0] ==> t.pc[k] == s.pc[k]
  {
    assert PcOk(s.pc[j], |s.pc|);
    var i := s.pc[j].todo[0];
    var a := s;
    assert Runs(s, []) == Some(s);
    if i != j {
      var n := AloneClears(s, i);
      AloneMoved(s, i, n);
      a := Alone(s, i, n);
    } else if s.ipi[j] {
      MovedOnce(s, j);
      var b := Move(s, j);
      MovedOnce(b, j);
      a := Move(b, j);
      MovedTwice(s, b, a, j);
    }
    MovedOnce(a, j);
    t := Move(a, j);
    ReachesTrans(s, a, t);
  }

  lemma {:induction false} WaitEnds(s: State, j: nat)
    requires Inv(s) && j < |s.pc| && s.pc[j].Wait? && forall k :: k in s.pc[j].todo && k != j ==> Ready(s, k)
    ensures CanReturn(s, j)
    decreases |s.pc[j].todo|
  {
    assert PcOk(s.pc[j], |s.pc|);
    var todo := s.pc[j].todo;
    if todo == [] {
      MovedOnce(s, j);
      RestoreEnds(Move(s, j), j);
      ReturnLater(s, Move(s, j), j);
    } else {
      var t := WaitStep(s, j);
      RestHarts(todo, |s.pc|);
      forall k | k in todo[1..] && k != j ensures Ready(t, k) { assert k in todo && Ready(s, k); }
      WaitEnds(t, j);
      ReturnLater(s, t, j);
    }
  }

  /** The harts a sender waits for, or is going to. */
  function Awaits(p: Pc): seq<nat> {
    if p.Post? || p.Ring? then p.all else if p.Wait? || p.Swap? then p.todo else []
  }

  predicate Sending(p: Pc) { p.Post? || p.Ring? || p.Wait? || p.Swap? || p.Restore? }

  lemma {:induction false} SendEnds(s: State, j: nat)
    requires Inv(s) && j < |s.pc| && Sending(s.pc[j]) && forall k :: k in Awaits(s.pc[j]) && k != j ==> Ready(s, k)
    ensures CanReturn(s, j)
    decreases Phase(s.pc[j]), Todo(s.pc[j]), s.pc[j].Swap?
  {
    var p := s.pc[j];
    assert PcOk(p, |s.pc|);
    if p.Wait? {
      WaitEnds(s, j);
    } else if p.Restore? {
      RestoreEnds(s, j);
    } else {
      MovedOnce(s, j);
      var t := Move(s, j);
      if t.pc[j].Idle? {
        assert Reaches(s, t);
      } else {
        forall k | k in Awaits(t.pc[j]) && k != j ensures Ready(t, k) { assert k in Awaits(p) && Ready(s, k); }
        if t.pc[j].Wait? { WaitEnds(t, j); } else { SendEnds(t, j); }
        ReturnLater(s, t, j);
      }
    }
  }

  /** A sender is never caught in a cycle of harts that wait for each other: from every state in which none of the
      harts it waits for is stuck, some run brings it back. */
  lemma {:induction false} SenderComesBack(s: State, j: nat)
    requires Inv(s) && j < |s.pc| && Sending(s.pc[j]) && forall k :: k in Awaits(s.pc[j]) ==> !Stuck(s, k)
    ensures exists t :: Reaches(s, t) && j < |t.pc| && t.pc[j].Idle?
  {
    assert PcOk(s.pc[j], |s.pc|);
    var t := LeaveTake(s, j, Awaits(s.pc[j]));
    SendEnds(t, j);
    ReturnLater(s, t, j);
  }

  /** A stuck hart whose ipi is set keeps every hart that waits for it: in no run does one of them return. */
  lemma {:induction false} StuckBlocks(s: State, acts: seq<Act>, j: nat, k: nat)
    requires Inv(s) && j < |s.pc| && k < |s.pc| && Runs(s, acts).Some?
    requires Stuck(s, k) && s.ipi[k] && (s.pc[j].Wait? || s.pc[j].Swap?) && k in s.pc[j].todo
    ensures var t := Runs(s, acts).value;
            j < |t.pc| && (t.pc[j].Wait? || t.pc[j].Swap?) && k in t.pc[j].todo
    decreases |acts|
  {
    if acts != [] {
      StepKeeps(s, acts[0]);
      StuckStays(s, acts[0], j, k);
      StuckBlocks(Step(s, acts[0]).value, acts[1..], j, k);
    }
  }

  lemma {:induction false} StuckStays(s: State, act: Act, j: nat, k: nat)
    requires Inv(s) && j < |s.pc| && k < |s.pc| && Step(s, act).Some?
    requires Stuck(s, k) && s.ipi[k] && (s.pc[j].Wait? || s.pc[j].Swap?) && k in s.pc[j].todo
    ensures var t := Step(s, act).value;
            && |t.pc| == |t.pending| == |t.ipi| == |s.pc| && Stuck(t, k) && t.ipi[k]
            && (t.pc[j].Wait? || t.pc[j].Swap?) && k in t.pc[j].todo
  {
    if act.Run? {
      assert PcOk(s.pc[act.j], |s.pc|);
      MoveShaped(s, act.j);
    }
  }

  /** Harts that have nothing to do satisfy the invariant, however many. */
  lemma {:induction false} BootInv(s: State)
    requires |s.ipi| == |s.pending| == |s.owing| == |s.pc|
    requires forall i :: 0 <= i < |s.pc| ==> s.pc[i].Idle? && s.pending[i] == {} && s.owing[i] == {}
    ensures Inv(s)
  {
    forall i | 0 <= i < |s.pc| ensures PcOk(s.pc[i], |s.pc|) && OnItsWay(s, i) {}
  }
}
