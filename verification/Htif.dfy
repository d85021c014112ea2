/** The HTIF mailbox of machine/htif.c shared by several harts and the host, under the spinlock of
    machine/atomic.h. Every access to shared memory is one step; the steps of harts and host interleave freely. */
module Htif {
  datatype Option<T> = None | Some(value: T)

  type Byte = x: nat | x < 256

  // ---- the words ----

  function TohostCmd(dev: bv64, cmd: bv64, data: bv64): bv64 { (dev << 56) | (cmd << 48) | data }
  function FromhostDev(w: bv64): bv64 { w >> 56 }
  function FromhostCmd(w: bv64): bv64 { (w << 8) >> 56 }
  function FromhostData(w: bv64): bv64 { (w << 16) >> 16 }

  /** The three fields of a mailbox word do not disturb each other. */
  lemma {:induction false} FieldsApart(dev: bv64, cmd: bv64, data: bv64)
    requires dev < 0x100 && cmd < 0x100 && data < 0x1_0000_0000_0000
    ensures var w := TohostCmd(dev, cmd, data);
            FromhostDev(w) == dev && FromhostCmd(w) == cmd && FromhostData(w) == data
    ensures dev != 0 || data != 0 ==> TohostCmd(dev, cmd, data) != 0
  {}

  // ---- the state ----

  /** A call under way; ch is the local variable of htif_console_getchar, which returns ch - 1. */
  datatype Op = Getchar(ch: int) | Putchar(out: Byte) | Syscall(arg: nat)

  /** A word in fromhost. */
  datatype Resp = Resp(dev: nat, cmd: nat, data: Byte)

  /** Where __check_fromhost returns to. */
  datatype Cont = ToReadBuf | ToSend | ToAwait

  datatype Pc =
    | Idle
    | Want(op: Op)                          // spinlock_lock: about to read the lock
    | Try(op: Op)                           // read it as free: about to swap
    | Check(op: Op, k: Cont)                // __check_fromhost: about to read fromhost
    | Clear(op: Op, k: Cont, fh: Resp)      // about to clear it
    | Dispatch(op: Op, k: Cont, fh: Resp)   // about to look at what it was
    | ReadBuf(op: Op)                       // htif_console_getchar: about to read the console buffer
    | Reset(op: Op)                         // about to set it to -1
    | Send(op: Op)                          // __set_tohost: about to read tohost
    | Put(op: Op)                           // read it as free: about to write
    | Await(op: Op)                         // do_tohost_fromhost: about to read fromhost
    | Ack(op: Op)                           // saw the answer: about to clear fromhost
    | Unlock(op: Op)
    | Failed                                // an assertion of __check_fromhost failed

  /** What the host has accepted and not answered. */
  datatype Host = Host(owedReads: nat, owedWrites: nat, owedCalls: nat)

  /** Shared memory without the lock, the host, and the history: the characters the host sent and those that
      htif_console_getchar returned; the requests that the calls which have returned were to send and those that the
      host has accepted. */
  datatype Shared = Shared(tohost: Option<Op>, fromhost: Option<Resp>, buf: int, host: Host, sent: seq<Byte>,
                           returned: seq<Byte>, asked: seq<Op>, accepted: seq<Op>)

  /** lock is the lock word; owner tells who holds it. */
  datatype State = State(lock: int, owner: Option<nat>, harts: seq<Pc>, sh: Shared)

  // ---- steps ----

  function Return(op: Op, k: Cont): Pc {
    match k case ToReadBuf => ReadBuf(op) case ToSend => Send(op) case ToAwait => Await(op)
  }

  /** What follows the write to tohost. */
  function Sent(op: Op): Pc { if op.Syscall? then Await(op) else Unlock(op) }

  predicate Critical(p: Pc) { !p.Idle? && !p.Want? && !p.Try? }

  /** One step of the hart that holds the lock, the release apart. */
  function Inside(p: Pc, sh: Shared): (Pc, Shared)
    requires Critical(p)
  {
    match p
    case Check(op, k) => (if sh.fromhost.None? then Return(op, k) else Clear(op, k, sh.fromhost.value), sh)
    case Clear(op, k, fh) => (Dispatch(op, k, fh), sh.(fromhost := None))
    case Dispatch(op, k, fh) =>
      if fh.dev != 1 then (Failed, sh)
      else if fh.cmd == 0 then (Return(op, k), sh.(buf := 1 + fh.data))
      else if fh.cmd == 1 then (Return(op, k), sh)
      else (Failed, sh)
    case ReadBuf(op) => (if sh.buf >= 0 then Reset(Getchar(sh.buf)) else Unlock(Getchar(sh.buf)), sh)
    case Reset(op) => (Send(op), sh.(buf := -1))
    case Send(op) => (if sh.tohost.None? then Put(op) else Check(op, ToSend), sh)
    case Put(op) => (Sent(op), sh.(tohost := Some(op)))
    case Await(op) =>
      (if sh.fromhost.None? then p
       else if sh.fromhost.value.dev == 0 && sh.fromhost.value.cmd == 0 then Ack(op)
       else Check(op, ToAwait), sh)
    case Ack(op) => (Unlock(op), sh.(fromhost := None))
    case _ => (p, sh)
  }

  function Got(op: Op): seq<Byte> { if op.Getchar? && 1 <= op.ch <= 256 then [op.ch - 1] else [] }

  /** An operation as it is called. */
  function Called(op: Op): Op { if op.Getchar? then Getchar(0) else op }

  /** What a call has sent when it returns: its character or system call, or, if it took a character, a request for the
      next. */
  function Request(op: Op): seq<Op> { if op.Getchar? && op.ch < 0 then [] else [Called(op)] }

  function Returns(op: Op, sh: Shared): Shared {
    sh.(returned := sh.returned + Got(op), asked := sh.asked + Request(op))
  }

  datatype HostAct = Take | AnswerRead(ch: Byte) | AnswerWrite(data: Byte) | ForgetWrite | AnswerSyscall(data: Byte)

  /** The host accepts a request by clearing tohost and writes an answer only into an empty fromhost. It answers
      each read and each system call once, each write at most once. */
  function HostStep(sh: Shared, act: HostAct): Option<Shared> {
    var h := sh.host;
    match act
    case Take =>
      if sh.tohost.None? then None
      else
        var h' := match sh.tohost.value
                  case Getchar(_) => h.(owedReads := h.owedReads + 1)
                  case Putchar(_) => h.(owedWrites := h.owedWrites + 1)
                  case Syscall(_) => h.(owedCalls := h.owedCalls + 1);
        Some(sh.(tohost := None, host := h', accepted := sh.accepted + [Called(sh.tohost.value)]))
    case AnswerRead(ch) =>
      if h.owedReads == 0 || sh.fromhost.Some? then None
      else Some(sh.(fromhost := Some(Resp(1, 0, ch)), host := h.(owedReads := h.owedReads - 1), sent := sh.sent + [ch]))
    case AnswerWrite(data) =>
      if h.owedWrites == 0 || sh.fromhost.Some? then None
      else Some(sh.(fromhost := Some(Resp(1, 1, data)), host := h.(owedWrites := h.owedWrites - 1)))
    case ForgetWrite => if h.owedWrites == 0 then None else Some(sh.(host := h.(owedWrites := h.owedWrites - 1)))
    case AnswerSyscall(data) =>
      if h.owedCalls == 0 || sh.fromhost.Some? then None
      else Some(sh.(fromhost := Some(Resp(0, 0, data)), host := h.(owedCalls := h.owedCalls - 1)))
  }

  datatype Act = Call(i: nat, op: Op) | Hart(i: nat) | TheHost(act: HostAct)

  /** One step of the system, or nothing if the actor cannot make it. */
  function Step(s: State, act: Act): Option<State> {
    match act
    case TheHost(a) =>
      (match HostStep(s.sh, a) case None => None case Some(sh') => Some(s.(sh := sh')))
    case Call(i, op) =>
      if i < |s.harts| && s.harts[i].Idle? && (op.Getchar? ==> op.ch == 0)
      then Some(s.(harts := s.harts[i := Want(op)]))
      else None
    case Hart(i) =>
      if i >= |s.harts| then None
      else
        var p := s.harts[i];
        match p
        case Idle => None
        case Want(op) => Some(s.(harts := s.harts[i := if s.lock != 0 then p else Try(op)]))
        case Try(op) =>
          if s.lock != 0 then Some(s.(lock := -1, harts := s.harts[i := Want(op)]))
          else Some(s.(lock := -1, owner := Some(i),
                       harts := s.harts[i := if op.Getchar? then Check(op, ToReadBuf) else Send(op)]))
        case Unlock(op) => Some(s.(lock := 0, owner := None, harts := s.harts[i := Idle], sh := Returns(op, s.sh)))
        case _ => var (p', sh') := Inside(p, s.sh); Some(s.(harts := s.harts[i := p'], sh := sh'))
  }

  // ---- what the lock holder and the mailbox keep ----

  function Count(b: bool): nat { if b then 1 else 0 }

  /** The holder has emptied the console buffer and has not yet sent the request for the next character. */
  predicate Requesting(p: Pc) {
    match p
    case Check(op, k) => op.Getchar? && k.ToSend?
    case Clear(op, k, _) => op.Getchar? && k.ToSend?
    case Dispatch(op, k, _) => op.Getchar? && k.ToSend?
    case Send(op) => op.Getchar?
    case Put(op) => op.Getchar?
    case _ => false
  }

  /** The holder has sent a system call and has not seen its answer. */
  predicate Awaiting(p: Pc) {
    match p
    case Check(_, k) => k.ToAwait?
    case Clear(_, k, _) => k.ToAwait?
    case Dispatch(_, k, _) => k.ToAwait?
    case Await(_) => true
    case Ack(_) => true
    case _ => false
  }

  /** The holder carries a received character from fromhost to the console buffer. */
  predicate Carrying(p: Pc) { p.Dispatch? && p.fh.dev == 1 && p.fh.cmd == 0 }

  predicate IsRead(r: Option<Resp>) { r.Some? && r.value.dev == 1 && r.value.cmd == 0 }
  predicate IsSyscall(r: Option<Resp>) { r.Some? && r.value.dev == 0 }

  /** Outstanding read requests, wherever they or their answers are. */
  function Reads(p: Pc, sh: Shared): nat {
    Count(Requesting(p)) + Count(sh.tohost.Some? && sh.tohost.value.Getchar?) + sh.host.owedReads +
      Count(IsRead(sh.fromhost)) + Count(Carrying(p))
  }

  function Syscalls(sh: Shared): nat {
    Count(sh.tohost.Some? && sh.tohost.value.Syscall?) + sh.host.owedCalls + Count(IsSyscall(sh.fromhost))
  }

  /** The characters on their way from the host to a caller. */
  function InTransit(p: Pc, sh: Shared): seq<Byte> {
    if Carrying(p) then [p.fh.data]
    else if IsRead(sh.fromhost) then [sh.fromhost.value.data]
    else if 1 <= sh.buf <= 256 then [sh.buf - 1]
    else []
  }

  /** The character the holder has taken out of the console buffer and is about to return. */
  function Held(p: Pc): seq<Byte> {
    match p
    case Check(op, k) => if k.ToSend? then Got(op) else []
    case Clear(op, k, _) => if k.ToSend? then Got(op) else []
    case Dispatch(op, k, _) => if k.ToSend? then Got(op) else []
    case Send(op) => Got(op)
    case Put(op) => Got(op)
    case Unlock(op) => Got(op)
    case _ => []
  }

  /** What the holder has put into tohost for its call so far. */
  function Requested(p: Pc): seq<Op> {
    if p.Unlock? then Request(p.op)
    else if Awaiting(p) then [Called(p.op)]
    else []
  }

  function OnWire(sh: Shared): seq<Op> { if sh.tohost.Some? then [Called(sh.tohost.value)] else [] }

  /** The host has accepted what the calls have sent, in order and once each, but for the word in tohost. */
  ghost predicate WireOk(p: Pc, sh: Shared) { sh.asked + Requested(p) == sh.accepted + OnWire(sh) }

  /** A holder that has a request to send carries a character. */
  predicate CarriesOk(p: Pc) {
    (Requesting(p) || p.Reset?) && p.op.Getchar? ==> p.op.ch >= 0
  }

  /** The mailbox and the hart holding the lock; Idle stands for nobody. */
  ghost predicate MailboxOk(p: Pc, sh: Shared) {
    && -1 <= sh.buf <= 256
    && Reads(p, sh) == Count(sh.buf == -1)
    && Syscalls(sh) == Count(Awaiting(p))
    && (sh.fromhost.Some? ==>
        var r := sh.fromhost.value; (r.dev == 1 && (r.cmd == 0 || r.cmd == 1)) || (r.dev == 0 && r.cmd == 0))
    && sh.sent == sh.returned + Held(p) + InTransit(p, sh)
    && PcOk(p, sh) && CarriesOk(p) && WireOk(p, sh)
  }

  ghost predicate PcOk(p: Pc, sh: Shared) {
    match p
    case Check(op, k) => ContOk(op, k) && (k.ToAwait? ==> sh.fromhost.Some? && sh.fromhost.value.dev == 1)
    case Clear(op, k, fh) => ContOk(op, k) && sh.fromhost == Some(fh) && fh.dev == 1
    case Dispatch(op, k, fh) => ContOk(op, k) && fh.dev == 1 && (fh.cmd == 0 || fh.cmd == 1)
    case ReadBuf(op) => op.Getchar?
    case Reset(op) => op.Getchar? && op.ch == sh.buf >= 0
    case Put(_) => sh.tohost.None?
    case Await(op) => op.Syscall?
    case Ack(op) => op.Syscall? && IsSyscall(sh.fromhost)
    case Failed => false
    case _ => true
  }

  predicate ContOk(op: Op, k: Cont) { (k.ToReadBuf? ==> op.Getchar?) && (k.ToAwait? ==> op.Syscall?) }

  lemma {:induction false} InsideKeeps(p: Pc, sh: Shared)
    requires MailboxOk(p, sh) && Critical(p) && !p.Unlock?
    ensures var (p', sh') := Inside(p, sh); MailboxOk(p', sh') && Critical(p')
  {
    match p {
      case Check(_, _) => CheckKeeps(p, sh);
      case Clear(_, _, _) => CheckKeeps(p, sh);
      case Dispatch(_, _, _) => CheckKeeps(p, sh);
      case _ => CallKeeps(p, sh);
    }
  }

  /** __check_fromhost: its assertions hold, and it stores a character only into an empty buffer. */
  lemma {:induction false} CheckKeeps(p: Pc, sh: Shared)
    requires MailboxOk(p, sh) && (p.Check? || p.Clear? || p.Dispatch?)
    ensures var (p', sh') := Inside(p, sh); MailboxOk(p', sh') && Critical(p') && (Carrying(p) ==> sh.buf == -1)
  {}

  lemma {:induction false} CallKeeps(p: Pc, sh: Shared)
    requires MailboxOk(p, sh) && (p.ReadBuf? || p.Reset? || p.Send? || p.Put? || p.Await? || p.Ack?)
    ensures var (p', sh') := Inside(p, sh); MailboxOk(p', sh') && Critical(p')
  {
    WireKeeps(p, sh);
  }

  lemma {:induction false} WireKeeps(p: Pc, sh: Shared)
    requires MailboxOk(p, sh) && (p.ReadBuf? || p.Reset? || p.Send? || p.Put? || p.Await? || p.Ack?)
    ensures var (p', sh') := Inside(p, sh); WireOk(p', sh')
  {
    if p.Put? {
      assert sh.asked == sh.asked + Requested(p) == sh.accepted + OnWire(sh) == sh.accepted;
      assert Requested(Sent(p.op)) == [Called(p.op)];
    }
  }

  lemma {:induction false} HostKeeps(p: Pc, sh: Shared, act: HostAct)
    requires MailboxOk(p, sh) && HostStep(sh, act).Some?
    ensures MailboxOk(p, HostStep(sh, act).value)
  {
    match act {
      case Take => TakeKeeps(p, sh);
      case AnswerRead(ch) => AnswerReadKeeps(p, sh, ch);
      case _ =>
    }
  }

  lemma {:induction false} TakeKeeps(p: Pc, sh: Shared)
    requires MailboxOk(p, sh) && sh.tohost.Some?
    ensures MailboxOk(p, HostStep(sh, Take).value)
  {}

  lemma {:induction false} AnswerReadKeeps(p: Pc, sh: Shared, ch: Byte)
    requires MailboxOk(p, sh) && HostStep(sh, AnswerRead(ch)).Some?
    ensures MailboxOk(p, HostStep(sh, AnswerRead(ch)).value)
  {}

  lemma {:induction false} UnlockKeeps(op: Op, sh: Shared)
    requires MailboxOk(Unlock(op), sh)
    ensures MailboxOk(Idle, Returns(op, sh))
  {}

  lemma {:induction false} LockKeeps(op: Op, sh: Shared)
    requires MailboxOk(Idle, sh) && (op.Getchar? ==> op.ch == 0)
    ensures MailboxOk(if op.Getchar? then Check(op, ToReadBuf) else Send(op), sh)
  {}

  // ---- all harts ----

  /** The program counter of the hart that holds the lock. */
  function Holder(s: State): Pc { if s.owner.Some? && s.owner.value < |s.harts| then s.harts[s.owner.value] else Idle }

  /** Mutual exclusion: the lock word is 0 exactly when nobody is in the critical section, and at most one is. */
  ghost predicate LockOk(s: State) {
    && (s.lock == 0 <==> s.owner.None?)
    && (s.owner.Some? ==> s.owner.value < |s.harts|)
    && (forall i :: 0 <= i < |s.harts| ==> (Critical(s.harts[i]) <==> s.owner == Some(i)))
    && (forall i :: 0 <= i < |s.harts| ==> Fresh(s.harts[i]))
  }

  predicate Fresh(p: Pc) { (p.Want? || p.Try?) && p.op.Getchar? ==> p.op.ch == 0 }

  ghost predicate Inv(s: State) { LockOk(s) && MailboxOk(Holder(s), s.sh) }

  lemma {:induction false} HartKeeps(s: State, i: nat)
    requires Inv(s) && Step(s, Hart(i)).Some?
    ensures Inv(Step(s, Hart(i)).value)
  {
    match s.harts[i] {
      case Want(op) => WantKeeps(s, i);
      case Try(op) => TryKeeps(s, i);
      case Unlock(op) => ReleaseKeeps(s, i);
      case _ => InsideStepKeeps(s, i);
    }
  }

  lemma {:induction false} WantKeeps(s: State, i: nat)
    requires Inv(s) && i < |s.harts| && s.harts[i].Want?
    ensures Inv(Step(s, Hart(i)).value)
  {
    assert Fresh(s.harts[i]) && (Critical(s.harts[i]) <==> s.owner == Some(i));
  }

  /** spinlock_trylock: the swap takes the lock exactly when it was free. */
  lemma {:induction false} TryKeeps(s: State, i: nat)
    requires Inv(s) && i < |s.harts| && s.harts[i].Try?
    ensures Inv(Step(s, Hart(i)).value)
  {
    var op := s.harts[i].op;
    assert Fresh(s.harts[i]) && (Critical(s.harts[i]) <==> s.owner == Some(i));
    if s.lock == 0 { LockKeeps(op, s.sh); }
  }

  lemma {:induction false} ReleaseKeeps(s: State, i: nat)
    requires Inv(s) && i < |s.harts| && s.harts[i].Unlock?
    ensures Inv(Step(s, Hart(i)).value)
  {
    assert Critical(s.harts[i]) <==> s.owner == Some(i);
    UnlockKeeps(s.harts[i].op, s.sh);
  }

  lemma {:induction false} InsideStepKeeps(s: State, i: nat)
    requires Inv(s) && i < |s.harts| && Critical(s.harts[i]) && !s.harts[i].Unlock?
    ensures Inv(Step(s, Hart(i)).value)
  {
    assert Critical(s.harts[i]) <==> s.owner == Some(i);
    var (p', sh') := Inside(s.harts[i], s.sh);
    InsideKeeps(s.harts[i], s.sh);
    ReplaceHolder(s, i, p', sh');
    assert Step(s, Hart(i)).value == s.(harts := s.harts[i := p'], sh := sh');
  }

  lemma {:induction false} ReplaceHolder(s: State, i: nat, p': Pc, sh': Shared)
    requires LockOk(s) && s.owner == Some(i) && i < |s.harts| && Critical(p') && MailboxOk(p', sh')
    ensures Inv(s.(harts := s.harts[i := p'], sh := sh'))
  {}

  lemma {:induction false} StepKeeps(s: State, act: Act)
    requires Inv(s) && Step(s, act).Some?
    ensures Inv(Step(s, act).value)
  {
    match act {
      case TheHost(a) => HostKeeps(Holder(s), s.sh, a);
      case Call(i, op) => assert Critical(s.harts[i]) <==> s.owner == Some(i);
      case Hart(i) => HartKeeps(s, i);
    }
  }

  /** Power-on: nothing sent, nothing received, the console buffer 0. */
  ghost predicate Booted(s: State) {
    && s.lock == 0 && s.owner.None? && (forall i :: 0 <= i < |s.harts| ==> s.harts[i].Idle?)
    && s.sh.tohost.None? && s.sh.fromhost.None? && s.sh.buf == 0 && |s.sh.sent| == 0 && |s.sh.returned| == 0
    && |s.sh.asked| == 0 && |s.sh.accepted| == 0
    && s.sh.host.owedReads == 0 && s.sh.host.owedWrites == 0 && s.sh.host.owedCalls == 0
  }

  ghost function Run(s: State, acts: seq<Act>): Option<State>
    decreases |acts|
  {
    if acts == [] then Some(s)
    else match Step(s, acts[0]) case None => None case Some(s') => Run(s', acts[1..])
  }

  lemma {:induction false} RunKeeps(s: State, acts: seq<Act>)
    requires Inv(s)
    ensures Run(s, acts).Some? ==> Inv(Run(s, acts).value)
    decreases |acts|
  {
    if acts != [] && Step(s, acts[0]).Some? {
      StepKeeps(s, acts[0]);
      RunKeeps(Step(s, acts[0]).value, acts[1..]);
    }
  }

  ghost predicate Safe(s: State) {
    && (forall i, j :: 0 <= i < |s.harts| && 0 <= j < |s.harts| && Critical(s.harts[i]) && Critical(s.harts[j]) ==>
        i == j)
    && (forall i :: 0 <= i < |s.harts| ==> !s.harts[i].Failed?)
    && Reads(Holder(s), s.sh) == (if s.sh.buf == -1 then 1 else 0)
    && s.sh.sent == s.sh.returned + Held(Holder(s)) + InTransit(Holder(s), s.sh)
    && |s.sh.returned| <= |s.sh.sent| <= |s.sh.returned| + 2
  }

  /** In every interleaving: two harts are never in the critical section together, no assertion of
      __check_fromhost fails, the console buffer is -1 exactly while one read request is outstanding, and the
      characters the host sent are those returned, in order and once each, but for at most two on their way. */
  lemma {:induction false} EveryRunIsSafe(s: State, acts: seq<Act>)
    requires Booted(s) && Run(s, acts).Some?
    ensures Safe(Run(s, acts).value)
  {
    BootInv(s);
    RunKeeps(s, acts);
    InvIsSafe(Run(s, acts).value);
  }

  lemma {:induction false} BootInv(s: State)
    requires Booted(s)
    ensures Inv(s)
  {}

  lemma {:induction false} InvIsSafe(s: State)
    requires Inv(s)
    ensures Safe(s)
  {
    forall i | 0 <= i < |s.harts| ensures !s.harts[i].Failed? {
      assert Critical(s.harts[i]) <==> s.owner == Some(i);
    }
    LengthsAdd(s.sh.returned, Held(Holder(s)), InTransit(Holder(s), s.sh));
  }

  lemma {:induction false} LengthsAdd(a: seq<Byte>, b: seq<Byte>, c: seq<Byte>)
    ensures |a + b + c| == |a| + |b| + |c|
  {}

  // ---- what the calls send ----

  /** A call of hart i that has returned. */
  datatype Ended = Ended(i: nat, op: Op)

  function Ends(s: State, act: Act): seq<Ended> {
    if act.Hart? && act.i < |s.harts| && s.harts[act.i].Unlock? then [Ended(act.i, s.harts[act.i].op)] else []
  }

  /** The calls that return in a run, in the order in which they do. */
  ghost function AllEnded(s: State, acts: seq<Act>): seq<Ended>
    decreases |acts|
  {
    if acts == [] then []
    else match Step(s, acts[0])
         case None => []
         case Some(s') => Ends(s, acts[0]) + AllEnded(s', acts[1..])
  }

  function Requests(es: seq<Ended>): seq<Op> { if es == [] then [] else Request(es[0].op) + Requests(es[1..]) }

  /** The operations of hart i among them, and among the calls that are made. */
  function EndedBy(es: seq<Ended>, i: nat): seq<Op> {
    if es == [] then [] else (if es[0].i == i then [Called(es[0].op)] else []) + EndedBy(es[1..], i)
  }

  function CallBy(act: Act, i: nat): seq<Op> { if act.Call? && act.i == i then [Called(act.op)] else [] }

  function CallsBy(acts: seq<Act>, i: nat): seq<Op> {
    if acts == [] then [] else CallBy(acts[0], i) + CallsBy(acts[1..], i)
  }

  function Ongoing(p: Pc): seq<Op> { if p.Idle? || p.Failed? then [] else [Called(p.op)] }

  lemma {:induction false} StepAsked(s: State, act: Act)
    requires Inv(s) && Step(s, act).Some?
    ensures Step(s, act).value.sh.asked == s.sh.asked + Requests(Ends(s, act))
    ensures |Step(s, act).value.harts| == |s.harts|
  {
    match act {
      case Hart(i) =>
        var p := s.harts[i];
        if p.Unlock? {
          assert Requests([Ended(i, p.op)]) == Request(p.op) + Requests([]) by { assert [Ended(i, p.op)][1..] == []; }
        }
      case _ =>
    }
  }

  lemma {:induction false} StepOngoing(s: State, act: Act, i: nat)
    requires Inv(s) && Step(s, act).Some? && i < |s.harts|
    ensures i < |Step(s, act).value.harts|
    ensures Ongoing(s.harts[i]) + CallBy(act, i) == EndedBy(Ends(s, act), i) + Ongoing(Step(s, act).value.harts[i])
  {
    var o := Ongoing(s.harts[i]);
    assert o + [] == o == [] + o;
    match act {
      case Hart(k) =>
        if k == i { OwnStep(s, i); } else { OtherStep(s, k, i); }
      case Call(k, op) => CallStep(s, k, op, i);
      case TheHost(_) =>
    }
  }

  lemma {:induction false} CallStep(s: State, k: nat, op: Op, i: nat)
    requires Inv(s) && Step(s, Call(k, op)).Some? && i < |s.harts|
    ensures var s' := Step(s, Call(k, op)).value;
            |s'.harts| == |s.harts| && Ongoing(s.harts[i]) + CallBy(Call(k, op), i) == Ongoing(s'.harts[i])
  {
    if k != i { assert Ongoing(s.harts[i]) + [] == Ongoing(s.harts[i]); }
  }

  lemma {:induction false} OtherStep(s: State, k: nat, i: nat)
    requires Inv(s) && Step(s, Hart(k)).Some? && k != i && i < |s.harts|
    ensures EndedBy(Ends(s, Hart(k)), i) == [] && |Step(s, Hart(k)).value.harts| == |s.harts|
    ensures Step(s, Hart(k)).value.harts[i] == s.harts[i]
  {
    OtherEnds(s, k, i);
  }

  lemma {:induction false} OtherEnds(s: State, k: nat, i: nat)
    requires k != i
    ensures EndedBy(Ends(s, Hart(k)), i) == []
  {
    var es := Ends(s, Hart(k));
    if es != [] { assert es[1..] == []; }
  }

  /** A step within a call does not change what is called, and only its last one ends it. */
  lemma {:induction false} OwnStep(s: State, i: nat)
    requires Inv(s) && Step(s, Hart(i)).Some? && i < |s.harts|
    ensures Ongoing(s.harts[i]) == EndedBy(Ends(s, Hart(i)), i) + Ongoing(Step(s, Hart(i)).value.harts[i])
  {
    var p, s' := s.harts[i], Step(s, Hart(i)).value;
    if p.Unlock? {
      assert [Ended(i, p.op)][1..] == [] && EndedBy([Ended(i, p.op)], i) == [Called(p.op)] + EndedBy([], i);
    } else if Critical(p) {
      assert Critical(p) <==> s.owner == Some(i);
      InsideKeeps(p, s.sh);
      InsideOp(p, s.sh);
    }
  }

  lemma {:induction false} InsideOp(p: Pc, sh: Shared)
    requires MailboxOk(p, sh) && Critical(p) && !p.Unlock?
    ensures !p.Failed? && var p' := Inside(p, sh).0; Critical(p') && !p'.Failed? ==> Called(p'.op) == Called(p.op)
  {}

  lemma {:induction false} RequestsJoin(a: seq<Ended>, b: seq<Ended>)
    ensures Requests(a + b) == Requests(a) + Requests(b)
    decreases |a|
  {
    if a == [] {
      assert a + b == b;
    } else {
      assert (a + b)[0] == a[0] && (a + b)[1..] == a[1..] + b;
      RequestsJoin(a[1..], b);
      Regroup(Request(a[0].op), Requests(a[1..]), Requests(b));
    }
  }

  lemma {:induction false} EndedJoin(a: seq<Ended>, b: seq<Ended>, i: nat)
    ensures EndedBy(a + b, i) == EndedBy(a, i) + EndedBy(b, i)
    decreases |a|
  {
    if a == [] {
      assert a + b == b;
    } else {
      assert (a + b)[0] == a[0] && (a + b)[1..] == a[1..] + b;
      EndedJoin(a[1..], b, i);
      Regroup(if a[0].i == i then [Called(a[0].op)] else [], EndedBy(a[1..], i), EndedBy(b, i));
    }
  }

  lemma {:induction false} Regroup(a: seq<Op>, b: seq<Op>, c: seq<Op>)
    ensures (a + b) + c == a + (b + c)
  {}

  lemma {:induction false} RunAsked(s: State, acts: seq<Act>)
    requires Inv(s) && Run(s, acts).Some?
    ensures Run(s, acts).value.sh.asked == s.sh.asked + Requests(AllEnded(s, acts))
    decreases |acts|
  {
    if acts != [] {
      StepKeeps(s, acts[0]);
      StepAsked(s, acts[0]);
      var s1 := Step(s, acts[0]).value;
      RunAsked(s1, acts[1..]);
      RequestsJoin(Ends(s, acts[0]), AllEnded(s1, acts[1..]));
      Regroup(s.sh.asked, Requests(Ends(s, acts[0])), Requests(AllEnded(s1, acts[1..])));
    }
  }

  lemma {:induction false} RunOngoing(s: State, acts: seq<Act>, i: nat)
    requires Inv(s) && Run(s, acts).Some? && i < |s.harts|
    ensures i < |Run(s, acts).value.harts|
    ensures Ongoing(s.harts[i]) + CallsBy(acts, i) ==
            EndedBy(AllEnded(s, acts), i) + Ongoing(Run(s, acts).value.harts[i])
    decreases |acts|
  {
    if acts != [] {
      StepKeeps(s, acts[0]);
      StepAsked(s, acts[0]);
      StepOngoing(s, acts[0], i);
      var s1, t := Step(s, acts[0]).value, Run(s, acts).value;
      RunOngoing(s1, acts[1..], i);
      EndedJoin(Ends(s, acts[0]), AllEnded(s1, acts[1..]), i);
      Regroup(Ongoing(s.harts[i]), CallBy(acts[0], i), CallsBy(acts[1..], i));
      Regroup(EndedBy(Ends(s, acts[0]), i), Ongoing(s1.harts[i]), CallsBy(acts[1..], i));
      Regroup(EndedBy(Ends(s, acts[0]), i), EndedBy(AllEnded(s1, acts[1..]), i), Ongoing(t.harts[i]));
    }
  }

  /** In every interleaving the host has accepted exactly what the calls that have returned were to send, in the order
      of their return and once each, and what the holder of the lock has sent since, but for the word in tohost; and
      the calls that have returned to a hart are those it made, in order, but for the one under way. So every character
      of htif_console_putchar reaches the host once and in order. */
  lemma {:induction false} EveryRequestIsSent(s: State, acts: seq<Act>)
    requires Booted(s) && Run(s, acts).Some?
    ensures var t, ended := Run(s, acts).value, AllEnded(s, acts);
            && Requests(ended) + Requested(Holder(t)) == t.sh.accepted + OnWire(t.sh)
            && |t.harts| == |s.harts|
            && forall i :: 0 <= i < |s.harts| ==> CallsBy(acts, i) == EndedBy(ended, i) + Ongoing(t.harts[i])
  {
    BootInv(s);
    RunKeeps(s, acts);
    RunAsked(s, acts);
    FromNothing(Run(s, acts).value, s.sh.asked, Requests(AllEnded(s, acts)));
    RunSize(s, acts);
    forall i | 0 <= i < |s.harts|
      ensures CallsBy(acts, i) == EndedBy(AllEnded(s, acts), i) + Ongoing(Run(s, acts).value.harts[i])
    {
      RunOngoing(s, acts, i);
      assert Ongoing(s.harts[i]) + CallsBy(acts, i) == CallsBy(acts, i);
    }
  }

  lemma {:induction false} FromNothing(t: State, none: seq<Op>, asked: seq<Op>)
    requires Inv(t) && |none| == 0 && t.sh.asked == none + asked
    ensures asked + Requested(Holder(t)) == t.sh.accepted + OnWire(t.sh)
  {
    assert none + asked == asked;
  }

  lemma {:induction false} RunSize(s: State, acts: seq<Act>)
    requires Inv(s) && Run(s, acts).Some?
    ensures |Run(s, acts).value.harts| == |s.harts|
    decreases |acts|
  {
    if acts != [] {
      StepKeeps(s, acts[0]);
      StepAsked(s, acts[0]);
      RunSize(Step(s, acts[0]).value, acts[1..]);
    }
  }
}
