/** The kernel's services as steps on plain sets of priorities.

    Ready list and wait lists are sets here; that the kernel's two-level bitmaps compute exactly
    these steps is proved in KernelImpl.  Each function is one critical section. */
module KernelSpec {
  import opened Options

  const LOWEST_PRIO: nat := 20
  const IDLE_PRIO: nat := LOWEST_PRIO
  const STAT_PRIO: nat := LOWEST_PRIO - 1
  const PRIO_SELF: nat := 255
  const MAX_TCBS: nat := 12
  const NULL_MSG: nat := 0

  type Prio = nat
  type EvId = nat
  type Msg = nat

  datatype EventType = Unused | Sem | Mbox | Queue | Mutex | FlagGroup

  /** The single-bit values of the TCB's status byte. */
  datatype StatBit = StSem | StMbox | StQ | StSuspend | StMutex | StFlag | StMulti

  datatype PendStat = PendOk | PendTo | PendAbort

  const PEND_ANY: set<StatBit> := {StSem, StMbox, StQ, StMutex, StFlag}

  datatype Err =
    | ErrNone | ErrEventType | ErrPendIsr | ErrPendLocked | ErrPendAbort | ErrTimeout
    | ErrSemOvf | ErrMboxFull | ErrQFull | ErrPostNull | ErrNoMoreTcb | ErrNotSuspended | ErrTaskResume
    | ErrPrioExist | ErrTaskCreateIsr | ErrSuspendIdle | ErrPrioInvalid | ErrSuspendPrio

  /** What the services read and update in a task control block. */
  datatype Task = Task(
    dly: nat, stat: set<StatBit>, statPend: PendStat,
    eventPtr: Option<EvId>, multi: Option<seq<EvId>>, msg: Msg)

  datatype Event = Event(typ: EventType, cnt: nat, box: Msg, queue: seq<Msg>, size: nat, waiters: set<Prio>)

  datatype Kernel = Kernel(
    tasks: map<Prio, Task>, events: seq<Event>, ready: set<Prio>,
    cur: Prio, intNest: nat, lockNest: nat)

  const FRESH_TASK: Task := Task(0, {}, PendOk, None, None, NULL_MSG)

  // ----- priorities -----

  ghost predicate IsMin(s: set<Prio>, m: Prio) {
    m in s && forall x :: x in s ==> m <= x
  }

  lemma {:induction false} MinExists(s: set<Prio>)
    requires s != {}
    ensures exists m :: IsMin(s, m)
    decreases |s|
  {
    var x :| x in s;
    if s == {x} {
      assert IsMin(s, x);
    } else {
      MinExists(s - {x});
      var m :| IsMin(s - {x}, m);
      assert forall y :: y in s ==> y == x || y in s - {x};
      assert IsMin(s, if m <= x then m else x);
    }
  }

  ghost function Min(s: set<Prio>): (m: Prio)
    requires s != {}
    ensures IsMin(s, m)
  {
    MinExists(s);
    var m :| IsMin(s, m);
    m
  }

  // ----- events -----

  predicate Pendable(t: EventType) {
    t == Sem || t == Mbox || t == Queue
  }

  function KindBit(t: EventType): StatBit {
    match t
    case Sem => StSem
    case Mbox => StMbox
    case Queue => StQ
    case Mutex => StMutex
    case _ => StFlag
  }

  ghost predicate InRange(k: Kernel, evs: seq<EvId>) {
    forall e :: e in evs ==> e < |k.events|
  }

  ghost function Kinds(events: seq<Event>, evs: seq<EvId>): set<StatBit>
    requires forall e :: e in evs ==> e < |events|
  {
    set e | e in evs :: KindBit(events[e].typ)
  }

  function AddWaiter(ev: Event, p: Prio): Event {
    ev.(waiters := ev.waiters + {p})
  }

  function DropWaiter(ev: Event, p: Prio): Event {
    ev.(waiters := ev.waiters - {p})
  }

  function AddAll(events: seq<Event>, p: Prio, evs: seq<EvId>): (r: seq<Event>) {
    seq(|events|, i requires 0 <= i < |events| => if i in evs then AddWaiter(events[i], p) else events[i])
  }

  function DropAll(events: seq<Event>, p: Prio, evs: seq<EvId>): (r: seq<Event>) {
    seq(|events|, i requires 0 <= i < |events| => if i in evs then DropWaiter(events[i], p) else events[i])
  }

  /** Units an event can hand out without blocking. */
  function Units(ev: Event): nat {
    match ev.typ
    case Sem => ev.cnt
    case Mbox => if ev.box != NULL_MSG then 1 else 0
    case Queue => |ev.queue|
    case _ => 0
  }

  /** Takes one unit from an available event, with the message it carries. */
  function TakeOne(ev: Event): (r: (Event, Msg))
    requires Units(ev) > 0
  {
    match ev.typ
    case Sem => (ev.(cnt := ev.cnt - 1), NULL_MSG)
    case Mbox => (ev.(box := NULL_MSG), ev.box)
    case Queue => (ev.(queue := ev.queue[1..]), ev.queue[0])
  }

  datatype Taken = Taken(events: seq<Event>, rdy: seq<EvId>, msgs: seq<Msg>)

  /** The polling pass of the multi-pend, one listed event after the other. */
  function TakeAll(events: seq<Event>, evs: seq<EvId>): (r: Taken)
    requires forall e :: e in evs ==> e < |events|
    ensures |r.events| == |events| && |r.rdy| == |r.msgs| <= |evs|
    decreases |evs|
  {
    if evs == [] then Taken(events, [], [])
    else
      var init := evs[..|evs| - 1];
      var e := evs[|evs| - 1];
      assert e in evs && forall x :: x in init ==> x in evs;
      var r := TakeAll(events, init);
      if Units(r.events[e]) > 0 then
        var (ev, m) := TakeOne(r.events[e]);
        Taken(r.events[e := ev], r.rdy + [e], r.msgs + [m])
      else r
  }

  // ----- critical sections -----

  /** OS_EventTaskRdy: readies the highest-priority waiter of an event. */
  ghost function EventTaskRdy(k: Kernel, e: EvId, msg: Msg, msk: set<StatBit>, ps: PendStat): Kernel
    requires e < |k.events| && k.events[e].waiters != {}
    requires Min(k.events[e].waiters) in k.tasks
  {
    var p := Min(k.events[e].waiters);
    var t := k.tasks[p].(dly := 0, msg := msg, stat := k.tasks[p].stat - msk, statPend := ps);
    var ready := if StSuspend in t.stat then k.ready else k.ready + {p};
    var events := k.events[e := DropWaiter(k.events[e], p)];
    if t.multi.Some? then
      k.(tasks := k.tasks[p := t.(eventPtr := Some(e))], ready := ready,
         events := DropAll(events, p, t.multi.value))
    else
      k.(tasks := k.tasks[p := t], ready := ready, events := events)
  }

  ghost function Post(k: Kernel, e: EvId, msg: Msg): (Kernel, Err)
    requires e < |k.events|
    requires k.events[e].waiters <= k.tasks.Keys
  {
    var ev := k.events[e];
    match ev.typ
    case Sem =>
      if ev.waiters != {} then (EventTaskRdy(k, e, NULL_MSG, {StSem}, PendOk), ErrNone)
      else if ev.cnt < 65535 then (k.(events := k.events[e := ev.(cnt := ev.cnt + 1)]), ErrNone)
      else (k, ErrSemOvf)
    case Mbox =>
      if msg == NULL_MSG then (k, ErrPostNull)
      else if ev.waiters != {} then (EventTaskRdy(k, e, msg, {StMbox}, PendOk), ErrNone)
      else if ev.box != NULL_MSG then (k, ErrMboxFull)
      else (k.(events := k.events[e := ev.(box := msg)]), ErrNone)
    case Queue =>
      if ev.waiters != {} then (EventTaskRdy(k, e, msg, {StQ}, PendOk), ErrNone)
      else if |ev.queue| >= ev.size then (k, ErrQFull)
      else (k.(events := k.events[e := ev.(queue := ev.queue + [msg])]), ErrNone)
    case _ => (k, ErrEventType)
  }

  ghost function Abort(k: Kernel, e: EvId): Kernel
    requires e < |k.events|
    requires k.events[e].waiters <= k.tasks.Keys
  {
    var ev := k.events[e];
    if Pendable(ev.typ) && ev.waiters != {} then EventTaskRdy(k, e, NULL_MSG, {KindBit(ev.typ)}, PendAbort) else k
  }

  /** The blocking part of OSEventPendMulti, up to its call of OS_Sched. */
  ghost function BlockMulti(k: Kernel, evs: seq<EvId>, timeout: nat): Kernel
    requires k.cur in k.tasks && InRange(k, evs)
  {
    var t := k.tasks[k.cur];
    k.(tasks := k.tasks[k.cur := t.(stat := t.stat + Kinds(k.events, evs) + {StMulti}, statPend := PendOk,
                                    dly := timeout, eventPtr := None, multi := Some(evs))],
       ready := k.ready - {k.cur},
       events := AddAll(k.events, k.cur, evs))
  }

  datatype PendResult = PendResult(k: Kernel, blocked: bool, rdy: seq<EvId>, msgs: seq<Msg>, err: Err)

  /** OSEventPendMulti up to its call of OS_Sched. */
  ghost function PendMulti(k: Kernel, evs: seq<EvId>, timeout: nat): PendResult
    requires k.cur in k.tasks && InRange(k, evs)
  {
    if exists e :: e in evs && !Pendable(k.events[e].typ) then PendResult(k, false, [], [], ErrEventType)
    else if k.intNest > 0 then PendResult(k, false, [], [], ErrPendIsr)
    else if k.lockNest > 0 then PendResult(k, false, [], [], ErrPendLocked)
    else
      var r := TakeAll(k.events, evs);
      if r.rdy != [] then PendResult(k.(events := r.events), false, r.rdy, r.msgs, ErrNone)
      else PendResult(BlockMulti(k, evs, timeout), true, [], [], ErrNone)
  }

  datatype Outcome = Outcome(err: Err, rdy: seq<EvId>, msg: Msg)

  /** The result the rest of OSEventPendMulti gives, read from the TCB when the task runs again. */
  function MultiOutcome(t: Task, events: seq<Event>): Outcome
    requires t.eventPtr.Some? ==> t.eventPtr.value < |events|
  {
    if t.statPend != PendTo && t.eventPtr.Some? then
      if t.statPend == PendOk then
        Outcome(ErrNone, [t.eventPtr.value], if events[t.eventPtr.value].typ == Sem then NULL_MSG else t.msg)
      else Outcome(ErrPendAbort, [t.eventPtr.value], NULL_MSG)
    else Outcome(ErrTimeout, [], NULL_MSG)
  }

  /** OSEventPendMulti after its call of OS_Sched. */
  function FinishMulti(k: Kernel, evs: seq<EvId>): Kernel
    requires k.cur in k.tasks
  {
    var t := k.tasks[k.cur];
    k.(tasks := k.tasks[k.cur := t.(stat := {}, statPend := PendOk, eventPtr := None, multi := None, msg := NULL_MSG)],
       events := if t.statPend != PendTo && t.eventPtr.Some? then k.events else DropAll(k.events, k.cur, evs))
  }

  /** OSSemPend up to its call of OS_Sched. */
  function SemPend(k: Kernel, e: EvId, timeout: nat): PendResult
    requires k.cur in k.tasks && e < |k.events|
  {
    var ev := k.events[e];
    var t := k.tasks[k.cur];
    if ev.typ != Sem then PendResult(k, false, [], [], ErrEventType)
    else if k.intNest > 0 then PendResult(k, false, [], [], ErrPendIsr)
    else if k.lockNest > 0 then PendResult(k, false, [], [], ErrPendLocked)
    else if ev.cnt > 0 then PendResult(k.(events := k.events[e := ev.(cnt := ev.cnt - 1)]), false, [e], [], ErrNone)
    else
      PendResult(k.(tasks := k.tasks[k.cur := t.(stat := t.stat + {StSem}, statPend := PendOk, dly := timeout,
                                                 eventPtr := Some(e))],
                    ready := k.ready - {k.cur},
                    events := k.events[e := AddWaiter(ev, k.cur)]), true, [], [], ErrNone)
  }

  /** OSSemPend after its call of OS_Sched. */
  function FinishSem(k: Kernel, e: EvId): Kernel
    requires k.cur in k.tasks && e < |k.events|
  {
    var t := k.tasks[k.cur];
    k.(tasks := k.tasks[k.cur := t.(stat := {}, statPend := PendOk, eventPtr := None, multi := None)],
       events := if t.statPend == PendTo then k.events[e := DropWaiter(k.events[e], k.cur)] else k.events)
  }

  /** What one clock tick does to one task's TCB. */
  function TickedTask(t: Task): Task {
    if t.dly == 0 then t
    else if t.dly > 1 then t.(dly := t.dly - 1)
    else if t.stat * PEND_ANY != {} then t.(dly := 0, stat := t.stat - PEND_ANY, statPend := PendTo)
    else t.(dly := 0, statPend := PendOk)
  }

  predicate TickReadies(t: Task) {
    t.dly == 1 && StSuspend !in t.stat
  }

  /** One turn of OSTimeTick's loop. */
  function TickTask(k: Kernel, p: Prio): Kernel
    requires p in k.tasks
  {
    var t := k.tasks[p];
    k.(tasks := k.tasks[p := TickedTask(t)], ready := if TickReadies(t) then k.ready + {p} else k.ready)
  }

  /** The tasks in done have been ticked, the others not yet. */
  function TickSet(k: Kernel, done: set<Prio>): Kernel {
    k.(tasks := map p | p in k.tasks :: if p in done then TickedTask(k.tasks[p]) else k.tasks[p],
       ready := k.ready + set p | p in k.tasks && p in done && TickReadies(k.tasks[p]))
  }

  /** OSTimeTick: every task but the idle one is ticked once. */
  function TickAll(k: Kernel): Kernel {
    k.(tasks := map p | p in k.tasks :: if p == IDLE_PRIO then k.tasks[p] else TickedTask(k.tasks[p]),
       ready := k.ready + set p | p in k.tasks && p != IDLE_PRIO && TickReadies(k.tasks[p]))
  }

  function Suspend(k: Kernel, p: Prio): Kernel
    requires p in k.tasks
  {
    k.(tasks := k.tasks[p := k.tasks[p].(stat := k.tasks[p].stat + {StSuspend})], ready := k.ready - {p})
  }

  function Resume(k: Kernel, p: Prio): Kernel
    requires p in k.tasks
  {
    var t := k.tasks[p];
    if StSuspend !in t.stat then k
    else
      var t' := t.(stat := t.stat - {StSuspend});
      k.(tasks := k.tasks[p := t'], ready := if t'.stat == {} && t'.dly == 0 then k.ready + {p} else k.ready)
  }

  function TimeDly(k: Kernel, ticks: nat): Kernel
    requires k.cur in k.tasks
  {
    if k.intNest > 0 || ticks == 0 then k
    else k.(tasks := k.tasks[k.cur := k.tasks[k.cur].(dly := ticks)], ready := k.ready - {k.cur})
  }

  function Create(k: Kernel, p: Prio): Kernel {
    if |k.tasks| >= MAX_TCBS then k
    else k.(tasks := k.tasks[p := FRESH_TASK], ready := k.ready + {p})
  }

  ghost function Sched(k: Kernel): Kernel
    requires k.ready != {}
  {
    if k.intNest == 0 && k.lockNest == 0 then k.(cur := Min(k.ready)) else k
  }

  function IntEnter(k: Kernel): Kernel {
    if k.intNest < 255 then k.(intNest := k.intNest + 1) else k
  }

  ghost function IntExit(k: Kernel): Kernel
    requires k.ready != {}
  {
    var n := if k.intNest > 0 then k.intNest - 1 else 0;
    var k' := k.(intNest := n);
    if n == 0 && k.lockNest == 0 then k'.(cur := Min(k.ready)) else k'
  }

  function SchedLock(k: Kernel): Kernel {
    if k.intNest == 0 && k.lockNest < 255 then k.(lockNest := k.lockNest + 1) else k
  }

  /** OSSchedUnlock up to the call of OS_Sched it makes when it released the last lock outside an ISR. */
  function SchedUnlock(k: Kernel): Kernel {
    if k.lockNest > 0 then k.(lockNest := k.lockNest - 1) else k
  }

  lemma TickSetStep(k: Kernel, done: set<Prio>, p: Prio)
    requires p in k.tasks && p !in done
    ensures TickTask(TickSet(k, done), p) == TickSet(k, done + {p})
  {
    var k1, k2 := TickTask(TickSet(k, done), p), TickSet(k, done + {p});
    assert k1.tasks == k2.tasks;
    assert k1.ready == k2.ready;
  }

  lemma TickSetShape(k: Kernel, done: set<Prio>, p: Prio)
    ensures TickSet(k, done).tasks.Keys == k.tasks.Keys
    ensures p in k.tasks ==> k.ready <= TickTask(k, p).ready && TickTask(k, p).cur == k.cur
  {
  }

  lemma TickSetEnds(k: Kernel)
    ensures TickSet(k, {}) == k && TickSet(k, k.tasks.Keys - {IDLE_PRIO}) == TickAll(k)
  {
    assert TickSet(k, {}).tasks == k.tasks && TickSet(k, {}).ready == k.ready;
    assert TickSet(k, k.tasks.Keys - {IDLE_PRIO}).tasks == TickAll(k).tasks;
    assert TickSet(k, k.tasks.Keys - {IDLE_PRIO}).ready == TickAll(k).ready;
  }
}
