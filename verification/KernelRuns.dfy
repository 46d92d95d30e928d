/** All interleavings of the kernel's critical sections, and what every run keeps. */
module KernelRuns {
  import opened Options
  import opened KernelSpec

  /** Where a task's own code stands: outside any pend, or inside one, past its blocking step. */
  datatype Pc = Normal | InMulti(evs: seq<EvId>) | InSem(e: EvId)

  /** yielding: the running task has left the critical section that may have blocked it and not yet
      gone through OS_Sched. */
  datatype Sys = Sys(k: Kernel, pc: map<Prio, Pc>, yielding: bool)

  datatype Label =
    | LCreate(p: Prio)
    | LPendMulti(evs: seq<EvId>, timeout: nat) | LFinishMulti
    | LSemPend(e: EvId, timeout: nat) | LFinishSem
    | LPost(e: EvId, msg: Msg) | LAbort(e: EvId)
    | LTick(p: Prio)
    | LSuspend(p: Prio) | LResume(p: Prio) | LTimeDly(ticks: nat)
    | LSched | LIntEnter | LIntExit | LLock | LUnlock

  // ----- the invariant -----

  ghost predicate NormalInv(k: Kernel, p: Prio)
    requires p in k.tasks
  {
    var t := k.tasks[p];
    && (forall e: nat | e < |k.events| :: p !in k.events[e].waiters)
    && t.multi.None? && t.eventPtr.None? && t.stat <= {StSuspend} && t.statPend == PendOk
    && (p in k.ready <==> t.dly == 0 && StSuspend !in t.stat)
  }

  /** On the wait list of every event of the call: still waiting, or timed out and not yet run. */
  ghost predicate OnAll(k: Kernel, p: Prio, evs: seq<EvId>) {
    forall e: nat | e < |k.events| :: p in k.events[e].waiters <==> e in evs
  }

  ghost predicate OnNone(k: Kernel, p: Prio) {
    forall e: nat | e < |k.events| :: p !in k.events[e].waiters
  }

  ghost predicate MultiPending(k: Kernel, p: Prio, evs: seq<EvId>)
    requires p in k.tasks && InRange(k, evs)
  {
    var t := k.tasks[p];
    && OnAll(k, p, evs)
    && t.statPend != PendAbort
    && (t.statPend == PendTo ==> t.dly == 0 && t.stat * PEND_ANY == {})
    && (t.statPend == PendOk && evs != [] ==> p !in k.ready && t.stat * PEND_ANY == Kinds(k.events, evs))
  }

  ghost predicate MultiPosted(k: Kernel, p: Prio, evs: seq<EvId>)
    requires p in k.tasks && k.tasks[p].eventPtr.Some?
  {
    var t := k.tasks[p];
    OnNone(k, p) && t.eventPtr.value in evs && t.statPend != PendTo && t.dly == 0
  }

  ghost predicate MultiInv(k: Kernel, p: Prio, evs: seq<EvId>)
    requires p in k.tasks
  {
    var t := k.tasks[p];
    && InRange(k, evs) && (forall e :: e in evs ==> Pendable(k.events[e].typ))
    && t.multi == Some(evs) && StMulti in t.stat
    && t.stat <= {StSem, StMbox, StQ, StSuspend, StMulti}
    && (p in k.ready ==> t.dly == 0 && StSuspend !in t.stat)
    && (t.eventPtr.None? ==> MultiPending(k, p, evs))
    && (t.eventPtr.Some? ==> MultiPosted(k, p, evs))
  }

  ghost predicate SemInv(k: Kernel, p: Prio, e: EvId)
    requires p in k.tasks
  {
    var t := k.tasks[p];
    && e < |k.events| && k.events[e].typ == Sem
    && t.eventPtr == Some(e) && t.multi.None? && t.stat <= {StSem, StSuspend}
    && (forall x: nat | x < |k.events| && x != e :: p !in k.events[x].waiters)
    && (StSem in t.stat ==> t.statPend == PendOk && p in k.events[e].waiters && p !in k.ready)
    && (StSem !in t.stat ==> t.dly == 0 && (t.statPend == PendTo <==> p in k.events[e].waiters)
                             && (p in k.ready <==> StSuspend !in t.stat))
  }

  ghost predicate TaskInv(k: Kernel, c: Pc, p: Prio)
    requires p in k.tasks
  {
    match c
    case Normal => NormalInv(k, p)
    case InMulti(evs) => MultiInv(k, p, evs)
    case InSem(e) => SemInv(k, p, e)
  }

  ghost predicate Shape(s: Sys) {
    && s.pc.Keys == s.k.tasks.Keys
    && s.k.ready <= s.k.tasks.Keys
    && (forall p :: p in s.k.tasks ==> p <= LOWEST_PRIO)
    && (forall e: nat | e < |s.k.events| :: s.k.events[e].waiters <= s.k.tasks.Keys)
    && s.k.cur in s.k.tasks
    && IDLE_PRIO in s.k.ready && s.pc[IDLE_PRIO] == Normal
  }

  ghost predicate Inv(s: Sys) {
    && Shape(s)
    && (forall p :: p in s.k.tasks ==> TaskInv(s.k, s.pc[p], p))
    && (s.k.intNest == 0 && s.k.lockNest == 0 && !s.yielding ==> s.k.cur in s.k.ready)
    && (s.pc[s.k.cur] != Normal ==> s.k.lockNest == 0)
  }

  // ----- steps -----

  predicate TaskLevel(s: Sys)
    requires s.k.cur in s.pc
  {
    s.k.intNest == 0 && !s.yielding && s.pc[s.k.cur] == Normal
  }

  /** Which critical sections can come next.  Posts, aborts, ticks, suspensions and resumptions may come
      from an ISR at any moment; the idle task only spins. */
  ghost predicate Enabled(s: Sys, l: Label)
    requires Shape(s)
  {
    match l
    case LCreate(p) => TaskLevel(s) && p < LOWEST_PRIO && p !in s.k.tasks
    case LPendMulti(evs, _) => InRange(s.k, evs) && (s.k.intNest > 0 || (TaskLevel(s) && s.k.cur != IDLE_PRIO))
    case LSemPend(e, _) => e < |s.k.events| && (s.k.intNest > 0 || (TaskLevel(s) && s.k.cur != IDLE_PRIO))
    case LFinishMulti => s.k.intNest == 0 && !s.yielding && s.pc[s.k.cur].InMulti?
    case LFinishSem => s.k.intNest == 0 && !s.yielding && s.pc[s.k.cur].InSem? && s.pc[s.k.cur].e < |s.k.events|
    case LPost(e, _) => e < |s.k.events|
    case LAbort(e) => e < |s.k.events|
    case LTick(p) => p in s.k.tasks && p != IDLE_PRIO
    case LSuspend(p) => p in s.k.tasks && p < LOWEST_PRIO
    case LResume(p) => p in s.k.tasks && p < LOWEST_PRIO
    case LTimeDly(_) => s.k.intNest > 0 || (TaskLevel(s) && s.k.cur != IDLE_PRIO)
    case LLock => s.k.intNest > 0 || TaskLevel(s)
    case LUnlock => s.k.intNest > 0 || TaskLevel(s)
    case LSched => true
    case LIntEnter => true
    case LIntExit => true
  }

  ghost function Next(s: Sys, l: Label): Sys
    requires Shape(s) && Enabled(s, l)
  {
    match l
    case LCreate(p) =>
      var k := Create(s.k, p);
      Sys(k, if k == s.k then s.pc else s.pc[p := Normal], s.yielding)
    case LPendMulti(evs, timeout) =>
      var r := PendMulti(s.k, evs, timeout);
      if r.blocked then Sys(r.k, s.pc[s.k.cur := InMulti(evs)], true) else s.(k := r.k)
    case LSemPend(e, timeout) =>
      var r := SemPend(s.k, e, timeout);
      if r.blocked then Sys(r.k, s.pc[s.k.cur := InSem(e)], true) else s.(k := r.k)
    case LFinishMulti => Sys(FinishMulti(s.k, s.pc[s.k.cur].evs), s.pc[s.k.cur := Normal], s.yielding)
    case LFinishSem => Sys(FinishSem(s.k, s.pc[s.k.cur].e), s.pc[s.k.cur := Normal], s.yielding)
    case LPost(e, msg) => s.(k := Post(s.k, e, msg).0)
    case LAbort(e) => s.(k := Abort(s.k, e))
    case LTick(p) => s.(k := TickTask(s.k, p))
    case LSuspend(p) => Sys(Suspend(s.k, p), s.pc, s.yielding || p == s.k.cur)
    case LResume(p) => s.(k := Resume(s.k, p))
    case LTimeDly(n) => Sys(TimeDly(s.k, n), s.pc, s.yielding || (s.k.intNest == 0 && n > 0))
    case LLock => s.(k := SchedLock(s.k))
    case LUnlock =>
      Sys(SchedUnlock(s.k), s.pc, s.yielding || (s.k.lockNest == 1 && s.k.intNest == 0))
    case LSched => Sys(Sched(s.k), s.pc, s.yielding && s.k.intNest > 0)
    case LIntEnter => s.(k := IntEnter(s.k))
    case LIntExit =>
      var k := IntExit(s.k);
      Sys(k, s.pc, s.yielding && !(k.intNest == 0 && k.lockNest == 0))
  }

  /** Everything TaskInv reads about p is the same in both kernels. */
  ghost predicate SameFor(k: Kernel, k': Kernel, p: Prio) {
    && p in k.tasks && p in k'.tasks && k.tasks[p] == k'.tasks[p]
    && (p in k.ready <==> p in k'.ready)
    && |k.events| == |k'.events|
    && (forall e: nat | e < |k.events| ::
          k.events[e].typ == k'.events[e].typ && (p in k.events[e].waiters <==> p in k'.events[e].waiters))
  }

  lemma Frame(k: Kernel, k': Kernel, c: Pc, p: Prio)
    requires SameFor(k, k', p)
    requires TaskInv(k, c, p)
    ensures TaskInv(k', c, p)
  {
    if c.InMulti? {
      assert Kinds(k.events, c.evs) == Kinds(k'.events, c.evs);
    }
  }

  lemma KindsPending(events: seq<Event>, evs: seq<EvId>)
    requires forall e :: e in evs ==> e < |events| && Pendable(events[e].typ)
    ensures Kinds(events, evs) <= {StSem, StMbox, StQ}
    ensures evs != [] ==> Kinds(events, evs) != {}
  {
    if evs != [] {
      assert evs[0] in evs;
      assert KindBit(events[evs[0]].typ) in Kinds(events, evs);
    }
  }

  /** Readying the woken task itself keeps its part of the invariant. */
  lemma ReadyOwn(k: Kernel, c: Pc, e: EvId, msg: Msg, ps: PendStat)
    requires e < |k.events| && k.events[e].waiters != {} && k.events[e].waiters <= k.tasks.Keys
    requires ps != PendTo
    requires TaskInv(k, c, Min(k.events[e].waiters))
    ensures TaskInv(EventTaskRdy(k, e, msg, {KindBit(k.events[e].typ)}, ps), c, Min(k.events[e].waiters))
  {
    var p := Min(k.events[e].waiters);
    var k' := EventTaskRdy(k, e, msg, {KindBit(k.events[e].typ)}, ps);
    match c
    case Normal =>
    case InMulti(evs) =>
      assert MultiPosted(k', p, evs);
    case InSem(x) =>
      assert x == e;
  }

  lemma ReadyOthers(k: Kernel, e: EvId, msg: Msg, ps: PendStat, q: Prio)
    requires e < |k.events| && k.events[e].waiters != {} && k.events[e].waiters <= k.tasks.Keys
    requires q in k.tasks && q != Min(k.events[e].waiters)
    ensures SameFor(k, EventTaskRdy(k, e, msg, {KindBit(k.events[e].typ)}, ps), q)
  {
  }

  lemma ReadyStep(s: Sys, e: EvId, msg: Msg, ps: PendStat)
    requires Inv(s) && e < |s.k.events| && s.k.events[e].waiters != {}
    requires ps != PendTo
    ensures var k' := EventTaskRdy(s.k, e, msg, {KindBit(s.k.events[e].typ)}, ps); Inv(s.(k := k'))
  {
    hide SameFor, NormalInv, MultiInv, SemInv;
    var k := s.k;
    var p := Min(k.events[e].waiters);
    var k' := EventTaskRdy(k, e, msg, {KindBit(k.events[e].typ)}, ps);
    assert TaskInv(k, s.pc[p], p);
    ReadyOwn(k, s.pc[p], e, msg, ps);
    forall q | q in k.tasks && q != p ensures TaskInv(k', s.pc[q], q) {
      ReadyOthers(k, e, msg, ps, q);
      Frame(k, k', s.pc[q], q);
    }
    assert Shape(s.(k := k'));
  }

  lemma TickOwn(k: Kernel, c: Pc, p: Prio)
    requires p in k.tasks && TaskInv(k, c, p)
    ensures TaskInv(TickTask(k, p), c, p)
  {
    if c.InMulti? {
      KindsPending(k.events, c.evs);
    }
  }

  lemma TickStep(s: Sys, p: Prio)
    requires Inv(s) && p in s.k.tasks && p != IDLE_PRIO
    ensures Inv(s.(k := TickTask(s.k, p)))
  {
    var k' := TickTask(s.k, p);
    TickOwn(s.k, s.pc[p], p);
    forall q | q in s.k.tasks && q != p ensures TaskInv(k', s.pc[q], q) {
      Frame(s.k, k', s.pc[q], q);
    }
  }

  /** A step that touches only task p keeps the invariant of every other task. */
  lemma OthersKeep(s: Sys, s': Sys, p: Prio)
    requires Inv(s) && s'.pc.Keys == s'.k.tasks.Keys == s.k.tasks.Keys + {p}
    requires forall q :: q in s.k.tasks && q != p ==> SameFor(s.k, s'.k, q) && s.pc[q] == s'.pc[q]
    requires TaskInv(s'.k, s'.pc[p], p)
    ensures forall q :: q in s'.k.tasks ==> TaskInv(s'.k, s'.pc[q], q)
  {
    forall q | q in s'.k.tasks ensures TaskInv(s'.k, s'.pc[q], q) {
      if q != p {
        Frame(s.k, s'.k, s.pc[q], q);
      }
    }
  }

  /** A step that leaves every TCB and list alone. */
  lemma AllKeep(s: Sys, s': Sys)
    requires Inv(s) && s'.pc == s.pc && s'.k.tasks == s.k.tasks
    requires forall q :: q in s.k.tasks ==> SameFor(s.k, s'.k, q)
    ensures forall q :: q in s'.k.tasks ==> TaskInv(s'.k, s'.pc[q], q)
  {
    forall q | q in s'.k.tasks ensures TaskInv(s'.k, s'.pc[q], q) {
      Frame(s.k, s'.k, s.pc[q], q);
    }
  }

  lemma {:induction false} TakeAllKeepsLists(events: seq<Event>, evs: seq<EvId>)
    requires forall e :: e in evs ==> e < |events|
    ensures var r := TakeAll(events, evs).events;
      forall i: nat | i < |events| ::
        r[i].waiters == events[i].waiters && r[i].typ == events[i].typ && r[i].size == events[i].size
    decreases |evs|
  {
    if evs != [] {
      var init := evs[..|evs| - 1];
      assert forall x :: x in init ==> x in evs;
      TakeAllKeepsLists(events, init);
    }
  }

  /** Blocking puts the caller on every listed event's wait list. */
  lemma BlockOwn(k: Kernel, evs: seq<EvId>, timeout: nat)
    requires k.cur in k.tasks && NormalInv(k, k.cur) && InRange(k, evs)
    requires forall e :: e in evs ==> Pendable(k.events[e].typ)
    ensures MultiInv(BlockMulti(k, evs, timeout), k.cur, evs)
  {
    var k' := BlockMulti(k, evs, timeout);
    KindsPending(k.events, evs);
    assert forall e :: e in evs ==> k'.events[e].typ == k.events[e].typ;
    assert Kinds(k.events, evs) == Kinds(k'.events, evs);
    assert k'.tasks[k.cur].stat * PEND_ANY == Kinds(k.events, evs);
  }

  lemma BlockOthers(k: Kernel, evs: seq<EvId>, timeout: nat, q: Prio)
    requires k.cur in k.tasks && InRange(k, evs) && q in k.tasks && q != k.cur
    ensures SameFor(k, BlockMulti(k, evs, timeout), q)
  {
  }

  lemma BlockShape(s: Sys, evs: seq<EvId>, timeout: nat)
    requires Shape(s) && InRange(s.k, evs) && s.k.cur != IDLE_PRIO
    ensures Shape(Sys(BlockMulti(s.k, evs, timeout), s.pc[s.k.cur := InMulti(evs)], true))
  {
    var k' := BlockMulti(s.k, evs, timeout);
    forall e: nat | e < |k'.events| ensures k'.events[e].waiters <= k'.tasks.Keys {
      assert k'.events[e].waiters <= s.k.events[e].waiters + {s.k.cur};
    }
  }

  lemma BlockStep(s: Sys, evs: seq<EvId>, timeout: nat)
    requires Inv(s) && TaskLevel(s) && s.k.cur != IDLE_PRIO && s.k.lockNest == 0 && InRange(s.k, evs)
    requires forall e :: e in evs ==> Pendable(s.k.events[e].typ)
    ensures Inv(Sys(BlockMulti(s.k, evs, timeout), s.pc[s.k.cur := InMulti(evs)], true))
  {
    var s' := Sys(BlockMulti(s.k, evs, timeout), s.pc[s.k.cur := InMulti(evs)], true);
    BlockShape(s, evs, timeout);
    assert TaskInv(s.k, s.pc[s.k.cur], s.k.cur);
    BlockOwn(s.k, evs, timeout);
    forall q | q in s.k.tasks && q != s.k.cur ensures TaskInv(s'.k, s'.pc[q], q) {
      BlockOthers(s.k, evs, timeout, q);
      Frame(s.k, s'.k, s.pc[q], q);
    }
  }

  lemma TakeStep(s: Sys, evs: seq<EvId>)
    requires Inv(s) && InRange(s.k, evs)
    ensures Inv(s.(k := s.k.(events := TakeAll(s.k.events, evs).events)))
  {
    TakeAllKeepsLists(s.k.events, evs);
    AllKeep(s, s.(k := s.k.(events := TakeAll(s.k.events, evs).events)));
  }

  lemma PendMultiStep(s: Sys, evs: seq<EvId>, timeout: nat)
    requires Inv(s) && Enabled(s, LPendMulti(evs, timeout))
    ensures Inv(Next(s, LPendMulti(evs, timeout)))
  {
    var r := PendMulti(s.k, evs, timeout);
    if r.blocked {
      BlockStep(s, evs, timeout);
    } else if r.k != s.k {
      TakeStep(s, evs);
    }
  }

  lemma SemBlockOthers(k: Kernel, e: EvId, timeout: nat, q: Prio)
    requires k.cur in k.tasks && e < |k.events| && q in k.tasks && q != k.cur
    ensures SameFor(k, SemPend(k, e, timeout).k, q)
  {
  }

  /** Blocking in a semaphore pend establishes the caller's part of the invariant and keeps the shape. */
  lemma SemBlockOwn(s: Sys, e: EvId, timeout: nat)
    requires Inv(s) && Enabled(s, LSemPend(e, timeout)) && SemPend(s.k, e, timeout).blocked
    ensures var k' := SemPend(s.k, e, timeout).k;
      s.k.cur in k'.tasks && SemInv(k', s.k.cur, e) && Shape(Sys(k', s.pc[s.k.cur := InSem(e)], true))
    ensures s.k.lockNest == 0 && SemPend(s.k, e, timeout).k.lockNest == 0
    ensures SemPend(s.k, e, timeout).k.cur == s.k.cur && SemPend(s.k, e, timeout).k.tasks.Keys == s.k.tasks.Keys
  {
    assert TaskInv(s.k, s.pc[s.k.cur], s.k.cur);
    assert NormalInv(s.k, s.k.cur);
  }

  lemma SemTakeStep(s: Sys, e: EvId, timeout: nat)
    requires Inv(s) && Enabled(s, LSemPend(e, timeout)) && !SemPend(s.k, e, timeout).blocked
    ensures Inv(s.(k := SemPend(s.k, e, timeout).k))
  {
    AllKeep(s, s.(k := SemPend(s.k, e, timeout).k));
  }

  lemma SemPendStep(s: Sys, e: EvId, timeout: nat)
    requires Inv(s) && Enabled(s, LSemPend(e, timeout))
    ensures Inv(Next(s, LSemPend(e, timeout)))
  {
    hide SemPend, SameFor, NormalInv, SemInv, MultiInv;
    var r := SemPend(s.k, e, timeout);
    var s' := Next(s, LSemPend(e, timeout));
    if r.blocked {
      SemBlockOwn(s, e, timeout);
      assert TaskInv(s'.k, s'.pc[s.k.cur], s.k.cur);
      forall q | q in s.k.tasks && q != s.k.cur ensures SameFor(s.k, s'.k, q) && s.pc[q] == s'.pc[q] {
        SemBlockOthers(s.k, e, timeout, q);
      }
      OthersKeep(s, s', s.k.cur);
    } else {
      SemTakeStep(s, e, timeout);
    }
  }

  lemma FinishOwn(k: Kernel, evs: seq<EvId>)
    requires k.cur in k.tasks && MultiInv(k, k.cur, evs) && k.cur in k.ready && k.cur != IDLE_PRIO
    ensures InRange(k, evs) && NormalInv(FinishMulti(k, evs), k.cur)
  {
  }

  lemma FinishOthers(k: Kernel, evs: seq<EvId>, q: Prio)
    requires k.cur in k.tasks && InRange(k, evs) && q in k.tasks && q != k.cur
    ensures SameFor(k, FinishMulti(k, evs), q)
  {
  }

  lemma FinishShape(s: Sys)
    requires Inv(s) && Enabled(s, LFinishMulti)
    ensures s.k.cur in s.k.ready && s.k.cur != IDLE_PRIO && InRange(s.k, s.pc[s.k.cur].evs)
    ensures Shape(Next(s, LFinishMulti))
    ensures var k' := Next(s, LFinishMulti).k;
      k'.ready == s.k.ready && k'.cur == s.k.cur && k'.tasks.Keys == s.k.tasks.Keys
  {
    assert TaskInv(s.k, s.pc[s.k.cur], s.k.cur);
  }

  lemma FinishMultiStep(s: Sys)
    requires Inv(s) && Enabled(s, LFinishMulti)
    ensures Inv(Next(s, LFinishMulti))
  {
    hide MultiInv, NormalInv, SemInv, FinishMulti, SameFor;
    var s' := Next(s, LFinishMulti);
    var evs := s.pc[s.k.cur].evs;
    FinishShape(s);
    assert TaskInv(s.k, s.pc[s.k.cur], s.k.cur);
    FinishOwn(s.k, evs);
    assert TaskInv(s'.k, s'.pc[s.k.cur], s.k.cur);
    forall q | q in s.k.tasks && q != s.k.cur ensures SameFor(s.k, s'.k, q) && s.pc[q] == s'.pc[q] {
      FinishOthers(s.k, evs, q);
    }
    OthersKeep(s, s', s.k.cur);
  }

  lemma FinishSemStep(s: Sys)
    requires Inv(s) && Enabled(s, LFinishSem)
    ensures Inv(Next(s, LFinishSem))
  {
    var s' := Next(s, LFinishSem);
    assert SemInv(s.k, s.k.cur, s.pc[s.k.cur].e);
    assert NormalInv(s'.k, s.k.cur);
    OthersKeep(s, s', s.k.cur);
  }

  /** A post that finds nobody waiting touches no wait list. */
  lemma DepositSameFor(k: Kernel, e: EvId, msg: Msg, q: Prio)
    requires e < |k.events| && k.events[e].waiters <= k.tasks.Keys && q in k.tasks
    requires k.events[e].waiters == {} || !Pendable(k.events[e].typ) || (k.events[e].typ == Mbox && msg == NULL_MSG)
    ensures SameFor(k, Post(k, e, msg).0, q) && var k' := Post(k, e, msg).0; k' == k.(events := k'.events)
    ensures forall i: nat :: i < |k.events| ==> Post(k, e, msg).0.events[i].waiters == k.events[i].waiters
  {
  }

  lemma PostStep(s: Sys, e: EvId, msg: Msg)
    requires Inv(s) && e < |s.k.events|
    ensures Inv(Next(s, LPost(e, msg)))
  {
    hide SameFor, TaskInv;
    var s' := Next(s, LPost(e, msg));
    var typ := s.k.events[e].typ;
    if s.k.events[e].waiters != {} && Pendable(typ) && !(typ == Mbox && msg == NULL_MSG) {
      ReadyStep(s, e, if typ == Sem then NULL_MSG else msg, PendOk);
    } else {
      forall q | q in s.k.tasks ensures SameFor(s.k, s'.k, q) && s'.k == s.k.(events := s'.k.events) {
        DepositSameFor(s.k, e, msg, q);
      }
      AllKeep(s, s');
    }
  }

  lemma AbortStep(s: Sys, e: EvId)
    requires Inv(s) && e < |s.k.events|
    ensures Inv(Next(s, LAbort(e)))
  {
    hide TaskInv, SameFor;
    if Pendable(s.k.events[e].typ) && s.k.events[e].waiters != {} {
      ReadyStep(s, e, NULL_MSG, PendAbort);
    }
  }

  lemma CreatedNormal(k: Kernel, p: Prio)
    requires p !in k.tasks && |k.tasks| < MAX_TCBS
    requires forall e: nat | e < |k.events| :: k.events[e].waiters <= k.tasks.Keys
    ensures NormalInv(Create(k, p), p)
  {
  }

  lemma CreateStep(s: Sys, p: Prio)
    requires Inv(s) && Enabled(s, LCreate(p))
    ensures Inv(Next(s, LCreate(p)))
  {
    hide MultiInv, SemInv, NormalInv;
    var s' := Next(s, LCreate(p));
    if s'.k == s.k {
      AllKeep(s, s');
    } else {
      CreatedNormal(s.k, p);
      OthersKeep(s, s', p);
    }
  }

  lemma SuspendOwn(k: Kernel, c: Pc, p: Prio)
    requires p in k.tasks && TaskInv(k, c, p)
    ensures TaskInv(Suspend(k, p), c, p)
  {
    if c.InMulti? {
      assert Kinds(k.events, c.evs) == Kinds(Suspend(k, p).events, c.evs);
      assert (k.tasks[p].stat + {StSuspend}) * PEND_ANY == k.tasks[p].stat * PEND_ANY;
    }
  }

  lemma ResumeOwn(k: Kernel, c: Pc, p: Prio)
    requires p in k.tasks && TaskInv(k, c, p)
    ensures TaskInv(Resume(k, p), c, p)
  {
    var t' := Resume(k, p).tasks[p];
    match c
    case Normal => assert t'.stat == {};
    case InMulti(evs) =>
      assert StMulti in t'.stat;
      assert t'.stat * PEND_ANY == k.tasks[p].stat * PEND_ANY;
    case InSem(_) => assert StSem !in t'.stat ==> t'.stat == {};
  }

  lemma SuspendStep(s: Sys, p: Prio)
    requires Inv(s) && Enabled(s, LSuspend(p))
    ensures Inv(Next(s, LSuspend(p)))
  {
    SuspendOwn(s.k, s.pc[p], p);
    OthersKeep(s, Next(s, LSuspend(p)), p);
  }

  lemma ResumeStep(s: Sys, p: Prio)
    requires Inv(s) && Enabled(s, LResume(p))
    ensures Inv(Next(s, LResume(p)))
  {
    ResumeOwn(s.k, s.pc[p], p);
    OthersKeep(s, Next(s, LResume(p)), p);
  }

  lemma TimeDlyStep(s: Sys, n: nat)
    requires Inv(s) && Enabled(s, LTimeDly(n))
    ensures Inv(Next(s, LTimeDly(n)))
  {
    var s' := Next(s, LTimeDly(n));
    if s'.k == s.k {
      AllKeep(s, s');
    } else {
      assert NormalInv(s.k, s.k.cur);
      OthersKeep(s, s', s.k.cur);
    }
  }

  /** The scheduler's own steps touch no task, no event and no readiness, and run only ready tasks. */
  lemma SchedulerTouches(s: Sys, l: Label)
    requires Shape(s) && Enabled(s, l) && (l.LSched? || l.LIntEnter? || l.LIntExit? || l.LLock? || l.LUnlock?)
    ensures var s' := Next(s, l);
      && s'.pc == s.pc && s'.k.tasks == s.k.tasks && s'.k.events == s.k.events && s'.k.ready == s.k.ready
      && (s'.k.cur == s.k.cur || (s'.k.cur in s.k.ready && s'.k.intNest == 0 && s'.k.lockNest == 0))
  {
  }

  lemma SchedulerCounters(s: Sys, l: Label)
    requires Inv(s) && Enabled(s, l) && (l.LSched? || l.LIntEnter? || l.LIntExit? || l.LLock? || l.LUnlock?)
    ensures var s' := Next(s, l);
      && (s'.k.intNest == 0 && s'.k.lockNest == 0 && !s'.yielding ==> s'.k.cur in s.k.ready)
      && (s'.k.cur == s.k.cur && s.pc[s.k.cur] != Normal ==> s'.k.lockNest == 0)
  {
    hide TaskInv;
  }

  lemma SchedulerStep(s: Sys, l: Label)
    requires Inv(s) && Enabled(s, l) && (l.LSched? || l.LIntEnter? || l.LIntExit? || l.LLock? || l.LUnlock?)
    ensures Inv(Next(s, l))
  {
    hide Next, Enabled, TaskInv;
    SchedulerTouches(s, l);
    SchedulerCounters(s, l);
    AllKeep(s, Next(s, l));
  }

  /** Every critical section keeps the invariant. */
  lemma StepKeepsInv(s: Sys, l: Label)
    requires Inv(s) && Enabled(s, l)
    ensures Inv(Next(s, l))
  {
    hide TaskInv, SameFor, InRange;
    match l
    case LCreate(p) => CreateStep(s, p);
    case LPendMulti(evs, timeout) => PendMultiStep(s, evs, timeout);
    case LFinishMulti => FinishMultiStep(s);
    case LSemPend(e, timeout) => SemPendStep(s, e, timeout);
    case LFinishSem => FinishSemStep(s);
    case LPost(e, msg) => PostStep(s, e, msg);
    case LAbort(e) => AbortStep(s, e);
    case LTick(p) => TickStep(s, p);
    case LSuspend(p) => SuspendStep(s, p);
    case LResume(p) => ResumeStep(s, p);
    case LTimeDly(n) => TimeDlyStep(s, n);
    case _ => SchedulerStep(s, l);
  }
}
