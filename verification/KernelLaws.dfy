/** Laws of whole runs that fix the kernel's services by their effects: how deep the nesting is, which tasks exist, when
    a timeout comes, and where the units of every event go. */
module KernelLaws {
  import opened Options
  import opened KernelSpec
  import opened KernelRuns
  import opened KernelTheorems
  import KP = KernelPoll

  // ----- tasks -----

  /** The tasks there are after the creations of a run, of which the kernel has room for twelve. */
  function Created(ls: seq<Label>, tasks: set<Prio>): set<Prio> {
    if ls == [] then tasks
    else Created(ls[1..], if ls[0].LCreate? && |tasks| < 12 then tasks + {ls[0].p} else tasks)
  }

  lemma CreationStep(s: Sys, l: Label)
    requires Inv(s) && Enabled(s, l)
    ensures Next(s, l).k.tasks.Keys == Created([l], s.k.tasks.Keys)
  {
    hide TaskInv;
    assert |s.k.tasks| == |s.k.tasks.Keys|;
    if l.LPost? {
      PostTasks(s.k, l.e, l.msg);
    }
  }

  lemma {:induction false} TasksAreThoseCreated(s: Sys, ls: seq<Label>)
    requires Inv(s) && Runs(s, ls)
    ensures Exec(s, ls).k.tasks.Keys == Created(ls, s.k.tasks.Keys)
    decreases |ls|
  {
    if ls != [] {
      CreationStep(s, ls[0]);
      StepKeepsInv(s, ls[0]);
      TasksAreThoseCreated(Next(s, ls[0]), ls[1..]);
    }
  }

  /** A task is ready from its creation on, until its own first step or a suspension. */
  lemma CreatedIsReady(s: Sys, p: Prio, ls: seq<Label>)
    requires Inv(s) && Enabled(s, LCreate(p)) && |s.k.tasks| < 12
    requires Runs(Next(s, LCreate(p)), ls) && LeftAlone(Next(s, LCreate(p)), ls, p)
    ensures p in Exec(Next(s, LCreate(p)), ls).k.ready
  {
    StepKeepsInv(s, LCreate(p));
    ReadyUntilOwnStep(Next(s, LCreate(p)), ls, p);
  }

  // ----- nesting -----

  function Nested(l: Label, d: nat): nat {
    if l.LIntEnter? && d < 255 then d + 1 else if l.LIntExit? && d > 0 then d - 1 else d
  }

  /** The interrupt nesting after the labels of a run, from the labels alone. */
  function Depth(ls: seq<Label>, d: nat): nat {
    if ls == [] then d else Depth(ls[1..], Nested(ls[0], d))
  }

  /** Locks count outside interrupts only, unlocks everywhere. */
  function LockCount(l: Label, d: nat, n: nat): nat {
    if l.LLock? && d == 0 && n < 255 then n + 1 else if l.LUnlock? && n > 0 then n - 1 else n
  }

  /** The lock nesting after a run. */
  function Locks(ls: seq<Label>, d: nat, n: nat): nat {
    if ls == [] then n else Locks(ls[1..], Nested(ls[0], d), LockCount(ls[0], d, n))
  }

  lemma CounterStep(s: Sys, l: Label)
    requires Shape(s) && Enabled(s, l)
    ensures Next(s, l).k.intNest == Nested(l, s.k.intNest)
    ensures Next(s, l).k.lockNest == LockCount(l, s.k.intNest, s.k.lockNest)
  {
    if l.LPost? {
      PostTasks(s.k, l.e, l.msg);
    }
  }

  lemma {:induction false} CountersFromLabels(s: Sys, ls: seq<Label>)
    requires Runs(s, ls)
    ensures Exec(s, ls).k.intNest == Depth(ls, s.k.intNest)
    ensures Exec(s, ls).k.lockNest == Locks(ls, s.k.intNest, s.k.lockNest)
    decreases |ls|
  {
    if ls != [] {
      CounterStep(s, ls[0]);
      CountersFromLabels(Next(s, ls[0]), ls[1..]);
    }
  }

  function Enters(ls: seq<Label>): nat {
    if ls == [] then 0 else (if ls[0].LIntEnter? then 1 else 0) + Enters(ls[1..])
  }

  function Exits(ls: seq<Label>): nat {
    if ls == [] then 0 else (if ls[0].LIntExit? then 1 else 0) + Exits(ls[1..])
  }

  /** From depth d on, no exit ends the outermost interrupt and no enter finds the counter at its limit. */
  predicate Inside(ls: seq<Label>, d: nat) {
    ls != [] ==>
      (ls[0].LIntExit? ==> d > 1) && (ls[0].LIntEnter? ==> d < 255) && Inside(ls[1..], Nested(ls[0], d))
  }

  lemma {:induction false} DepthCounts(ls: seq<Label>, d: nat)
    requires d > 0 && Inside(ls, d)
    ensures Depth(ls, d) == d + Enters(ls) - Exits(ls) > 0
  {
    if ls != [] {
      DepthCounts(ls[1..], Nested(ls[0], d));
    }
  }

  /** Inside an interrupt the running task does not change. */
  lemma {:induction false} InterruptedTaskStays(s: Sys, ls: seq<Label>)
    requires Runs(s, ls) && s.k.intNest > 0 && Inside(ls, s.k.intNest)
    ensures Exec(s, ls).k.cur == s.k.cur
    decreases |ls|
  {
    if ls != [] {
      var s1 := Next(s, ls[0]);
      CounterStep(s, ls[0]);
      if ls[0] != LSched && ls[0] != LIntExit {
        CurStays(s, ls[0]);
      }
      InterruptedTaskStays(s1, ls[1..]);
    }
  }

  /** An interrupt from task level, with as many others nested in it as the counter allows: it ends at task level, the
      task it came upon is the running one until the last exit, and that exit runs the most urgent ready task unless the
      scheduler is locked. */
  lemma InterruptReturns(s: Sys, body: seq<Label>)
    requires Inv(s) && s.k.intNest == 0 && Runs(s, [LIntEnter] + body) && Inside(body, 1) && Enters(body) == Exits(body)
    ensures var s1 := Exec(s, [LIntEnter] + body);
      && Shape(s1) && Enabled(s1, LIntExit) && s1.k.intNest == 1 && s1.k.cur == s.k.cur
      && var k' := Next(s1, LIntExit).k;
        && k'.intNest == 0 && k'.ready == s1.k.ready
        && if s1.k.lockNest == 0 then IsMin(k'.ready, k'.cur) else k'.cur == s.k.cur
  {
    RunStep(s, LIntEnter, body);
    var s0 := Next(s, LIntEnter);
    CounterStep(s, LIntEnter);
    StepKeepsInv(s, LIntEnter);
    CountersFromLabels(s0, body);
    DepthCounts(body, 1);
    InterruptedTaskStays(s0, body);
    RunKeepsInv(s0, body);
    CounterStep(Exec(s0, body), LIntExit);
  }

  /** The scheduler is locked throughout the run. */
  predicate Locked(ls: seq<Label>, d: nat, n: nat) {
    n > 0 && (ls != [] ==> Locked(ls[1..], Nested(ls[0], d), LockCount(ls[0], d, n)))
  }

  /** While the scheduler is locked, interrupts included, no other task runs. */
  lemma {:induction false} LockedTaskStays(s: Sys, ls: seq<Label>)
    requires Runs(s, ls) && Locked(ls, s.k.intNest, s.k.lockNest)
    ensures Exec(s, ls).k.cur == s.k.cur && Exec(s, ls).k.lockNest > 0
    decreases |ls|
  {
    if ls != [] {
      CounterStep(s, ls[0]);
      if ls[0] != LSched && ls[0] != LIntExit {
        CurStays(s, ls[0]);
      }
      LockedTaskStays(Next(s, ls[0]), ls[1..]);
    }
  }

  /** A locked section from task level, with as many nested locks and interrupts in it as the counters allow: no other
      task runs in it, and its unlock and the scheduling that follows run the most urgent ready task. */
  lemma LockReleases(s: Sys, body: seq<Label>)
    requires Inv(s) && s.k.intNest == 0 && s.k.lockNest == 0 && Runs(s, [LLock] + body)
    requires Locked(body, 0, 1) && Depth(body, 0) == 0 && Locks(body, 0, 1) == 1
    ensures var s1 := Exec(s, [LLock] + body);
      && Shape(s1) && s1.k.cur == s.k.cur && s1.k.intNest == 0 && s1.k.lockNest == 1
      && (Enabled(s1, LUnlock) ==>
            var s2 := Next(s1, LUnlock);
            && s2.k == s1.k.(lockNest := 0) && s2.yielding
            && Shape(s2) && IsMin(s1.k.ready, Next(s2, LSched).k.cur))
  {
    hide TaskInv;
    RunStep(s, LLock, body);
    var s0 := Next(s, LLock);
    CounterStep(s, LLock);
    StepKeepsInv(s, LLock);
    CountersFromLabels(s0, body);
    LockedTaskStays(s0, body);
    RunKeepsInv(s0, body);
    LastUnlock(Exec(s0, body));
  }

  lemma LastUnlock(s: Sys)
    requires Inv(s) && s.k.intNest == 0 && s.k.lockNest == 1
    ensures Enabled(s, LUnlock) ==>
      var s' := Next(s, LUnlock);
      s'.k == s.k.(lockNest := 0) && s'.yielding && Shape(s') && IsMin(s.k.ready, Next(s', LSched).k.cur)
  {
    hide TaskInv;
  }

  // ----- timeouts -----

  predicate Waits(l: Label) {
    l.LPendMulti? || l.LSemPend? || l.LTimeDly?
  }

  function Timeout(l: Label): nat
    requires Waits(l)
  {
    match l
    case LPendMulti(_, n) => n
    case LSemPend(_, n) => n
    case LTimeDly(n) => n
  }

  lemma WaitBegins(s: Sys, l: Label)
    requires Inv(s) && Enabled(s, l) && Waits(l) && s.k.cur !in Next(s, l).k.ready && s.k.cur in s.k.ready
    ensures var s' := Next(s, l);
      && s.k.cur in s'.k.tasks && s'.k.tasks[s.k.cur].dly == Timeout(l) && StSuspend !in s'.k.tasks[s.k.cur].stat
  {
    hide TaskInv, Inv, LastSuspends, TakeAll;
    assert Shape(s) && StSuspend !in s.k.tasks[s.k.cur].stat by {
      ReadyUnsuspended(s, s.k.cur);
    }
    if l.LPendMulti? {
      assert StSuspend !in Kinds(s.k.events, l.evs);
    }
  }

  lemma ReadyUnsuspended(s: Sys, p: Prio)
    requires Inv(s) && p in s.k.ready
    ensures Shape(s) && StSuspend !in s.k.tasks[p].stat
  {
    if StSuspend in s.k.tasks[p].stat {
      SuspendedUnready(s, p);
    }
  }

  lemma {:induction false} UnreadyStays(s: Sys, ls: seq<Label>, p: Prio)
    requires Inv(s) && Runs(s, ls) && Undisturbed(s, ls, p)
    requires p in s.k.tasks && p !in s.k.ready && s.k.tasks[p].dly == 0
    ensures p !in Exec(s, ls).k.ready
    decreases |ls|
  {
    if ls != [] {
      StepKeepsInv(s, ls[0]);
      if ls[0] != LTick(p) {
        UndisturbedStep(s, ls[0], p);
      }
      UnreadyStays(Next(s, ls[0]), ls[1..], p);
    }
  }

  /** A task whose pend or delay took it off the ready list, and that nothing else wakes, is ready exactly from the n-th
      tick after it, n being the timeout of the call; with 0 it waits for ever. */
  lemma TimeoutIsTheArgument(s: Sys, l: Label, ls: seq<Label>)
    requires Inv(s) && Enabled(s, l) && Waits(l) && s.k.cur in s.k.ready && s.k.cur !in Next(s, l).k.ready
    requires Runs(Next(s, l), ls) && Undisturbed(Next(s, l), ls, s.k.cur)
    ensures s.k.cur in Exec(Next(s, l), ls).k.ready <==> 0 < Timeout(l) <= Ticks(ls, s.k.cur)
  {
    WaitBegins(s, l);
    StepKeepsInv(s, l);
    if Timeout(l) == 0 {
      UnreadyStays(Next(s, l), ls, s.k.cur);
    } else {
      ReadyOnExactlyTheNthTick(Next(s, l), ls, s.k.cur);
    }
  }

  /** Which of those calls block: a delay of at least one tick, a semaphore pend at zero, and a multi-event pend on
      events that can be pended on and have nothing to give; in an interrupt or with the scheduler locked no pend
      does, and nothing changes. */
  lemma BlocksExactlyIf(s: Sys, l: Label)
    requires Inv(s) && Enabled(s, l) && Waits(l) && s.k.cur in s.k.ready
    ensures s.k.cur !in Next(s, l).k.ready <==>
      && s.k.intNest == 0
      && match l
         case LTimeDly(n) => n > 0
         case LSemPend(e, _) => s.k.lockNest == 0 && s.k.events[e].typ == Sem && s.k.events[e].cnt == 0
         case LPendMulti(evs, _) =>
           && s.k.lockNest == 0
           && forall e :: e in evs ==> Pendable(s.k.events[e].typ) && Units(s.k.events[e]) == 0
    ensures s.k.intNest > 0 || (s.k.lockNest > 0 && !l.LTimeDly?) ==> Next(s, l) == s
  {
    if l.LPendMulti? {
      KP.BlocksIffNothingAvailable(s.k.events, l.evs);
    }
  }

  /** A refused pend has no effect, and it is refused exactly for an event of another kind, inside an interrupt or with
      the scheduler locked. */
  lemma PendRefused(k: Kernel, evs: seq<EvId>, n: nat)
    requires k.cur in k.tasks && InRange(k, evs)
    ensures var r := PendMulti(k, evs, n);
      && (r.err != ErrNone ==> r.k == k && !r.blocked && r.rdy == [] && r.msgs == [])
      && (r.err == ErrNone <==>
            k.intNest == 0 && k.lockNest == 0 && forall e :: e in evs ==> Pendable(k.events[e].typ))
      && (r.blocked || r.rdy != [] <==> r.err == ErrNone)
  {
  }

  /** Neither a post or abort nor a step of its own reaches p; suspensions and resumptions may. */
  ghost predicate OnlyTicked(s: Sys, ls: seq<Label>, p: Prio)
    requires Runs(s, ls)
    decreases |ls|
  {
    ls != [] ==>
      && Woken(s, ls[0], p) == [] && !(TaskLabel(ls[0]) && s.k.cur == p)
      && OnlyTicked(Next(s, ls[0]), ls[1..], p)
  }

  function Left(dly: nat, ticks: nat): nat {
    if ticks <= dly then dly - ticks else 0
  }

  lemma DelayStep(s: Sys, l: Label, p: Prio)
    requires Inv(s) && Enabled(s, l) && p in s.k.tasks && Woken(s, l, p) == [] && !(TaskLabel(l) && s.k.cur == p)
    ensures var s' := Next(s, l);
      && p in s'.k.tasks && s'.pc[p] == s.pc[p]
      && s'.k.tasks[p].dly == Left(s.k.tasks[p].dly, if l == LTick(p) then 1 else 0)
  {
    hide TaskInv, Woken;
    OthersPc(s, l, p);
    if l != LTick(p) && l != LSuspend(p) && l != LResume(p) {
      UndisturbedStep(s, l, p);
    }
  }

  lemma OthersPc(s: Sys, l: Label, p: Prio)
    requires Inv(s) && Enabled(s, l) && p in s.k.tasks && !(TaskLabel(l) && s.k.cur == p)
    ensures p in Next(s, l).pc && Next(s, l).pc[p] == s.pc[p]
  {
    hide TaskInv;
  }

  /** However suspensions and resumptions mix with the ticks: the delay left is what the ticks have not used up, and
      a task outside any pend is ready exactly if none is left and it is not suspended. */
  lemma {:induction false} DelayedReadyIff(s: Sys, ls: seq<Label>, p: Prio)
    requires Inv(s) && Runs(s, ls) && OnlyTicked(s, ls, p) && p in s.k.tasks
    ensures var k' := Exec(s, ls).k; var t := s.k.tasks[p];
      && p in k'.tasks && k'.tasks[p].dly == Left(t.dly, Ticks(ls, p))
      && (s.pc[p] == Normal ==>
            (p in k'.ready <==> Ticks(ls, p) >= t.dly && !LastSuspends(ls, p, StSuspend in t.stat)))
    decreases |ls|
  {
    hide Enabled, Next;
    if ls == [] {
      assert TaskInv(s.k, s.pc[p], p);
    } else {
      StepKeepsInv(s, ls[0]);
      DelayStep(s, ls[0], p);
      SuspensionStep(s, ls[0], p);
      DelayedReadyIff(Next(s, ls[0]), ls[1..], p);
    }
  }

  /** p is inside a pend on at least one event. */
  predicate PendsOn(c: Pc) {
    c.InSem? || (c.InMulti? && c.evs != [])
  }

  lemma StillPends(s: Sys, p: Prio)
    requires Inv(s) && p in s.k.tasks && p in s.pc && PendsOn(s.pc[p]) && s.k.tasks[p].dly > 0
    ensures s.k.tasks[p].statPend == PendOk && s.k.tasks[p].stat * PEND_ANY != {}
  {
    assert TaskInv(s.k, s.pc[p], p);
    if s.pc[p].InMulti? {
      KindsPending(s.k.events, s.pc[p].evs);
    } else {
      assert StSem in s.k.tasks[p].stat * PEND_ANY;
    }
  }

  /** One step of it: the pend's status is a timeout from the tick on that uses up the delay. */
  lemma StatusStep(s: Sys, l: Label, p: Prio)
    requires Inv(s) && Enabled(s, l) && p in s.k.tasks && Woken(s, l, p) == [] && !(TaskLabel(l) && s.k.cur == p)
    requires p in s.pc && PendsOn(s.pc[p]) && (s.k.tasks[p].dly > 0 || s.k.tasks[p].statPend == PendTo)
    ensures p in Next(s, l).k.tasks
    ensures var t, t' := s.k.tasks[p], Next(s, l).k.tasks[p];
      && (t.dly > 0 ==> t.statPend == PendOk)
      && t'.statPend == if t.dly == 0 || (t.dly == 1 && l == LTick(p)) then PendTo else PendOk
  {
    hide Woken, TaskInv;
    if s.k.tasks[p].dly > 0 {
      StillPends(s, p);
    }
    if l == LTick(p) || l == LSuspend(p) || l == LResume(p) {
      assert Next(s, l).k.tasks.Keys == s.k.tasks.Keys;
    } else {
      UndisturbedStep(s, l, p);
    }
  }

  /** A pend nothing reaches has timed out exactly when its ticks are over, suspended or not, and a semaphore pend is
      ready then unless suspended. */
  lemma {:induction false} TimedOutIff(s: Sys, ls: seq<Label>, p: Prio)
    requires Inv(s) && Runs(s, ls) && OnlyTicked(s, ls, p) && p in s.k.tasks && p in s.pc && PendsOn(s.pc[p])
    requires s.k.tasks[p].dly > 0 || s.k.tasks[p].statPend == PendTo
    ensures var k' := Exec(s, ls).k; var t := s.k.tasks[p];
      && p in k'.tasks && (k'.tasks[p].statPend == PendTo <==> Ticks(ls, p) >= t.dly)
      && (s.pc[p].InSem? ==>
            (p in k'.ready <==> Ticks(ls, p) >= t.dly && !LastSuspends(ls, p, StSuspend in t.stat)))
    decreases |ls|
  {
    hide Enabled, Next;
    if ls == [] {
      assert TaskInv(s.k, s.pc[p], p);
    } else {
      StepKeepsInv(s, ls[0]);
      DelayStep(s, ls[0], p);
      StatusStep(s, ls[0], p);
      SuspensionStep(s, ls[0], p);
      TimedOutIff(Next(s, ls[0]), ls[1..], p);
    }
  }

  // ----- the semaphore pend -----

  /** p's semaphore pend has not come back anywhere in the run. */
  ghost predicate SemNotFinished(s: Sys, ls: seq<Label>, p: Prio)
    requires Runs(s, ls)
    decreases |ls|
  {
    ls != [] ==> !(ls[0] == LFinishSem && s.k.cur == p) && SemNotFinished(Next(s, ls[0]), ls[1..], p)
  }

  ghost predicate OnSem(s: Sys, p: Prio) {
    p in s.pc && s.pc[p].InSem? && s.pc[p].e < |s.k.events| && p in s.k.events[s.pc[p].e].waiters
  }

  lemma SemWoken(s: Sys, l: Label, p: Prio)
    requires Inv(s) && Enabled(s, l) && p in s.pc && s.pc[p].InSem? && Woken(s, l, p) != []
    ensures var s' := Next(s, l); var ws := Woken(s, l, p);
      && OnSem(s, p) && p in s'.pc && s'.pc[p] == s.pc[p] && p in s'.k.tasks && !OnSem(s', p)
      && |ws| == 1 && ws[0].e == s.pc[p].e && s'.k.tasks[p].statPend == ws[0].ps
  {
    hide NormalInv, MultiInv;
    assert TaskInv(s.k, s.pc[p], p);
    if l.LPost? {
      PostTasks(s.k, l.e, l.msg);
    }
    StepKeepsInv(s, l);
    assert TaskInv(Next(s, l).k, s.pc[p], p);
  }

  lemma SemQuiet(s: Sys, l: Label, p: Prio)
    requires Inv(s) && Enabled(s, l) && p in s.pc && s.pc[p].InSem? && Woken(s, l, p) == []
    requires !(l == LFinishSem && s.k.cur == p)
    ensures var s' := Next(s, l);
      && p in s'.pc && s'.pc[p] == s.pc[p] && p in s'.k.tasks && (OnSem(s', p) <==> OnSem(s, p))
      && (!OnSem(s, p) ==> s'.k.tasks[p].statPend == s.k.tasks[p].statPend)
  {
    hide Enabled, Next, TaskInv, Woken;
    StepKeepsInv(s, l);
    SemOnList(s, p);
    PcStays(s, l, p);
    SemOnList(Next(s, l), p);
    if l == LTick(p) || l == LSuspend(p) || l == LResume(p) || (TaskLabel(l) && s.k.cur == p) {
      SemOwn(s, l, p);
    } else {
      UndisturbedStep(s, l, p);
    }
  }

  lemma SemOnList(s: Sys, p: Prio)
    requires Inv(s) && p in s.pc && s.pc[p].InSem?
    ensures p in s.k.tasks && (OnSem(s, p) <==> StSem in s.k.tasks[p].stat || s.k.tasks[p].statPend == PendTo)
  {
    assert TaskInv(s.k, s.pc[p], p);
  }

  lemma PcStays(s: Sys, l: Label, p: Prio)
    requires Inv(s) && Enabled(s, l) && p in s.pc && s.pc[p].InSem? && !(l == LFinishSem && s.k.cur == p)
    ensures p in Next(s, l).pc && Next(s, l).pc[p] == s.pc[p]
  {
    hide TaskInv;
  }

  lemma SemOwn(s: Sys, l: Label, p: Prio)
    requires Inv(s) && Enabled(s, l) && p in s.pc && s.pc[p].InSem? && !(l == LFinishSem && s.k.cur == p)
    requires l == LTick(p) || l == LSuspend(p) || l == LResume(p) || (TaskLabel(l) && s.k.cur == p)
    ensures p in s.k.tasks && p in Next(s, l).k.tasks
    ensures var t, t' := s.k.tasks[p], Next(s, l).k.tasks[p];
      && (StSem in t.stat || t.statPend == PendTo <==> StSem in t'.stat || t'.statPend == PendTo)
      && (StSem !in t.stat && t.statPend != PendTo ==> t'.statPend == t.statPend)
  {
    assert TaskInv(s.k, s.pc[p], p);
  }

  lemma {:induction false} SemOutcomeStays(s: Sys, ls: seq<Label>, p: Prio)
    requires Inv(s) && Runs(s, ls) && SemNotFinished(s, ls, p) && p in s.pc && s.pc[p].InSem? && !OnSem(s, p)
    ensures var s' := Exec(s, ls);
      && Wakes(s, ls, p) == [] && p in s'.pc && s'.pc[p] == s.pc[p] && p in s'.k.tasks && !OnSem(s', p)
      && s'.k.tasks[p].statPend == s.k.tasks[p].statPend
    decreases |ls|
  {
    hide Enabled, Next, TaskInv;
    if ls != [] {
      StepKeepsInv(s, ls[0]);
      if Woken(s, ls[0], p) != [] {
        SemWoken(s, ls[0], p);
      }
      SemQuiet(s, ls[0], p);
      SemOutcomeStays(Next(s, ls[0]), ls[1..], p);
    }
  }

  /** From a task's blocking on a semaphore to its return, at most one post or abort reaches it; the pend returns
      with that one's status, off the list, or with a timeout if there was none, and it is not ready before either. */
  lemma {:induction false} SemPendExactlyOneOutcome(s: Sys, ls: seq<Label>, p: Prio)
    requires Inv(s) && Runs(s, ls) && SemNotFinished(s, ls, p) && OnSem(s, p)
    ensures var s' := Exec(s, ls); var ws := Wakes(s, ls, p);
      && |ws| <= 1 && p in s'.pc && s'.pc[p] == s.pc[p] && p in s'.k.tasks
      && if ws == [] then
           OnSem(s', p) && s'.k.tasks[p].statPend != PendAbort && (p in s'.k.ready ==> s'.k.tasks[p].statPend == PendTo)
         else
           ws[0].e == s.pc[p].e && ws[0].ps != PendTo && !OnSem(s', p) && s'.k.tasks[p].statPend == ws[0].ps
    decreases |ls|
  {
    hide Enabled, Next;
    if ls == [] {
      assert TaskInv(s.k, s.pc[p], p);
    } else {
      var s1 := Next(s, ls[0]);
      StepKeepsInv(s, ls[0]);
      if Woken(s, ls[0], p) == [] {
        SemQuiet(s, ls[0], p);
        SemPendExactlyOneOutcome(s1, ls[1..], p);
        assert Wakes(s, ls, p) == Wakes(s1, ls[1..], p);
      } else {
        SemWoken(s, ls[0], p);
        SemOutcomeStays(s1, ls[1..], p);
        assert Wakes(s, ls, p) == Woken(s, ls[0], p);
      }
    }
  }
}
