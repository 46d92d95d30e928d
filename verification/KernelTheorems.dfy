/** What holds in every run of the kernel: main results over sequences of critical sections. */
module KernelTheorems {
  import opened Options
  import opened KernelSpec
  import opened KernelRuns

  /** ls can be carried out from s, each label enabled when its turn comes. */
  ghost predicate Runs(s: Sys, ls: seq<Label>)
    decreases |ls|
  {
    Shape(s) && (ls != [] ==> Enabled(s, ls[0]) && Runs(Next(s, ls[0]), ls[1..]))
  }

  ghost function Exec(s: Sys, ls: seq<Label>): Sys
    requires Runs(s, ls)
    decreases |ls|
  {
    if ls == [] then s else Exec(Next(s, ls[0]), ls[1..])
  }

  /** The system OSStart leaves: freshly created tasks, the idle one among them, and no one waiting. */
  ghost predicate Start(s: Sys) {
    && IDLE_PRIO in s.k.tasks
    && (forall p :: p in s.k.tasks ==> p <= LOWEST_PRIO && s.k.tasks[p] == FRESH_TASK)
    && (forall e: nat | e < |s.k.events| :: s.k.events[e].waiters == {})
    && s.k.ready == s.k.tasks.Keys && s.k.cur == Min(s.k.ready)
    && s.k.intNest == 0 && s.k.lockNest == 0
    && s.pc == (map p | p in s.k.tasks :: Normal) && !s.yielding
  }

  lemma StartInv(s: Sys)
    requires Start(s)
    ensures Inv(s)
  {
    assert s.pc.Keys == s.k.tasks.Keys;
  }

  lemma {:induction false} RunKeepsInv(s: Sys, ls: seq<Label>)
    requires Inv(s) && Runs(s, ls)
    ensures Inv(Exec(s, ls))
    decreases |ls|
  {
    if ls != [] {
      StepKeepsInv(s, ls[0]);
      RunKeepsInv(Next(s, ls[0]), ls[1..]);
    }
  }

  /** In every reachable state a task inside a multi-event pend is on the wait list of all its events or of
      none; on none exactly when an event was handed to it, which is one it asked for. */
  lemma MultiPendAllOrNone(s: Sys, ls: seq<Label>, p: Prio)
    requires Start(s) && Runs(s, ls)
    requires p in Exec(s, ls).k.tasks && p in Exec(s, ls).pc && Exec(s, ls).pc[p].InMulti?
    ensures var k := Exec(s, ls).k; var t := k.tasks[p]; var evs := Exec(s, ls).pc[p].evs;
      if t.eventPtr.None? then
        OnAll(k, p, evs) && t.statPend != PendAbort && (evs != [] && p in k.ready ==> t.statPend == PendTo)
      else
        OnNone(k, p) && t.eventPtr.value in evs && t.statPend != PendTo
  {
    StartInv(s);
    RunKeepsInv(s, ls);
    assert TaskInv(Exec(s, ls).k, Exec(s, ls).pc[p], p);
  }

  /** When the pending task runs again, the event recorded in its control block, if any, is one it asked for and one
      of the kinds that can be pended on. */
  lemma FinishFindsItsEvent(s: Sys)
    requires Inv(s) && Enabled(s, LFinishMulti)
    ensures var evs := s.pc[s.k.cur].evs; var t := s.k.tasks[s.k.cur];
      && InRange(s.k, evs)
      && (t.eventPtr.Some? ==> t.eventPtr.value in evs && Pendable(s.k.events[t.eventPtr.value].typ))
  {
    assert TaskInv(s.k, s.pc[s.k.cur], s.k.cur);
  }

  /** The idle task is ready in every reachable state, so there always is a task to run. */
  lemma IdleAlwaysReady(s: Sys, ls: seq<Label>)
    requires Start(s) && Runs(s, ls)
    ensures IDLE_PRIO in Exec(s, ls).k.ready
  {
    StartInv(s);
    RunKeepsInv(s, ls);
  }

  /** A scheduling point with no interrupt and no lock pending runs the most urgent ready task; the two
      nesting counters are the only things that can hold it back. */
  lemma SchedulePicksMostUrgent(s: Sys, ls: seq<Label>, l: Label)
    requires Start(s) && Runs(s, ls) && (l == LSched || l == LIntExit)
    ensures Shape(Exec(s, ls)) && Enabled(Exec(s, ls), l)
    ensures var k := Next(Exec(s, ls), l).k;
      if k.intNest == 0 && k.lockNest == 0 then IsMin(k.ready, k.cur) else k.cur == Exec(s, ls).k.cur
  {
    StartInv(s);
    RunKeepsInv(s, ls);
  }

  /** Whenever the kernel is neither in an ISR, nor locked, nor between a task's blocking step and its call
      of the scheduler, the running task is ready. */
  lemma RunningIsReady(s: Sys, ls: seq<Label>)
    requires Start(s) && Runs(s, ls)
    ensures var r := Exec(s, ls);
      r.k.intNest == 0 && r.k.lockNest == 0 && !r.yielding ==> r.k.cur in r.k.ready
  {
    StartInv(s);
    RunKeepsInv(s, ls);
  }

  // ----- exactly one outcome -----

  datatype Wake = Wake(e: EvId, msg: Msg, ps: PendStat)

  /** The event hand-over, if any, that label l performs on task p. */
  ghost function Woken(s: Sys, l: Label, p: Prio): seq<Wake>
    requires Shape(s) && Enabled(s, l)
  {
    match l
    case LPost(e, msg) =>
      var ev := s.k.events[e];
      if Pendable(ev.typ) && ev.waiters != {} && Min(ev.waiters) == p && !(ev.typ == Mbox && msg == NULL_MSG) then
        [Wake(e, if ev.typ == Sem then NULL_MSG else msg, PendOk)]
      else []
    case LAbort(e) =>
      var ev := s.k.events[e];
      if Pendable(ev.typ) && ev.waiters != {} && Min(ev.waiters) == p then [Wake(e, NULL_MSG, PendAbort)] else []
    case _ => []
  }

  ghost function Wakes(s: Sys, ls: seq<Label>, p: Prio): seq<Wake>
    requires Runs(s, ls)
    decreases |ls|
  {
    if ls == [] then [] else Woken(s, ls[0], p) + Wakes(Next(s, ls[0]), ls[1..], p)
  }

  /** p's own call has not come back anywhere in the run. */
  ghost predicate NotFinished(s: Sys, ls: seq<Label>, p: Prio)
    requires Runs(s, ls)
    decreases |ls|
  {
    ls != [] ==> !(ls[0] == LFinishMulti && s.k.cur == p) && NotFinished(Next(s, ls[0]), ls[1..], p)
  }

  /** How a hand-over, or its absence, shows in the TCB of a task inside a multi-pend. */
  predicate MultiEffect(t: Task, t': Task, ws: seq<Wake>) {
    if ws == [] then
      && t'.eventPtr == t.eventPtr && t'.msg == t.msg
      && (t.eventPtr.Some? ==> t'.statPend == t.statPend)
    else
      && |ws| == 1 && t.eventPtr.None?
      && t'.eventPtr == Some(ws[0].e) && t'.msg == ws[0].msg && t'.statPend == ws[0].ps
  }

  lemma MultiReady(s: Sys, e: EvId, msg: Msg, ps: PendStat, p: Prio)
    requires Inv(s) && e < |s.k.events| && s.k.events[e].waiters != {} && p in s.pc && s.pc[p].InMulti?
    ensures var k' := EventTaskRdy(s.k, e, msg, {KindBit(s.k.events[e].typ)}, ps);
      && p in k'.tasks
      && MultiEffect(s.k.tasks[p], k'.tasks[p], if Min(s.k.events[e].waiters) == p then [Wake(e, msg, ps)] else [])
  {
    assert TaskInv(s.k, s.pc[p], p);
  }

  /** A post or abort either readies the most urgent waiter or touches no TCB. */
  lemma PostTasks(k: Kernel, e: EvId, msg: Msg)
    requires e < |k.events| && k.events[e].waiters <= k.tasks.Keys
    ensures var typ := k.events[e].typ;
      if k.events[e].waiters != {} && Pendable(typ) && !(typ == Mbox && msg == NULL_MSG) then
        Post(k, e, msg).0 == EventTaskRdy(k, e, if typ == Sem then NULL_MSG else msg, {KindBit(typ)}, PendOk)
      else Post(k, e, msg).0.tasks == k.tasks
  {
  }

  lemma MultiPostStep(s: Sys, e: EvId, msg: Msg, p: Prio)
    requires Inv(s) && e < |s.k.events| && p in s.pc && s.pc[p].InMulti?
    ensures var k' := Post(s.k, e, msg).0;
      p in k'.tasks && MultiEffect(s.k.tasks[p], k'.tasks[p], Woken(s, LPost(e, msg), p))
  {
    PostTasks(s.k, e, msg);
    if s.k.events[e].waiters != {} {
      MultiReady(s, e, if s.k.events[e].typ == Sem then NULL_MSG else msg, PendOk, p);
    }
  }

  lemma MultiTickStep(s: Sys, q: Prio, p: Prio)
    requires Inv(s) && Enabled(s, LTick(q)) && p in s.pc && s.pc[p].InMulti?
    ensures var s' := Next(s, LTick(q));
      && p in s'.pc && p in s'.k.tasks && s'.pc[p] == s.pc[p]
      && MultiEffect(s.k.tasks[p], s'.k.tasks[p], Woken(s, LTick(q), p))
  {
    assert TaskInv(s.k, s.pc[p], p);
  }

  lemma MultiStep(s: Sys, l: Label, p: Prio)
    requires Inv(s) && Enabled(s, l) && p in s.pc && s.pc[p].InMulti?
    requires !(l == LFinishMulti && s.k.cur == p)
    ensures var s' := Next(s, l);
      && p in s'.pc && p in s'.k.tasks && s'.pc[p] == s.pc[p]
      && MultiEffect(s.k.tasks[p], s'.k.tasks[p], Woken(s, l, p))
  {
    hide TaskInv, SameFor;
    match l
    case LPost(e, msg) => MultiPostStep(s, e, msg, p);
    case LAbort(e) =>
      if s.k.events[e].waiters != {} {
        MultiReady(s, e, NULL_MSG, PendAbort, p);
      }
    case LTick(q) => MultiTickStep(s, q, p);
    case LPendMulti(_, _) =>
    case LSemPend(_, _) =>
    case _ =>
  }

  /** Once an event has been handed over, nothing changes it until the task runs. */
  lemma {:induction false} HandedOverStays(s: Sys, ls: seq<Label>, p: Prio)
    requires Inv(s) && Runs(s, ls) && p in s.pc && s.pc[p].InMulti? && s.k.tasks[p].eventPtr.Some?
    requires NotFinished(s, ls, p)
    ensures var s' := Exec(s, ls); var t := s.k.tasks[p];
      && Wakes(s, ls, p) == [] && p in s'.pc && p in s'.k.tasks && s'.pc[p] == s.pc[p]
      && s'.k.tasks[p].eventPtr == t.eventPtr && s'.k.tasks[p].msg == t.msg && s'.k.tasks[p].statPend == t.statPend
    decreases |ls|
  {
    if ls != [] {
      StepKeepsInv(s, ls[0]);
      MultiStep(s, ls[0], p);
      HandedOverStays(Next(s, ls[0]), ls[1..], p);
    }
  }

  /** However posts, aborts, ticks and other tasks interleave between a task's blocking in a multi-event pend
      and its return, at most one event is handed to it, and what the call will return is that event with its
      message (or the abort), or a timeout if there was none; and a task that was handed one and never suspended is
      ready to return it. */
  lemma {:induction false} MultiPendExactlyOneOutcome(s: Sys, ls: seq<Label>, p: Prio)
    requires Inv(s) && Runs(s, ls) && p in s.pc && s.pc[p].InMulti? && s.k.tasks[p].eventPtr.None?
    requires NotFinished(s, ls, p)
    ensures var s' := Exec(s, ls);
      && |Wakes(s, ls, p)| <= 1 && p in s'.pc && p in s'.k.tasks && s'.pc[p] == s.pc[p]
      && if Wakes(s, ls, p) == [] then
             && s'.k.tasks[p].eventPtr.None?
             && MultiOutcome(s'.k.tasks[p], s'.k.events) == Outcome(ErrTimeout, [], NULL_MSG)
         else
             var w := Wakes(s, ls, p)[0];
             && w.e in s.pc[p].evs && w.e < |s'.k.events| && s'.k.tasks[p].eventPtr == Some(w.e)
             && (StSuspend !in s.k.tasks[p].stat && LSuspend(p) !in ls ==> p in s'.k.ready)
             && MultiOutcome(s'.k.tasks[p], s'.k.events)
                == if w.ps == PendOk then
                     Outcome(ErrNone, [w.e], if s'.k.events[w.e].typ == Sem then NULL_MSG else w.msg)
                   else Outcome(ErrPendAbort, [w.e], NULL_MSG)
    decreases |ls|
  {
    hide Enabled, NormalInv, SemInv, Next;
    if ls != [] {
      var s1 := Next(s, ls[0]);
      if StSuspend !in s.k.tasks[p].stat && LSuspend(p) !in ls && Wakes(s, ls, p) != [] {
        HandedOverIsReady(s, ls, p);
      }
      StepKeepsInv(s, ls[0]);
      MultiStep(s, ls[0], p);
      if Woken(s, ls[0], p) == [] {
        MultiPendExactlyOneOutcome(s1, ls[1..], p);
        assert Wakes(s, ls, p) == Wakes(s1, ls[1..], p);
      } else {
        HandedOverStays(s1, ls[1..], p);
        RunKeepsInv(s1, ls[1..]);
        var s' := Exec(s, ls);
        assert TaskInv(s'.k, s'.pc[p], p);
        assert Wakes(s, ls, p) == Woken(s, ls[0], p);
      }
    }
  }

  /** A task that has timed out but not yet run is still on its events' lists: a post that reaches it then
      replaces the timeout, takes it off every list and becomes the outcome. */
  lemma LatePostReplacesTimeout(s: Sys, e: EvId, msg: Msg, p: Prio)
    requires Inv(s) && p in s.pc && s.pc[p].InMulti? && s.k.tasks[p].statPend == PendTo
    requires e in s.pc[p].evs && e < |s.k.events| && !(s.k.events[e].typ == Mbox && msg == NULL_MSG)
    requires forall q :: q in s.k.events[e].waiters ==> p <= q
    ensures p in s.k.events[e].waiters && MultiOutcome(s.k.tasks[p], s.k.events).err == ErrTimeout
    ensures var k' := Post(s.k, e, msg).0;
      && p in k'.tasks && OnNone(k', p) && |k'.events| == |s.k.events| && k'.tasks[p].eventPtr == Some(e)
      && MultiOutcome(k'.tasks[p], k'.events)
         == Outcome(ErrNone, [e], if s.k.events[e].typ == Sem then NULL_MSG else msg)
  {
    assert TaskInv(s.k, s.pc[p], p);
    assert Min(s.k.events[e].waiters) == p;
    var m := if s.k.events[e].typ == Sem then NULL_MSG else msg;
    PostTasks(s.k, e, msg);
    ReadyOwn(s.k, s.pc[p], e, m, PendOk);
  }

  // ----- readiness -----

  /** A hand-over makes the task ready at once, whatever it was waiting in, unless it is suspended; then it stays
      unready. */
  lemma WokenIsReady(s: Sys, l: Label, p: Prio)
    requires Inv(s) && Enabled(s, l) && Woken(s, l, p) != []
    ensures p in s.k.tasks && (p in Next(s, l).k.ready <==> StSuspend !in s.k.tasks[p].stat)
  {
    hide MultiInv, SemInv, NormalInv;
    if p in s.k.tasks && StSuspend in s.k.tasks[p].stat {
      SuspendedUnready(s, p);
    }
    if l.LPost? {
      PostTasks(s.k, l.e, l.msg);
    }
  }

  lemma SuspendedUnready(s: Sys, p: Prio)
    requires Inv(s) && p in s.k.tasks && StSuspend in s.k.tasks[p].stat
    ensures p !in s.k.ready
  {
    assert TaskInv(s.k, s.pc[p], p);
  }

  /** p takes a step of its own that may end its readiness. */
  ghost predicate OwnStep(s: Sys, l: Label, p: Prio) {
    TaskLabel(l) && s.k.cur == p && s.k.intNest == 0
  }

  ghost predicate LeftAlone(s: Sys, ls: seq<Label>, p: Prio)
    requires Runs(s, ls)
    decreases |ls|
  {
    ls != [] ==> ls[0] != LSuspend(p) && !OwnStep(s, ls[0], p) && LeftAlone(Next(s, ls[0]), ls[1..], p)
  }

  /** Inside a multi-event pend the only step of its own is the pend's return. */
  lemma {:induction false} UnfinishedLeftAlone(s: Sys, ls: seq<Label>, p: Prio)
    requires Inv(s) && Runs(s, ls) && p in s.pc && s.pc[p].InMulti? && NotFinished(s, ls, p) && LSuspend(p) !in ls
    ensures LeftAlone(s, ls, p)
    decreases |ls|
  {
    if ls != [] {
      StepKeepsInv(s, ls[0]);
      MultiStep(s, ls[0], p);
      UnfinishedLeftAlone(Next(s, ls[0]), ls[1..], p);
    }
  }

  lemma {:induction false} HandedOverIsReady(s: Sys, ls: seq<Label>, p: Prio)
    requires Inv(s) && Runs(s, ls) && p in s.pc && s.pc[p].InMulti? && NotFinished(s, ls, p) && LSuspend(p) !in ls
    requires StSuspend !in s.k.tasks[p].stat && Wakes(s, ls, p) != []
    ensures p in Exec(s, ls).k.ready
    decreases |ls|
  {
    hide Enabled, TaskInv, Next;
    var s1 := Next(s, ls[0]);
    StepKeepsInv(s, ls[0]);
    MultiStep(s, ls[0], p);
    SuspensionStep(s, ls[0], p);
    if Woken(s, ls[0], p) != [] {
      WokenIsReady(s, ls[0], p);
      UnfinishedLeftAlone(s1, ls[1..], p);
      ReadyUntilOwnStep(s1, ls[1..], p);
    } else {
      HandedOverIsReady(s1, ls[1..], p);
    }
  }

  lemma ReadyKept(s: Sys, l: Label, p: Prio)
    requires Inv(s) && Enabled(s, l) && p in s.k.ready && l != LSuspend(p) && !OwnStep(s, l, p)
    ensures p in Next(s, l).k.ready
  {
    hide MultiInv, SemInv, NormalInv;
    if Woken(s, l, p) != [] {
      WokenIsReady(s, l, p);
      if StSuspend in s.k.tasks[p].stat {
        SuspendedUnready(s, p);
      }
    } else if TaskLabel(l) && s.k.cur == p {
      assert Next(s, l).k == s.k;
    } else if l != LTick(p) && l != LResume(p) {
      UndisturbedStep(s, l, p);
    }
  }

  /** A ready task stays ready until its own next step or until it is suspended. */
  lemma {:induction false} ReadyUntilOwnStep(s: Sys, ls: seq<Label>, p: Prio)
    requires Inv(s) && Runs(s, ls) && LeftAlone(s, ls, p) && p in s.k.ready
    ensures p in Exec(s, ls).k.ready
    decreases |ls|
  {
    if ls != [] {
      StepKeepsInv(s, ls[0]);
      ReadyKept(s, ls[0], p);
      ReadyUntilOwnStep(Next(s, ls[0]), ls[1..], p);
    }
  }

  /** So a task that was handed something while not suspended is ready until it runs. */
  lemma WokenStaysReady(s: Sys, l: Label, ls: seq<Label>, p: Prio)
    requires Inv(s) && Enabled(s, l) && Woken(s, l, p) != [] && Runs(Next(s, l), ls) && LeftAlone(Next(s, l), ls, p)
    requires p in s.k.tasks && StSuspend !in s.k.tasks[p].stat
    ensures p in Exec(Next(s, l), ls).k.ready
  {
    StepKeepsInv(s, l);
    WokenIsReady(s, l, p);
    ReadyUntilOwnStep(Next(s, l), ls, p);
  }

  // ----- suspension -----

  /** Whether the last suspension or resumption of p in the run was a suspension. */
  predicate LastSuspends(ls: seq<Label>, p: Prio, before: bool) {
    if ls == [] then before
    else LastSuspends(ls[1..], p, if ls[0] == LSuspend(p) then true else if ls[0] == LResume(p) then false else before)
  }

  lemma SuspensionStep(s: Sys, l: Label, p: Prio)
    requires Inv(s) && Enabled(s, l) && p in s.k.tasks
    ensures p in Next(s, l).k.tasks
    ensures StSuspend in Next(s, l).k.tasks[p].stat <==> LastSuspends([l], p, StSuspend in s.k.tasks[p].stat)
  {
    hide TaskInv, Shape;
    if p == s.k.cur && (l.LFinishMulti? || l.LFinishSem?) {
      FinishesUnsuspended(s, l);
    } else if l == LSuspend(p) || l == LResume(p) || l == LTick(p) || (TaskLabel(l) && s.k.cur == p) {
      OwnSuspension(s, l, p);
    } else if Woken(s, l, p) != [] {
      WokenSuspension(s, l, p);
    } else {
      UndisturbedStep(s, l, p);
    }
  }

  lemma FinishesUnsuspended(s: Sys, l: Label)
    requires Inv(s) && Enabled(s, l) && (l.LFinishMulti? || l.LFinishSem?)
    ensures StSuspend !in s.k.tasks[s.k.cur].stat && s.k.cur in Next(s, l).k.tasks
    ensures StSuspend !in Next(s, l).k.tasks[s.k.cur].stat
  {
    if StSuspend in s.k.tasks[s.k.cur].stat {
      SuspendedUnready(s, s.k.cur);
    }
  }

  lemma OwnSuspension(s: Sys, l: Label, p: Prio)
    requires Shape(s) && Enabled(s, l) && p in s.k.tasks && !l.LFinishMulti? && !l.LFinishSem?
    requires l == LSuspend(p) || l == LResume(p) || l == LTick(p) || (TaskLabel(l) && s.k.cur == p)
    ensures p in Next(s, l).k.tasks
    ensures StSuspend in Next(s, l).k.tasks[p].stat <==> LastSuspends([l], p, StSuspend in s.k.tasks[p].stat)
  {
    match l
    case LPendMulti(evs, n) => PendSuspension(s.k, evs, n);
    case LSemPend(_, _) =>
    case LTimeDly(_) =>
    case _ =>
  }

  lemma PendSuspension(k: Kernel, evs: seq<EvId>, n: nat)
    requires k.cur in k.tasks && InRange(k, evs)
    ensures var k' := PendMulti(k, evs, n).k;
      && k'.tasks.Keys == k.tasks.Keys && (StSuspend in k'.tasks[k.cur].stat <==> StSuspend in k.tasks[k.cur].stat)
  {
    hide TakeAll;
    assert StSuspend !in Kinds(k.events, evs);
  }

  lemma WokenSuspension(s: Sys, l: Label, p: Prio)
    requires Shape(s) && Enabled(s, l) && Woken(s, l, p) != []
    ensures p in s.k.tasks && p in Next(s, l).k.tasks && !l.LSuspend? && !l.LResume?
    ensures StSuspend in Next(s, l).k.tasks[p].stat <==> StSuspend in s.k.tasks[p].stat
  {
    if l.LPost? {
      PostTasks(s.k, l.e, l.msg);
    }
  }

  /** A task is suspended exactly if the last such call for it was OSTaskSuspend, and while it is, nothing makes it
      ready. */
  lemma {:induction false} SuspendedIffLastSuspends(s: Sys, ls: seq<Label>, p: Prio)
    requires Inv(s) && Runs(s, ls) && p in s.k.tasks
    ensures var k' := Exec(s, ls).k;
      && p in k'.tasks && (StSuspend in k'.tasks[p].stat <==> LastSuspends(ls, p, StSuspend in s.k.tasks[p].stat))
      && (StSuspend in k'.tasks[p].stat ==> p !in k'.ready)
    decreases |ls|
  {
    if ls == [] {
      if StSuspend in s.k.tasks[p].stat {
        SuspendedUnready(s, p);
      }
    } else {
      SuspensionStep(s, ls[0], p);
      StepKeepsInv(s, ls[0]);
      SuspendedIffLastSuspends(Next(s, ls[0]), ls[1..], p);
    }
  }

  // ----- exact timeouts -----

  ghost predicate TaskLabel(l: Label) {
    l.LPendMulti? || l.LFinishMulti? || l.LSemPend? || l.LFinishSem? || l.LTimeDly?
  }

  /** Nothing but clock ticks acts on task p. */
  ghost predicate Undisturbed(s: Sys, ls: seq<Label>, p: Prio)
    requires Runs(s, ls)
    decreases |ls|
  {
    ls != [] ==>
      && ls[0] != LSuspend(p) && ls[0] != LResume(p) && Woken(s, ls[0], p) == []
      && !(TaskLabel(ls[0]) && s.k.cur == p)
      && Undisturbed(Next(s, ls[0]), ls[1..], p)
  }

  function Ticks(ls: seq<Label>, p: Prio): nat {
    if ls == [] then 0 else (if ls[0] == LTick(p) then 1 else 0) + Ticks(ls[1..], p)
  }

  lemma NotWoken(s: Sys, e: EvId, msg: Msg, p: Prio)
    requires Shape(s) && e < |s.k.events| && p in s.k.tasks
    ensures Woken(s, LPost(e, msg), p) == [] ==> Alike(s.k, Post(s.k, e, msg).0, p)
    ensures Woken(s, LAbort(e), p) == [] ==> Alike(s.k, Abort(s.k, e), p)
  {
    PostTasks(s.k, e, msg);
    if s.k.events[e].waiters != {} && Min(s.k.events[e].waiters) != p {
      ReadyOthers(s.k, e, if s.k.events[e].typ == Sem then NULL_MSG else msg, PendOk, p);
      ReadyOthers(s.k, e, NULL_MSG, PendAbort, p);
    }
  }

  /** What leaves p's control block and readiness alone. */
  ghost predicate Alike(k: Kernel, k': Kernel, p: Prio) {
    p in k.tasks && p in k'.tasks && k'.tasks[p] == k.tasks[p] && (p in k'.ready <==> p in k.ready)
  }

  lemma PendUndisturbed(s: Sys, evs: seq<EvId>, timeout: nat, p: Prio)
    requires Shape(s) && InRange(s.k, evs) && p in s.k.tasks && s.k.cur != p
    ensures Alike(s.k, PendMulti(s.k, evs, timeout).k, p)
  {
  }

  lemma FinishUndisturbed(s: Sys, l: Label, p: Prio)
    requires Shape(s) && Enabled(s, l) && p in s.k.tasks && s.k.cur != p
    requires l.LFinishMulti? || l.LFinishSem? || l.LSemPend? || l.LTimeDly?
    ensures Alike(s.k, Next(s, l).k, p)
  {
  }

  lemma UndisturbedStep(s: Sys, l: Label, p: Prio)
    requires Inv(s) && Enabled(s, l) && p in s.k.tasks && l != LTick(p)
    requires l != LSuspend(p) && l != LResume(p) && Woken(s, l, p) == [] && !(TaskLabel(l) && s.k.cur == p)
    ensures Alike(s.k, Next(s, l).k, p)
  {
    hide TaskInv, Woken, PendMulti, FinishMulti, FinishSem, SemPend, TimeDly, Post, Abort;
    match l
    case LPost(e, msg) => NotWoken(s, e, msg, p);
    case LAbort(e) => NotWoken(s, e, NULL_MSG, p);
    case LPendMulti(evs, timeout) => PendUndisturbed(s, evs, timeout, p);
    case LSemPend(_, _) => FinishUndisturbed(s, l, p);
    case LFinishMulti => FinishUndisturbed(s, l, p);
    case LFinishSem => FinishUndisturbed(s, l, p);
    case LTimeDly(_) => FinishUndisturbed(s, l, p);
    case _ =>
  }

  lemma {:induction false} ReadyStays(s: Sys, ls: seq<Label>, p: Prio)
    requires Inv(s) && Runs(s, ls) && Undisturbed(s, ls, p) && p in s.k.ready && s.k.tasks[p].dly == 0
    ensures p in Exec(s, ls).k.ready
    decreases |ls|
  {
    if ls != [] {
      StepKeepsInv(s, ls[0]);
      if ls[0] != LTick(p) {
        UndisturbedStep(s, ls[0], p);
      }
      ReadyStays(Next(s, ls[0]), ls[1..], p);
    }
  }

  /** A task delayed by n ticks, or pending with a timeout of n, that is not suspended and that nothing else
      wakes is not ready before its n-th tick and ready from then on, however the ticks are spread over the
      run. */
  lemma {:induction false} ReadyOnExactlyTheNthTick(s: Sys, ls: seq<Label>, p: Prio)
    requires Inv(s) && Runs(s, ls) && Undisturbed(s, ls, p)
    requires p in s.k.tasks && s.k.tasks[p].dly > 0 && StSuspend !in s.k.tasks[p].stat
    ensures var n := s.k.tasks[p].dly; var k' := Exec(s, ls).k;
      && p in k'.tasks && (p in k'.ready <==> Ticks(ls, p) >= n)
      && (Ticks(ls, p) < n ==> k'.tasks[p].dly == n - Ticks(ls, p))
    decreases |ls|
  {
    assert TaskInv(s.k, s.pc[p], p);
    if ls != [] {
      var s1 := Next(s, ls[0]);
      StepKeepsInv(s, ls[0]);
      if ls[0] == LTick(p) && s.k.tasks[p].dly == 1 {
        ReadyStays(s1, ls[1..], p);
        RunKeepsInv(s1, ls[1..]);
      } else {
        if ls[0] != LTick(p) {
          UndisturbedStep(s, ls[0], p);
        }
        ReadyOnExactlyTheNthTick(s1, ls[1..], p);
      }
    }
  }

  // ----- suspension during a multi-event pend -----

  /** The event or timeout that ends p's wait has come. */
  ghost predicate WaitOver(s: Sys, p: Prio)
    requires p in s.k.tasks && p in s.pc
  {
    var t := s.k.tasks[p];
    t.dly == 0 &&
    match s.pc[p]
    case Normal => true
    case InMulti(_) => t.eventPtr.Some? || t.statPend == PendTo
    case InSem(_) => StSem !in t.stat
  }

  /** OSTaskResume makes a suspended task whose wait is over ready if and only if the task is not in a
      multi-event pend: there the status byte still holds the multi bit, which only the pend's own return
      clears. */
  lemma ResumeReadiesIffNotMulti(s: Sys, p: Prio)
    requires Inv(s) && p in s.k.tasks && StSuspend in s.k.tasks[p].stat && WaitOver(s, p)
    ensures p in Resume(s.k, p).ready <==> !s.pc[p].InMulti?
  {
    assert TaskInv(s.k, s.pc[p], p);
    var t' := Resume(s.k, p).tasks[p];
    match s.pc[p]
    case Normal => assert t'.stat == {};
    case InMulti(_) => assert StMulti in t'.stat;
    case InSem(_) => assert t'.stat == {};
  }

  /** p is ready at some point of the run. */
  ghost predicate EverReady(s: Sys, ls: seq<Label>, p: Prio)
    requires Runs(s, ls)
    decreases |ls|
  {
    p in s.k.ready || (ls != [] && EverReady(Next(s, ls[0]), ls[1..], p))
  }

  /** Some post or abort of the run reaches p at a moment when it is not suspended. */
  ghost predicate WokenUnsuspended(s: Sys, ls: seq<Label>, p: Prio)
    requires Runs(s, ls)
    decreases |ls|
  {
    ls != [] &&
    (|| (Woken(s, ls[0], p) != [] && p in s.k.tasks && StSuspend !in s.k.tasks[p].stat)
     || WokenUnsuspended(Next(s, ls[0]), ls[1..], p))
  }

  /** A task whose multi-event wait is over but that is neither ready nor running: what the resume of a suspended
      one leaves. */
  ghost predicate Stranded(s: Sys, p: Prio) {
    p in s.k.tasks && p in s.pc && s.pc[p].InMulti? && WaitOver(s, p) && p !in s.k.ready && s.k.cur != p
  }

  /** A step that hands p nothing leaves it stranded. */
  lemma StrandedStays(s: Sys, l: Label, p: Prio)
    requires Inv(s) && Enabled(s, l) && Stranded(s, p) && Woken(s, l, p) == []
    ensures Stranded(Next(s, l), p) && Next(s, l).k.tasks[p].eventPtr == s.k.tasks[p].eventPtr
  {
    assert TaskInv(s.k, s.pc[p], p);
    MultiStep(s, l, p);
    if l == LResume(p) {
      assert StMulti in Resume(s.k, p).tasks[p].stat;
    } else if l != LTick(p) && l != LSuspend(p) {
      UndisturbedStep(s, l, p);
      if l != LSched && l != LIntExit {
        CurStays(s, l);
      }
    }
  }

  /** A hand-over ends it if p is not suspended, and only changes how the wait ended if it is. */
  lemma StrandedWoken(s: Sys, l: Label, p: Prio)
    requires Inv(s) && Enabled(s, l) && Stranded(s, p) && Woken(s, l, p) != []
    ensures s.k.tasks[p].eventPtr.None?
    ensures if StSuspend in s.k.tasks[p].stat then Stranded(Next(s, l), p) else p in Next(s, l).k.ready
  {
    CurStays(s, l);
    MultiStep(s, l, p);
    if l.LPost? {
      PostTasks(s.k, l.e, l.msg);
    }
  }

  /** A stranded task becomes ready again in a run if and only if a post or abort reaches it while it is not
      suspended.  After a timeout that can still happen; after a hand-over it cannot, since the task is on no
      list. */
  lemma {:induction false} ReadyAgainIffWoken(s: Sys, ls: seq<Label>, p: Prio)
    requires Inv(s) && Runs(s, ls) && Stranded(s, p)
    ensures EverReady(s, ls, p) <==> WokenUnsuspended(s, ls, p)
    ensures s.k.tasks[p].eventPtr.Some? ==> !EverReady(s, ls, p)
    decreases |ls|
  {
    hide Inv, Enabled, Next, WaitOver, Shape;
    if ls != [] {
      StepKeepsInv(s, ls[0]);
      if Woken(s, ls[0], p) == [] {
        StrandedStays(s, ls[0], p);
        ReadyAgainIffWoken(Next(s, ls[0]), ls[1..], p);
      } else {
        StrandedWoken(s, ls[0], p);
        if StSuspend in s.k.tasks[p].stat {
          ReadyAgainIffWoken(Next(s, ls[0]), ls[1..], p);
        }
      }
    }
  }

  /** The resume of a task whose multi-event wait ended while it was suspended leaves it stranded. */
  lemma ResumeStrands(s: Sys, p: Prio)
    requires Inv(s) && p in s.k.tasks && p in s.pc && s.pc[p].InMulti? && s.k.cur != p
    requires StSuspend in s.k.tasks[p].stat && WaitOver(s, p)
    ensures var s' := s.(k := Resume(s.k, p)); Stranded(s', p) && StSuspend !in s'.k.tasks[p].stat
  {
    assert TaskInv(s.k, s.pc[p], p);
    assert StMulti in Resume(s.k, p).tasks[p].stat;
  }

  /** A task that was handed an event while suspended never becomes ready or current again, whatever happens
      later. */
  lemma {:induction false} LostForever(s: Sys, ls: seq<Label>, p: Prio)
    requires Inv(s) && Runs(s, ls) && p in s.pc && s.pc[p].InMulti?
    requires s.k.tasks[p].eventPtr.Some? && p !in s.k.ready && s.k.cur != p
    ensures p !in Exec(s, ls).k.ready && Exec(s, ls).k.cur != p
    decreases |ls|
  {
    hide Enabled, Next, NormalInv, SemInv;
    assert TaskInv(s.k, s.pc[p], p);
    if ls != [] {
      StepKeepsInv(s, ls[0]);
      if Woken(s, ls[0], p) != [] {
        StrandedWoken(s, ls[0], p);
      }
      StrandedStays(s, ls[0], p);
      LostForever(Next(s, ls[0]), ls[1..], p);
    }
  }

  /** Only the scheduler's two entry points change the running task. */
  lemma CurStays(s: Sys, l: Label)
    requires Shape(s) && Enabled(s, l) && l != LSched && l != LIntExit
    ensures Next(s, l).k.cur == s.k.cur
  {
    if l.LPost? {
      PostTasks(s.k, l.e, l.msg);
    }
  }

  lemma RunStep(s: Sys, l: Label, ls: seq<Label>)
    requires Runs(s, [l] + ls)
    ensures Enabled(s, l) && Runs(Next(s, l), ls) && Exec(s, [l] + ls) == Exec(Next(s, l), ls)
  {
    assert ([l] + ls)[1..] == ls;
  }

  /** The post that reaches a suspended waiter ends its wait and leaves it not ready. */
  lemma PostToSuspended(s: Sys, e: EvId, msg: Msg, p: Prio)
    requires Inv(s) && p in s.pc && s.pc[p].InMulti? && s.k.tasks[p].eventPtr.None?
    requires StSuspend in s.k.tasks[p].stat && s.k.cur != p
    requires e < |s.k.events| && e in s.pc[p].evs && !(s.k.events[e].typ == Mbox && msg == NULL_MSG)
    requires forall q :: q in s.k.events[e].waiters ==> p <= q
    ensures var s' := Next(s, LPost(e, msg));
      && Inv(s') && p in s'.pc && s'.pc[p] == s.pc[p] && p in s'.k.tasks
      && s'.k.tasks[p].eventPtr.Some? && p !in s'.k.ready && s'.k.cur != p
  {
    var s' := Next(s, LPost(e, msg));
    assert TaskInv(s.k, s.pc[p], p);
    assert Min(s.k.events[e].waiters) == p;
    StepKeepsInv(s, LPost(e, msg));
    MultiPostStep(s, e, msg, p);
    CurStays(s, LPost(e, msg));
    PostTasks(s.k, e, msg);
  }

  /** Suspending a task that waits in a multi-event pend, posting to it and resuming it loses the task: its
      wait is over, it is not suspended, and it never becomes ready again. */
  lemma SuspendPostResumeLosesTask(s: Sys, e: EvId, msg: Msg, p: Prio, ls: seq<Label>)
    requires Inv(s) && p in s.pc && s.pc[p].InMulti? && s.k.tasks[p].eventPtr.None? && s.k.cur != p
    requires e < |s.k.events| && e in s.pc[p].evs && !(s.k.events[e].typ == Mbox && msg == NULL_MSG)
    requires forall q :: q in s.k.events[e].waiters ==> p <= q
    requires Runs(s, [LSuspend(p)] + ([LPost(e, msg)] + ([LResume(p)] + ls)))
    ensures var s' := Exec(s, [LSuspend(p)] + ([LPost(e, msg)] + ([LResume(p)] + ls)));
      p !in s'.k.ready && s'.k.cur != p
  {
    RunStep(s, LSuspend(p), [LPost(e, msg)] + ([LResume(p)] + ls));
    var s1 := Next(s, LSuspend(p));
    StepKeepsInv(s, LSuspend(p));
    RunStep(s1, LPost(e, msg), [LResume(p)] + ls);
    var s2 := Next(s1, LPost(e, msg));
    PostToSuspended(s1, e, msg, p);
    RunStep(s2, LResume(p), ls);
    LostForever(s2, [LResume(p)] + ls, p);
  }

  // One task, priority 5, one empty semaphore.
  const DEMO_EVENT: Event := Event(Sem, 0, NULL_MSG, [], 0, {})
  const DEMO_START: Sys := Sys(
    Kernel(map[5 := FRESH_TASK, IDLE_PRIO := FRESH_TASK], [DEMO_EVENT], {5, IDLE_PRIO}, 5, 0, 0),
    map[5 := Normal, IDLE_PRIO := Normal], false)
  const DEMO_WAITING: Sys := Sys(
    Kernel(map[5 := Task(0, {StSem, StMulti}, PendOk, None, Some([0]), NULL_MSG), IDLE_PRIO := FRESH_TASK],
           [DEMO_EVENT.(waiters := {5})], {IDLE_PRIO}, 5, 0, 0),
    map[5 := InMulti([0]), IDLE_PRIO := Normal], true)

  lemma DemoPolls()
    ensures InRange(DEMO_START.k, [0])
    ensures TakeAll(DEMO_START.k.events, [0]).rdy == [] && Kinds(DEMO_START.k.events, [0]) == {StSem}
  {
    var events := DEMO_START.k.events;
    assert [0][..0] == [];
    assert forall e :: e in [0] <==> e == 0;
    assert KindBit(events[0].typ) == StSem;
    assert 0 in [0];
  }

  lemma DemoLists()
    ensures AddAll(DEMO_START.k.events, 5, [0]) == DEMO_WAITING.k.events
  {
    assert {} + {5} == {5};
    assert AddWaiter(DEMO_EVENT, 5) == DEMO_EVENT.(waiters := {5});
  }

  lemma DemoBlocked()
    ensures InRange(DEMO_START.k, [0]) && BlockMulti(DEMO_START.k, [0], 0) == DEMO_WAITING.k
  {
    hide TakeAll, Kinds, AddAll;
    DemoPolls();
    DemoLists();
    var k' := BlockMulti(DEMO_START.k, [0], 0);
    assert k'.ready == {IDLE_PRIO};
    assert k'.tasks[5].stat == {StSem, StMulti};
    assert k'.tasks == DEMO_WAITING.k.tasks;
  }

  lemma DemoBlocks()
    ensures Shape(DEMO_START) && Enabled(DEMO_START, LPendMulti([0], 0))
    ensures Next(DEMO_START, LPendMulti([0], 0)) == DEMO_WAITING
  {
    hide TakeAll, Kinds, AddAll, BlockMulti;
    DemoPolls();
    DemoBlocked();
    assert forall e :: e in [0] <==> e == 0;
    assert Next(DEMO_START, LPendMulti([0], 0)).pc == DEMO_WAITING.pc;
  }

  /** A task waiting in a multi-event pend while another runs is reachable. */
  lemma WaitingStateReachable()
    ensures Start(DEMO_START) && Runs(DEMO_START, [LPendMulti([0], 0), LSched])
    ensures Exec(DEMO_START, [LPendMulti([0], 0), LSched])
         == DEMO_WAITING.(k := DEMO_WAITING.k.(cur := IDLE_PRIO), yielding := false)
  {
    assert Min(DEMO_START.k.ready) == 5;
    assert DEMO_START.pc == map p | p in DEMO_START.k.tasks :: Normal;
    DemoBlocks();
    assert Min(DEMO_WAITING.k.ready) == IDLE_PRIO;
    var ls := [LPendMulti([0], 0), LSched];
    assert ls[1..] == [LSched] && [LSched][1..] == [];
    assert Shape(DEMO_WAITING);
    var s2 := Next(DEMO_WAITING, LSched);
    assert Runs(s2, []);
    assert Runs(DEMO_WAITING, [LSched]);
    assert Exec(DEMO_WAITING, [LSched]) == Exec(s2, []);
  }
}
