/** The recursive lock around the C library's heap, over every interleaving of tasks: one semaphore, and two
    variables written outside any critical section. */
module HeapLock {
  import opened Options

  /** A task's priority, unique, serves as its id. */
  type Task = nat

  /** Where a task is: outside both functions; in __malloc_lock after the semaphore query, before the pend, waiting
      in it, past it, past locks = 1; in __malloc_unlock before the post. */
  datatype Pc = Out | Queried(cnt: nat) | Pending | Waiting | GotSem | WroteLocks | Posting

  /** cnt: the semaphore's count; depth: how many lock calls of each task have returned without their unlock;
      schedLock: the task that has locked the scheduler. */
  datatype Sys = Sys(cnt: nat, lockid: Option<Task>, locks: nat, pc: map<Task, Pc>, depth: map<Task, nat>,
                     schedLock: Option<Task>)

  datatype Label =
    | Query(p: Task) | Test(p: Task) | Pend(p: Task) | WriteLocks(p: Task) | WriteId(p: Task)
    | Unlock(p: Task) | Post(p: Task, next: Option<Task>) | SchedLock(p: Task) | SchedUnlock(p: Task)

  ghost predicate Shape(s: Sys) {
    s.pc.Keys == s.depth.Keys
  }

  predicate MayRun(s: Sys, p: Task) {
    p in s.pc && p in s.depth && s.pc[p] != Waiting && (s.schedLock.Some? ==> s.schedLock.value == p)
  }

  /** The post readies the most urgent waiter, if there is one. */
  ghost predicate PostTo(s: Sys, next: Option<Task>) {
    if next.Some? then
      next.value in s.pc && s.pc[next.value] == Waiting
      && forall q :: q in s.pc && s.pc[q] == Waiting ==> next.value <= q
    else forall q :: q in s.pc ==> s.pc[q] != Waiting
  }

  ghost predicate Enabled(s: Sys, l: Label) {
    && MayRun(s, l.p)
    && match l
       case Query(p) => s.pc[p] == Out
       case Test(p) => s.pc[p].Queried?
       case Pend(p) => s.pc[p] == Pending
       case WriteLocks(p) => s.pc[p] == GotSem
       case WriteId(p) => s.pc[p] == WroteLocks
       case Unlock(p) => s.pc[p] == Out && s.depth[p] > 0
       case Post(p, next) => s.pc[p] == Posting && PostTo(s, next)
       case SchedLock(p) => s.pc[p] == Out
       case SchedUnlock(p) => s.pc[p] == Out && s.schedLock == Some(p)
  }

  /** The critical section of __malloc_lock chooses the recursion path. */
  predicate Recursive(s: Sys, p: Task)
    requires p in s.pc && s.pc[p].Queried?
  {
    s.pc[p].cnt == 0 && s.lockid == Some(p)
  }

  function At(s: Sys, p: Task, c: Pc): Sys {
    s.(pc := s.pc[p := c])
  }

  /** Pend: with the scheduler locked OSSemPend refuses, and its error is ignored. */
  ghost function Next(s: Sys, l: Label): Sys
    requires Enabled(s, l)
  {
    match l
    case Query(p) => At(s, p, Queried(s.cnt))
    case Test(p) =>
      if Recursive(s, p) then At(s, p, Out).(locks := s.locks + 1, depth := s.depth[p := s.depth[p] + 1])
      else At(s, p, Pending)
    case Pend(p) =>
      if s.schedLock.Some? then At(s, p, GotSem)
      else if s.cnt > 0 then At(s, p, GotSem).(cnt := s.cnt - 1)
      else At(s, p, Waiting)
    case WriteLocks(p) => At(s, p, WroteLocks).(locks := 1)
    case WriteId(p) => At(s, p, Out).(lockid := Some(p), depth := s.depth[p := s.depth[p] + 1])
    case Unlock(p) =>
      if s.locks == 0 then s.(depth := s.depth[p := s.depth[p] - 1])
      else if s.locks == 1 then At(s, p, Posting).(locks := 0, lockid := None, depth := s.depth[p := s.depth[p] - 1])
      else s.(locks := s.locks - 1, depth := s.depth[p := s.depth[p] - 1])
    case Post(p, next) =>
      if next.Some? then At(At(s, p, Out), next.value, GotSem) else At(s, p, Out).(cnt := s.cnt + 1)
    case SchedLock(p) => s.(schedLock := Some(p))
    case SchedUnlock(p) => s.(schedLock := None)
  }

  /** p is between the return of its first lock and the post of its last unlock. */
  predicate Holds(s: Sys, p: Task)
    requires p in s.pc && p in s.depth
  {
    s.depth[p] > 0 || s.pc[p] in {GotSem, WroteLocks, Posting}
  }

  /** A task that does not hold the heap. */
  ghost predicate Outside(s: Sys, p: Task)
    requires p in s.pc && p in s.depth
  {
    !Holds(s, p)
  }

  /** The holder's view of the shared variables: once its id is recorded, locks is its nesting depth. */
  ghost predicate Inside(s: Sys, p: Task)
    requires p in s.pc && p in s.depth
  {
    match s.pc[p]
    case Out => s.depth[p] > 0 && s.lockid == Some(p) && s.locks == s.depth[p]
    case Queried(c) => s.depth[p] > 0 && s.lockid == Some(p) && s.locks == s.depth[p] && c == 0
    case GotSem => s.depth[p] == 0 && s.lockid == None && s.locks == 0
    case WroteLocks => s.depth[p] == 0 && s.lockid == None && s.locks == 1
    case Posting => s.depth[p] == 0 && s.lockid == None && s.locks == 0
    case Pending => false
    case Waiting => false
  }

  /** h is the only holder, if any, and the semaphore says so. */
  ghost predicate Inv(s: Sys, h: Option<Task>) {
    && Shape(s)
    && (forall p :: p in s.pc && h != Some(p) ==> Outside(s, p))
    && match h
       case Some(p) => p in s.pc && Inside(s, p) && s.cnt == 0
       case None =>
         && s.cnt == 1 && s.lockid == None && s.locks == 0
         && forall p :: p in s.pc ==> s.pc[p] != Waiting
  }

  /** Who holds the heap after the step. */
  ghost function NextHolder(s: Sys, l: Label, h: Option<Task>): Option<Task> {
    match l
    case Pend(p) => if s.cnt > 0 then Some(p) else h
    case Post(_, next) => next
    case _ => h
  }

  /** A step of p that leaves the holder alone. */
  lemma OthersStay(s: Sys, s': Sys, p: Task, h: Option<Task>)
    requires Inv(s, h) && Shape(s') && s'.pc.Keys == s.pc.Keys && p in s.pc
    requires forall q :: q in s.pc && q != p ==> s'.pc[q] == s.pc[q] && s'.depth[q] == s.depth[q]
    requires s'.pc[p] != Waiting
    requires if h == Some(p) then s'.cnt == s.cnt && Inside(s', p)
             else Outside(s', p) && s'.cnt == s.cnt && s'.lockid == s.lockid && s'.locks == s.locks
    ensures Inv(s', h)
  {
  }

  lemma LockStep(s: Sys, l: Label, h: Option<Task>)
    requires Inv(s, h) && Enabled(s, l)
    requires l.Query? || l.Test? || l.WriteLocks? || l.WriteId? || l.SchedLock? || l.SchedUnlock?
    ensures Inv(Next(s, l), h)
  {
    OthersStay(s, Next(s, l), l.p, h);
  }

  lemma UnlockStep(s: Sys, p: Task, h: Option<Task>)
    requires Inv(s, h) && Enabled(s, Unlock(p))
    ensures Inv(Next(s, Unlock(p)), h)
    ensures h == Some(p) && (Next(s, Unlock(p)).pc[p] == Posting <==> s.depth[p] == 1)
  {
    OthersStay(s, Next(s, Unlock(p)), p, h);
  }

  lemma PendStep(s: Sys, p: Task, h: Option<Task>)
    requires Inv(s, h) && Enabled(s, Pend(p)) && s.schedLock.None?
    ensures Inv(Next(s, Pend(p)), NextHolder(s, Pend(p), h))
  {
  }

  lemma PostStep(s: Sys, p: Task, next: Option<Task>, h: Option<Task>)
    requires Inv(s, h) && Enabled(s, Post(p, next))
    ensures Inv(Next(s, Post(p, next)), next)
  {
    assert h == Some(p);
  }

  /** Every step keeps the invariant, except a pend under a locked scheduler. */
  lemma StepKeepsInv(s: Sys, l: Label, h: Option<Task>)
    requires Inv(s, h) && Enabled(s, l) && !(l.Pend? && s.schedLock.Some?)
    ensures Inv(Next(s, l), NextHolder(s, l, h))
  {
    match l
    case Unlock(p) => UnlockStep(s, p, h);
    case Pend(p) => PendStep(s, p, h);
    case Post(p, next) => PostStep(s, p, next, h);
    case _ => LockStep(s, l, h);
  }

  // ----- runs -----

  ghost predicate Start(s: Sys) {
    && Shape(s) && s.cnt == 1 && s.lockid == None && s.locks == 0 && s.schedLock == None
    && forall p :: p in s.pc ==> s.pc[p] == Out && s.depth[p] == 0
  }

  ghost predicate Runs(s: Sys, ls: seq<Label>)
    decreases |ls|
  {
    ls != [] ==> Enabled(s, ls[0]) && Runs(Next(s, ls[0]), ls[1..])
  }

  ghost function Exec(s: Sys, ls: seq<Label>): Sys
    requires Runs(s, ls)
    decreases |ls|
  {
    if ls == [] then s else Exec(Next(s, ls[0]), ls[1..])
  }

  /** No task waits for the heap while it has the scheduler locked. */
  ghost predicate Polite(s: Sys, ls: seq<Label>)
    requires Runs(s, ls)
    decreases |ls|
  {
    ls != [] ==> !(ls[0].Pend? && s.schedLock.Some?) && Polite(Next(s, ls[0]), ls[1..])
  }

  lemma {:induction false} RunKeepsInv(s: Sys, ls: seq<Label>, h: Option<Task>) returns (h': Option<Task>)
    requires Inv(s, h) && Runs(s, ls) && Polite(s, ls)
    ensures Inv(Exec(s, ls), h')
    decreases |ls|
  {
    if ls == [] {
      h' := h;
    } else {
      StepKeepsInv(s, ls[0], h);
      h' := RunKeepsInv(Next(s, ls[0]), ls[1..], NextHolder(s, ls[0], h));
    }
  }

  /** At most one task is in the heap, and the count kept in locks is its nesting depth. */
  lemma MutualExclusion(s: Sys, ls: seq<Label>, p: Task, q: Task)
    requires Start(s) && Runs(s, ls) && Polite(s, ls)
    requires p in Exec(s, ls).pc && q in Exec(s, ls).pc && p in Exec(s, ls).depth && q in Exec(s, ls).depth
    ensures Holds(Exec(s, ls), p) && Holds(Exec(s, ls), q) ==> p == q
    ensures Exec(s, ls).depth[p] > 0 ==> Exec(s, ls).lockid == Some(p) && Exec(s, ls).locks == Exec(s, ls).depth[p]
  {
    var h := RunKeepsInv(s, ls, None);
  }

  /** The semaphore counts one exactly when nobody holds the heap, and then nobody waits for it. */
  lemma OpenIffFree(s: Sys, ls: seq<Label>)
    requires Start(s) && Runs(s, ls) && Polite(s, ls)
    ensures var r := Exec(s, ls);
      && r.pc.Keys == r.depth.Keys && r.cnt <= 1
      && (r.cnt == 1 <==> forall p :: p in r.pc ==> !Holds(r, p))
      && (r.cnt == 1 ==> forall p :: p in r.pc ==> r.pc[p] != Waiting)
  {
    var h := RunKeepsInv(s, ls, None);
    var r := Exec(s, ls);
    if h.Some? {
      assert Holds(r, h.value);
    }
  }

  /** Though the semaphore was queried earlier, outside the critical section, the recursion path is taken exactly
      by a task that already holds the heap. */
  lemma RecursionIffHolder(s: Sys, ls: seq<Label>, p: Task)
    requires Start(s) && Runs(s, ls) && Polite(s, ls)
    requires p in Exec(s, ls).pc && p in Exec(s, ls).depth && Exec(s, ls).pc[p].Queried?
    ensures Recursive(Exec(s, ls), p) <==> Exec(s, ls).depth[p] > 0
  {
    var h := RunKeepsInv(s, ls, None);
  }

  /** An unlock goes on to post the semaphore exactly when it is the outermost one. */
  lemma PostIffOutermost(s: Sys, ls: seq<Label>, p: Task)
    requires Start(s) && Runs(s, ls) && Polite(s, ls) && Enabled(Exec(s, ls), Unlock(p))
    ensures var s' := Next(Exec(s, ls), Unlock(p)); s'.pc[p] == Posting <==> Exec(s, ls).depth[p] == 1
  {
    var h := RunKeepsInv(s, ls, None);
    UnlockStep(Exec(s, ls), p, h);
  }

  // ----- a pend under a locked scheduler -----

  lemma RunStep(s: Sys, l: Label, ls: seq<Label>)
    requires Enabled(s, l) && Runs(Next(s, l), ls)
    ensures Runs(s, [l] + ls) && Exec(s, [l] + ls) == Exec(Next(s, l), ls)
    ensures !(l.Pend? && s.schedLock.Some?) && Polite(Next(s, l), ls) ==> Polite(s, [l] + ls)
  {
    assert ([l] + ls)[1..] == ls;
  }

  lemma RunNone(s: Sys)
    ensures Runs(s, []) && Exec(s, []) == s && Polite(s, [])
  {
  }

  /** Two tasks are in the heap. */
  ghost predicate Breached(s: Sys) {
    exists p, q :: p != q && {p, q} <= s.pc.Keys * s.depth.Keys && Holds(s, p) && Holds(s, q)
  }

  /** With the semaphore free, a task on its way in gets through while the others stand still. */
  lemma GetsThrough(s: Sys, q: Task) returns (ls: seq<Label>)
    requires q in s.pc && q in s.depth && (s.pc[q] == Out || s.pc[q].Queried? || s.pc[q] == Pending)
    requires s.schedLock.None? && s.cnt == 1 && s.lockid != Some(q)
    ensures Runs(s, ls) && Polite(s, ls)
    ensures var s' := Exec(s, ls); s' == At(s, q, GotSem).(cnt := 0)
  {
    hide Runs, Exec, Polite;
    if s.pc[q] == Pending {
      RunNone(Next(s, Pend(q)));
      RunStep(s, Pend(q), []);
      ls := [Pend(q)] + [];
    } else {
      var l := if s.pc[q] == Out then Query(q) else Test(q);
      var s1 := Next(s, l);
      ls := GetsThroughFrom(s1, q);
      RunStep(s, l, ls);
      ls := [l] + ls;
      assert At(At(s, q, s1.pc[q]), q, GotSem) == At(s, q, GotSem);
    }
  }

  lemma GetsThroughFrom(s: Sys, q: Task) returns (ls: seq<Label>)
    requires q in s.pc && q in s.depth && (s.pc[q].Queried? || s.pc[q] == Pending)
    requires s.schedLock.None? && s.cnt == 1 && s.lockid != Some(q)
    ensures Runs(s, ls) && Polite(s, ls)
    ensures Exec(s, ls) == At(s, q, GotSem).(cnt := 0)
  {
    hide Runs, Exec, Polite;
    var s1 := if s.pc[q] == Pending then s else Next(s, Test(q));
    RunNone(Next(s1, Pend(q)));
    RunStep(s1, Pend(q), []);
    ls := [Pend(q)] + [];
    if s.pc[q] != Pending {
      RunStep(s, Test(q), ls);
      ls := [Test(q)] + ls;
    }
    assert At(At(s, q, Pending), q, GotSem) == At(s, q, GotSem);
  }

  /** The task p has left its first __malloc_lock. */
  function Entered(s: Sys, p: Task): Sys
    requires p in s.depth
  {
    At(s, p, Out).(locks := 1, lockid := Some(p), depth := s.depth[p := s.depth[p] + 1], schedLock := None)
  }

  /** The refused task finishes its lock and unlocks the scheduler. */
  lemma RefusedGoesOn(s: Sys, p: Task, ls: seq<Label>) returns (all: seq<Label>)
    requires p in s.pc && p in s.depth && s.pc[p] == GotSem && s.schedLock == Some(p)
    requires Runs(Entered(s, p), ls) && Polite(Entered(s, p), ls)
    ensures Runs(s, all) && Polite(s, all) && Exec(s, all) == Exec(Entered(s, p), ls)
  {
    hide Runs, Exec, Polite;
    var s1 := Next(s, WriteLocks(p));
    var s2 := Next(s1, WriteId(p));
    assert At(At(s, p, WroteLocks), p, Out) == At(s, p, Out);
    RunStep(s2, SchedUnlock(p), ls);
    all := [SchedUnlock(p)] + ls;
    RunStep(s1, WriteId(p), all);
    all := [WriteId(p)] + all;
    RunStep(s, WriteLocks(p), all);
    all := [WriteLocks(p)] + all;
  }

  /** After a refused pend some well-behaved continuation has two tasks in the heap, if there is a second task. */
  lemma RefusedPendBreaches(s: Sys, p: Task, h: Option<Task>, q: Task) returns (ls: seq<Label>)
    requires Inv(s, h) && Enabled(s, Pend(p)) && s.schedLock.Some? && q in s.pc && q != p
    ensures var s' := Next(s, Pend(p)); Runs(s', ls) && Polite(s', ls) && Breached(Exec(s', ls))
  {
    hide Runs, Exec, Polite;
    var s' := Next(s, Pend(p));
    if h.Some? {
      ls := [];
      RunNone(s');
      assert h.value != p && Holds(s', p) && Holds(s', h.value);
    } else {
      var s1 := Entered(s', p);
      assert Outside(s, q);
      ls := GetsThrough(s1, q);
      var s2 := Exec(s1, ls);
      assert Holds(s2, p) && Holds(s2, q);
      ls := RefusedGoesOn(s', p, ls);
    }
  }

  /** A pend keeps the heap exclusive in every well-behaved continuation if and only if the scheduler is not locked
      at that moment, as soon as there is a second task. */
  lemma PendSoundIffSchedulerFree(s: Sys, ls: seq<Label>, p: Task, q: Task)
    requires Start(s) && Runs(s, ls) && Polite(s, ls) && Enabled(Exec(s, ls), Pend(p))
    requires q in Exec(s, ls).pc && q != p
    ensures var s' := Next(Exec(s, ls), Pend(p));
      (forall ms :: Runs(s', ms) && Polite(s', ms) ==> !Breached(Exec(s', ms))) <==> Exec(s, ls).schedLock.None?
  {
    var h := RunKeepsInv(s, ls, None);
    var r := Exec(s, ls);
    var s' := Next(r, Pend(p));
    if r.schedLock.Some? {
      var ms := RefusedPendBreaches(r, p, h, q);
      assert Breached(Exec(s', ms));
    } else {
      PendStep(r, p, h);
      forall ms | Runs(s', ms) && Polite(s', ms) ensures !Breached(Exec(s', ms)) {
        var h' := RunKeepsInv(s', ms, NextHolder(r, Pend(p), h));
      }
    }
  }

  // Two tasks, 5 and 6.
  const DEMO_START: Sys := Sys(1, None, 0, map[5 := Out, 6 := Out], map[5 := 0, 6 := 0], None)

  const DEMO_HELD: Sys := Sys(0, Some(6), 1, map[5 := Out, 6 := Out], map[5 := 0, 6 := 1], None)

  lemma SixTakesHeap(ls: seq<Label>) returns (all: seq<Label>)
    requires Runs(DEMO_HELD, ls)
    ensures Runs(DEMO_START, all) && Exec(DEMO_START, all) == Exec(DEMO_HELD, ls)
  {
    hide Runs, Exec;
    var s1 := Next(DEMO_START, Query(6));
    var s2 := Next(s1, Test(6));
    var s3 := Next(s2, Pend(6));
    var s4 := Next(s3, WriteLocks(6));
    assert Next(s4, WriteId(6)) == DEMO_HELD;
    RunStep(s4, WriteId(6), ls);
    all := [WriteId(6)] + ls;
    RunStep(s3, WriteLocks(6), all);
    all := [WriteLocks(6)] + all;
    RunStep(s2, Pend(6), all);
    all := [Pend(6)] + all;
    RunStep(s1, Test(6), all);
    all := [Test(6)] + all;
    RunStep(DEMO_START, Query(6), all);
    all := [Query(6)] + all;
  }

  lemma FiveBargesIn() returns (ls: seq<Label>)
    ensures Runs(DEMO_HELD, ls) && Exec(DEMO_HELD, ls).depth == map[5 := 1, 6 := 1]
  {
    hide Runs, Exec;
    var s6 := Next(DEMO_HELD, SchedLock(5));
    var s7 := Next(s6, Query(5));
    var s8 := Next(s7, Test(5));
    var s9 := Next(s8, Pend(5));
    var s10 := Next(s9, WriteLocks(5));
    var s11 := Next(s10, WriteId(5));
    assert s11.depth == map[5 := 1, 6 := 1];
    ls := [];
    RunNone(s11);
    RunStep(s10, WriteId(5), ls);
    ls := [WriteId(5)] + ls;
    RunStep(s9, WriteLocks(5), ls);
    ls := [WriteLocks(5)] + ls;
    RunStep(s8, Pend(5), ls);
    ls := [Pend(5)] + ls;
    RunStep(s7, Test(5), ls);
    ls := [Test(5)] + ls;
    RunStep(s6, Query(5), ls);
    ls := [Query(5)] + ls;
    RunStep(DEMO_HELD, SchedLock(5), ls);
    ls := [SchedLock(5)] + ls;
  }

  /** Task 6 takes the heap; task 5 preempts it, locks the scheduler and asks for the heap: both hold it. */
  lemma SchedulerLockBreaksExclusion() returns (ls: seq<Label>)
    ensures Start(DEMO_START) && Runs(DEMO_START, ls) && Exec(DEMO_START, ls).depth == map[5 := 1, 6 := 1]
  {
    hide Runs, Exec;
    var rest := FiveBargesIn();
    ls := SixTakesHeap(rest);
  }
}
