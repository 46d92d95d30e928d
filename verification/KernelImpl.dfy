/** The kernel's code, updating its tables in place, proved to carry out the steps of KernelSpec. */
module KernelImpl {
  import opened Options
  import opened Bits
  import opened PrioBitmap
  import opened KernelTables
  import opened KernelPoll
  import S = KernelSpec
  import N = KernelScan

  class UcosKernel {
    var rdyGrp: bv8
    var rdyTbl: seq<bv8>
    var tcbTbl: seq<Tcb>
    var prioTbl: seq<Option<nat>>
    var tcbList: Option<nat>
    var tcbFreeList: Option<nat>
    var eventTbl: seq<Ecb>
    var prioCur: nat
    var prioHighRdy: nat
    var tcbCur: nat
    var intNesting: nat
    var lockNesting: nat
    var running: bool
    var ctxSwCtr: nat
    var osTime: nat
    ghost var active: seq<nat>
    ghost var free: seq<nat>
    /** blocks off the free list whose task is still being created */
    ghost var held: set<nat>

    /** OSInit, for event control blocks on which no task waits yet: empty ready list, all task control blocks
        on the free list, then the idle and the statistics task. */
    constructor (events: seq<Ecb>)
      requires forall e | 0 <= e < |events| :: ValidEcb(events[e]) && Members(events[e].tbl) == {}
      ensures Wf() && !running && intNesting == 0 && lockNesting == 0 && osTime == 0 && eventTbl == events
      ensures |active| == 2 && |free| == S.MAX_TCBS - 2 && held == {}
      ensures Abs().tasks == map[S.IDLE_PRIO := S.FRESH_TASK, S.STAT_PRIO := S.FRESH_TASK]
      ensures Abs().ready == {S.IDLE_PRIO, S.STAT_PRIO}
      ensures |prioTbl| == S.LOWEST_PRIO + 1 && prioTbl[S.IDLE_PRIO] == Some(active[1])
    {
      rdyGrp := 0;
      rdyTbl := [0xFF, 0xFF, 0xFF];
      tcbTbl := seq(S.MAX_TCBS, _ => CLEARED);
      prioTbl := seq(S.LOWEST_PRIO + 1, _ => None);
      tcbList, tcbFreeList := None, None;
      eventTbl := events;
      prioCur, prioHighRdy, tcbCur := 0, 0, 0;
      intNesting, lockNesting, running, ctxSwCtr, osTime := 0, 0, false, 0, 0;
      active, free, held := [], [], {};
      new;
      InitTables();
    }

    /** OS_InitRdyList, OS_InitTCBList, the idle task and the statistics task, in OSInit's order. */
    method InitTables()
      requires |rdyTbl| == TBL_SIZE
      requires forall e | 0 <= e < |eventTbl| :: ValidEcb(eventTbl[e]) && Members(eventTbl[e].tbl) == {}
      modifies `rdyGrp, `rdyTbl, `prioCur, `prioHighRdy, `tcbTbl, `prioTbl, `tcbList, `tcbFreeList
      modifies `active, `free, `held
      ensures Wf() && |active| == 2 && |free| == S.MAX_TCBS - 2 && held == {}
      ensures Abs().tasks == map[S.IDLE_PRIO := S.FRESH_TASK, S.STAT_PRIO := S.FRESH_TASK]
      ensures Abs().ready == {S.IDLE_PRIO, S.STAT_PRIO}
      ensures |prioTbl| == S.LOWEST_PRIO + 1 && prioTbl[S.IDLE_PRIO] == Some(active[1])
    {
      hide Wf, Abs, Lists, PrioTable, ValidMap, Members, ValidEcb, Coords, AbsTasks, NoDup, AbsEvents, WfTables;
      InitRdyList();
      InitTCBList();
      EmptyWf();
      var err := TCBInit(S.IDLE_PRIO);
      Counts();
      err := TCBInit(S.STAT_PRIO);
    }

    lemma EmptyWf()
      requires Lists(tcbTbl, tcbList, tcbFreeList, active, held, free)
      requires PrioTable(tcbTbl, prioTbl, active) && Tasks() == map[]
      requires ValidMap(rdyGrp, rdyTbl) && Members(rdyTbl) == {}
      requires forall e | 0 <= e < |eventTbl| :: ValidEcb(eventTbl[e]) && Members(eventTbl[e].tbl) == {}
      ensures Wf() && Abs().tasks == map[] && Abs().ready == {}
    {
    }

    /** OS_InitRdyList. */
    method InitRdyList()
      requires |rdyTbl| == TBL_SIZE
      modifies `rdyGrp, `rdyTbl, `prioCur, `prioHighRdy
      ensures ValidMap(rdyGrp, rdyTbl) && Members(rdyTbl) == {}
    {
      rdyGrp := 0;
      var i := 0;
      while i < TBL_SIZE
        invariant 0 <= i <= TBL_SIZE == |rdyTbl| && forall y | 0 <= y < i :: rdyTbl[y] == 0
        modifies `rdyTbl
      {
        rdyTbl := rdyTbl[i := 0];
        i := i + 1;
      }
      prioCur := 0;
      prioHighRdy := 0;
      EmptyMap(rdyTbl);
    }

    /** OS_InitTCBList: every block on the free list, in table order. */
    method InitTCBList()
      modifies `tcbTbl, `prioTbl, `tcbList, `tcbFreeList, `active, `free, `held
      ensures Lists(tcbTbl, tcbList, tcbFreeList, active, held, free)
      ensures active == [] && held == {} && |free| == S.MAX_TCBS
      ensures PrioTable(tcbTbl, prioTbl, active) && Tasks() == map[]
      ensures |prioTbl| == S.LOWEST_PRIO + 1 && forall p | 0 <= p < |prioTbl| :: prioTbl[p] == None
    {
      hide Lists, PrioTable, AbsTasks;
      tcbTbl := seq(S.MAX_TCBS, _ => CLEARED);
      prioTbl := seq(S.LOWEST_PRIO + 1, _ => None);
      var i := 0;
      while i < S.MAX_TCBS - 1
        invariant 0 <= i <= S.MAX_TCBS - 1 && |tcbTbl| == S.MAX_TCBS
        invariant forall j | 0 <= j < i :: tcbTbl[j].next == Some(j + 1)
        modifies `tcbTbl
      {
        tcbTbl := tcbTbl[i := tcbTbl[i].(next := Some(i + 1))];
        i := i + 1;
      }
      tcbTbl := tcbTbl[i := tcbTbl[i].(next := None)];
      tcbList := None;
      tcbFreeList := Some(0);
      active, free, held := [], Iota(S.MAX_TCBS), {};
      FreshLists(tcbTbl);
      FreshPrios(tcbTbl, prioTbl);
    }

    /** OS_TCBInit: takes a block off the free list, fills it, links it in front of the active list and makes
        the task ready; an error, and no change, when the free list is empty.  Its three parts are separate: each
        keeps the tables consistent by itself, with any number of blocks held by tasks being created, so other
        critical sections may come between them. */
    method TCBInit(prio: nat) returns (err: S.Err)
      requires Wf() && prio <= S.LOWEST_PRIO && prio < |prioTbl| && prioTbl[prio].None?
      modifies `tcbTbl, `prioTbl, `tcbList, `tcbFreeList, `rdyGrp, `rdyTbl, `active, `free, `held
      ensures Wf() && held == old(held)
      ensures err == S.ErrNone || held == {} ==> Abs() == S.Create(old(Abs()), prio)
      ensures err == S.ErrNone <==> old(free) != []
      ensures err == S.ErrNone ==>
        && active == [old(free)[0]] + old(active) && free == old(free)[1..]
        && |prioTbl| == S.LOWEST_PRIO + 1 && prioTbl == old(prioTbl)[prio := Some(active[0])]
      ensures err != S.ErrNone ==>
        Abs() == old(Abs()) && active == old(active) && free == old(free) && prioTbl == old(prioTbl)
    {
      hide Wf, Abs;
      Counts();
      if tcbFreeList.None? {
        return S.ErrNoMoreTcb;
      }
      var ptcb := Reserve();
      FillTcb(ptcb, prio);
      Enter(ptcb, prio);
      return S.ErrNone;
    }

    lemma Counts()
      requires Wf()
      ensures |Abs().tasks| == |active| && |active| + |held| + |free| == S.MAX_TCBS == |tcbTbl|
      ensures tcbFreeList.None? <==> free == []
      ensures |prioTbl| == S.LOWEST_PRIO + 1
    {
      ActiveNoDup();
      TaskCount(tcbTbl, prioTbl, active);
    }

    /** The first critical section of OS_TCBInit. */
    method Reserve() returns (ptcb: nat)
      requires Wf() && tcbFreeList.Some?
      modifies `tcbFreeList, `free, `held
      ensures Wf() && Abs() == old(Abs())
      ensures old(free) != [] && ptcb == old(free)[0] && free == old(free)[1..] && ptcb !in old(held)
      ensures held == old(held) + {ptcb}
    {
      hide Lists, PrioTable, ValidEcbs, ValidMap, Members;
      FreeFacts();
      ReserveKeepsLists(tcbTbl, tcbList, tcbFreeList, active, held, free);
      ptcb := tcbFreeList.value;
      tcbFreeList := tcbTbl[ptcb].next;
      free, held := free[1..], held + {ptcb};
    }

    lemma FreeFacts()
      requires Wf()
      ensures tcbFreeList.None? <==> free == []
      ensures forall i :: i in held ==> i < |tcbTbl| && i !in active
    {
    }

    /** The fields OS_TCBInit stores, with interrupts enabled, in the block it holds. */
    method FillTcb(ptcb: nat, prio: nat)
      requires Wf() && ptcb in held && prio <= S.LOWEST_PRIO
      modifies `tcbTbl
      ensures Wf() && Abs() == old(Abs()) && Filled(ptcb, prio)
    {
      hide Mask, Lists, PrioTable, ValidEcbs, ValidMap, Members, AbsTasks, Coords;
      FreeFacts();
      ghost var tcbs := tcbTbl;
      var t := tcbTbl[ptcb];
      t := t.(prio := prio);
      t := t.(task := S.FRESH_TASK);
      t := t.(y := prio / 8);
      t := t.(x := prio % 8);
      t := t.(bitY := Mask(t.y));
      t := t.(bitX := Mask(t.x));
      FilledCoords(t);
      tcbTbl := tcbTbl[ptcb := t];
      UpdateKeepsLists(tcbs, tcbTbl, tcbList, tcbFreeList, active, held, free);
      FillKeepsPrios(tcbs, prioTbl, active, ptcb, t);
    }

    ghost predicate Filled(ptcb: nat, prio: nat)
      reads `tcbTbl
    {
      ptcb < |tcbTbl| && Coords(tcbTbl[ptcb]) && tcbTbl[ptcb].prio == prio && tcbTbl[ptcb].task == S.FRESH_TASK
    }

    /** The second critical section of OS_TCBInit. */
    method Enter(ptcb: nat, prio: nat)
      requires Wf() && ptcb in held && Filled(ptcb, prio)
      requires prio <= S.LOWEST_PRIO && prio < |prioTbl| && prioTbl[prio].None?
      modifies `tcbTbl, `prioTbl, `tcbList, `rdyGrp, `rdyTbl, `active, `held
      ensures Wf() && active == [ptcb] + old(active) && held == old(held) - {ptcb}
      ensures prioTbl == old(prioTbl)[prio := Some(ptcb)]
      ensures var k := old(Abs()); Abs() == k.(tasks := k.tasks[prio := S.FRESH_TASK], ready := k.ready + {prio})
    {
      hide Wf, Abs, Parts, Lists, PrioTable, Coords, AbsTasks;
      ghost var k := Abs();
      InitFacts(prio);
      LinkTcb(ptcb, prio);
      WfFromParts(k.tasks, prio);
      MakeReady(ptcb);
    }

    /** The links and the priority table entry. */
    method LinkTcb(ptcb: nat, prio: nat)
      requires Lists(tcbTbl, tcbList, tcbFreeList, active, held, free) && PrioTable(tcbTbl, prioTbl, active)
      requires tcbList.Some? ==> tcbList.value < |tcbTbl| && tcbList.value != ptcb
      requires ptcb in held && ptcb !in active && Filled(ptcb, prio)
      requires prio <= S.LOWEST_PRIO && prio < |prioTbl| && prioTbl[prio].None?
      modifies `tcbTbl, `prioTbl, `tcbList, `active, `held
      ensures Lists(tcbTbl, tcbList, tcbFreeList, active, held, free) && PrioTable(tcbTbl, prioTbl, active)
      ensures Tasks() == old(Tasks())[prio := S.FRESH_TASK] && ptcb < |tcbTbl| && tcbTbl[ptcb].prio == prio
      ensures active == [ptcb] + old(active) && held == old(held) - {ptcb}
      ensures prioTbl == old(prioTbl)[prio := Some(ptcb)]
    {
      hide Lists, PrioTable, NoDup, AbsTasks;
      ghost var tcbs, list := tcbTbl, tcbList;
      prioTbl := prioTbl[prio := Some(ptcb)];
      tcbTbl := tcbTbl[ptcb := tcbTbl[ptcb].(next := tcbList)];
      tcbTbl := tcbTbl[ptcb := tcbTbl[ptcb].(prev := None)];
      if tcbList.Some? {
        tcbTbl := tcbTbl[tcbList.value := tcbTbl[tcbList.value].(prev := Some(ptcb))];
      }
      tcbList := Some(ptcb);
      active := [ptcb] + active;
      EnterKeepsLists(tcbs, tcbTbl, list, tcbFreeList, old(active), held, free, ptcb);
      held := held - {ptcb};
      AllocateKeepsPrios(tcbs, tcbTbl, old(prioTbl), old(active), ptcb, prio);
    }

    /** OSTaskCreate's use of OS_TCBInit while the kernel runs. */
    method TaskCreate(prio: nat) returns (err: S.Err)
      requires Valid()
      modifies `tcbTbl, `prioTbl, `tcbList, `tcbFreeList, `rdyGrp, `rdyTbl, `active, `free, `held
      ensures Valid()
      ensures var k := old(Abs());
        && (err == S.ErrNone <==> prio <= S.LOWEST_PRIO && k.intNest == 0 && prio !in k.tasks && old(free) != [])
        && Abs() == if err == S.ErrNone then S.Create(k, prio) else k
    {
      hide Wf, Abs;
      AbsNests();
      if prio > S.LOWEST_PRIO {
        return S.ErrPrioInvalid;
      }
      NoTask(prio);
      NoTask(S.IDLE_PRIO);
      if intNesting > 0 {
        return S.ErrTaskCreateIsr;
      }
      if prioTbl[prio].Some? {
        return S.ErrPrioExist;
      }
      err := TCBInit(prio);
      AbsNests();
    }

    lemma AbsNests()
      requires Wf()
      ensures Abs().intNest == intNesting && Abs().lockNest == lockNesting && Abs().cur == prioCur
    {
    }

    /** What the last part of OS_TCBInit knows on entry. */
    lemma InitFacts(prio: nat)
      requires Wf() && prio < |prioTbl| && prioTbl[prio].None?
      ensures tcbList.Some? ==> tcbList.value < |tcbTbl| && tcbList.value in active
      ensures forall i :: i in held ==> i < |tcbTbl| && i !in active
      ensures Parts(Abs().tasks) && |prioTbl| == S.LOWEST_PRIO + 1
      ensures Lists(tcbTbl, tcbList, tcbFreeList, active, held, free) && PrioTable(tcbTbl, prioTbl, active)
      ensures Abs().tasks == AbsTasks(tcbTbl, prioTbl)
      ensures Abs() == S.Kernel(Abs().tasks, AbsEvents(eventTbl), Members(rdyTbl), prioCur, intNesting, lockNesting)
    {
    }

    /** The part of Wf that speaks of events and the ready list, for a given set of tasks. */
    ghost predicate Parts(tasks: map<S.Prio, S.Task>)
      reads `eventTbl, `rdyGrp, `rdyTbl
    {
      && ValidEcbs(eventTbl) && ValidMap(rdyGrp, rdyTbl) && Members(rdyTbl) <= tasks.Keys
      && (forall e | 0 <= e < |eventTbl| :: Members(eventTbl[e].tbl) <= tasks.Keys)
      && (forall p :: p in tasks ==> TaskInRange(tasks[p], |eventTbl|))
    }

    lemma WfFromParts(tasks: map<S.Prio, S.Task>, prio: nat)
      requires Parts(tasks) && Lists(tcbTbl, tcbList, tcbFreeList, active, held, free)
      requires PrioTable(tcbTbl, prioTbl, active) && Tasks() == tasks[prio := S.FRESH_TASK]
      ensures Wf() && Abs() == S.Kernel(tasks[prio := S.FRESH_TASK], AbsEvents(eventTbl), Members(rdyTbl),
                                        prioCur, intNesting, lockNesting)
    {
      RangeNone(S.FRESH_TASK, |eventTbl|);
    }

    /** OSStart: the most urgent ready task becomes the current one, and scheduling is on. */
    method Start()
      requires Wf() && !running && S.IDLE_PRIO in Abs().ready && active != []
      requires |prioTbl| == S.LOWEST_PRIO + 1 && prioTbl[S.IDLE_PRIO] == Some(active[|active| - 1])
      modifies `prioHighRdy, `prioCur, `tcbCur, `running
      ensures Valid() && Abs() == old(Abs()).(cur := prioCur) && S.IsMin(Abs().ready, prioCur)
    {
      hide WfTables, ValidMap, Members, AbsTasks, AbsEvents;
      if !running {
        SchedNew();
        prioCur := prioHighRdy;
        tcbCur := prioTbl[prioHighRdy].value;
        running := true;
      }
    }

    /** The task and event tables are consistent. */
    ghost predicate WfTables()
      reads `tcbTbl, `prioTbl, `tcbList, `tcbFreeList, `eventTbl, `active, `free, `held
    {
      && Lists(tcbTbl, tcbList, tcbFreeList, active, held, free)
      && PrioTable(tcbTbl, prioTbl, active)
      && ValidEcbs(eventTbl)
      && (forall e | 0 <= e < |eventTbl| :: Members(eventTbl[e].tbl) <= Tasks().Keys)
      && (forall p :: p in Tasks() ==> TaskInRange(Tasks()[p], |eventTbl|))
    }

    /** All tables are consistent. */
    ghost predicate Wf()
      reads this
    {
      WfTables() && ValidMap(rdyGrp, rdyTbl) && Members(rdyTbl) <= Tasks().Keys
    }

    ghost function Tasks(): map<S.Prio, S.Task>
      requires PrioTable(tcbTbl, prioTbl, active)
      reads `tcbTbl, `prioTbl, `active
    {
      AbsTasks(tcbTbl, prioTbl)
    }

    /** After OSStart: the current task exists, the idle task is last in the list and ready. */
    ghost predicate Valid()
      reads this
    {
      && Wf() && running && |prioTbl| == S.LOWEST_PRIO + 1
      && prioCur <= S.LOWEST_PRIO && prioTbl[prioCur] == Some(tcbCur)
      && active != [] && prioTbl[S.IDLE_PRIO] == Some(active[|active| - 1])
      && S.IDLE_PRIO in Abs().ready
    }

    ghost function Abs(): S.Kernel
      requires Wf()
      reads this
    {
      S.Kernel(Tasks(), AbsEvents(eventTbl), Members(rdyTbl), prioCur, intNesting, lockNesting)
    }

    /** What an index in the active list guarantees. */
    lemma ActiveTcb(i: nat)
      requires PrioTable(tcbTbl, prioTbl, active) && i in active
      ensures i < |tcbTbl| && Coords(tcbTbl[i]) && prioTbl[tcbTbl[i].prio] == Some(i)
      ensures tcbTbl[i].prio in Tasks() && Tasks()[tcbTbl[i].prio] == tcbTbl[i].task
    {
      var k :| 0 <= k < |active| && active[k] == i;
    }

    lemma ReadyTcb(i: nat)
      requires Wf() && i in active && i < |tcbTbl|
      ensures ValidMap(rdyGrp, rdyTbl) && Coords(tcbTbl[i]) && tcbTbl[i].prio in Tasks()
    {
      ActiveTcb(i);
    }

    lemma ReadyInsert(i: nat)
      requires Wf() && i in active && i < |tcbTbl|
      ensures var t := tcbTbl[i];
        && t.y < |rdyTbl| && t.prio in Tasks()
        && ValidMap(Or(rdyGrp, t.bitY), rdyTbl[t.y := Or(rdyTbl[t.y], t.bitX)])
        && Members(rdyTbl[t.y := Or(rdyTbl[t.y], t.bitX)]) == Members(rdyTbl) + {t.prio}
    {
      hide *;
      ReadyTcb(i);
      InsertTcb(rdyGrp, rdyTbl, tcbTbl[i]);
    }

    lemma ReadyRemove(i: nat)
      requires Wf() && i in active && i < |tcbTbl|
      ensures tcbTbl[i].y < |rdyTbl|
      ensures var t := tcbTbl[i];
        var tbl' := rdyTbl[t.y := AndNot(rdyTbl[t.y], t.bitX)];
        && ValidMap(if tbl'[t.y] == 0 then AndNot(rdyGrp, t.bitY) else rdyGrp, tbl')
        && Members(tbl') == Members(rdyTbl) - {t.prio}
    {
      hide *;
      ReadyTcb(i);
      RemoveTcb(rdyGrp, rdyTbl, tcbTbl[i]);
    }

    /** OSRdyGrp |= BitY; OSRdyTbl[Y] |= BitX. */
    method MakeReady(i: nat)
      requires Wf() && i in active && i < |tcbTbl|
      modifies `rdyGrp, `rdyTbl
      ensures Wf() && Abs() == old(Abs()).(ready := old(Abs()).ready + {tcbTbl[i].prio})
    {
      hide ValidMap, Members, WfTables, AbsTasks, Or, AndNot;
      ReadyInsert(i);
      var t := tcbTbl[i];
      rdyGrp := Or(rdyGrp, t.bitY);
      rdyTbl := rdyTbl[t.y := Or(rdyTbl[t.y], t.bitX)];
    }

    /** OSRdyTbl[Y] &= ~BitX, and the group bit with it when the byte becomes zero. */
    method MakeUnready(i: nat)
      requires Wf() && i in active && i < |tcbTbl|
      modifies `rdyGrp, `rdyTbl
      ensures Wf() && Abs() == old(Abs()).(ready := old(Abs()).ready - {tcbTbl[i].prio})
    {
      hide ValidMap, Members, WfTables, AbsTasks, Or, AndNot;
      ReadyRemove(i);
      var t := tcbTbl[i];
      var y := t.y;
      rdyTbl := rdyTbl[y := AndNot(rdyTbl[y], t.bitX)];
      if rdyTbl[y] == 0 {
        rdyGrp := AndNot(rdyGrp, t.bitY);
      }
    }

    /** Writes the service fields of one block. */
    method SetTask(i: nat, t: S.Task)
      requires Wf() && i in active && i < |tcbTbl| && TaskInRange(t, |eventTbl|)
      modifies `tcbTbl
      ensures Wf() && Abs() == old(Abs()).(tasks := old(Abs()).tasks[tcbTbl[i].prio := t])
      ensures |tcbTbl| == |old(tcbTbl)|
      ensures tcbTbl == old(tcbTbl)[i := old(tcbTbl)[i].(task := t)]
    {
      hide Lists, NoDup, ValidMap, Members, Coords;
      ActiveTcb(i);
      UpdateTask(tcbTbl, prioTbl, active, i, t);
      UpdateKeepsLists(tcbTbl, tcbTbl[i := tcbTbl[i].(task := t)], tcbList, tcbFreeList, active, held, free);
      tcbTbl := tcbTbl[i := tcbTbl[i].(task := t)];
      assert Tasks().Keys == old(Tasks().Keys);
    }

    // ----- wait lists -----

    /** Replaces one event control block, adding no waiter that is not a task. */
    method SetEcb(e: nat, ev: Ecb)
      requires Wf() && e < |eventTbl| && ValidEcb(ev) && AbsEvent(ev).waiters <= Tasks().Keys
      modifies `eventTbl
      ensures Wf() && |eventTbl| == |old(eventTbl)| && eventTbl == old(eventTbl)[e := ev]
      ensures Abs() == old(Abs()).(events := old(Abs()).events[e := AbsEvent(ev)])
    {
      UpdateEcb(eventTbl, e, ev);
      eventTbl := eventTbl[e := ev];
    }

    lemma EcbFacts(i: nat, e: nat)
      requires Wf() && i in active && i < |tcbTbl| && e < |eventTbl|
      ensures var t := tcbTbl[i]; var ev := eventTbl[e];
        && ValidEcb(ev) && Coords(t) && t.y < |ev.tbl| && t.prio in Tasks()
        && AbsEvent(ev) == Abs().events[e] && AbsEvent(ev).waiters <= Tasks().Keys
        && ValidEcb(EcbAdd(ev, t)) && AbsEvent(EcbAdd(ev, t)) == S.AddWaiter(AbsEvent(ev), t.prio)
        && ValidEcb(EcbDrop(ev, t)) && AbsEvent(EcbDrop(ev, t)) == S.DropWaiter(AbsEvent(ev), t.prio)
    {
      ActiveTcb(i);
      EcbAddAbs(eventTbl[e], tcbTbl[i]);
      EcbDropAbs(eventTbl[e], tcbTbl[i]);
    }

    /** OSEventTbl[Y] |= BitX; OSEventGrp |= BitY, for one event. */
    method PutOnWaitList(i: nat, e: nat)
      requires Wf() && i in active && i < |tcbTbl| && e < |eventTbl|
      modifies `eventTbl
      ensures Wf() && |eventTbl| == |old(eventTbl)|
      ensures Abs() == old(Abs()).(events := old(Abs()).events[e := S.AddWaiter(old(Abs()).events[e], tcbTbl[i].prio)])
    {
      hide ValidEcb, AbsEvent, EcbDrop, WfTables, ValidMap, Members;
      EcbFacts(i, e);
      var t := tcbTbl[i];
      var ev := eventTbl[e];
      ghost var ev0 := ev;
      ev := ev.(tbl := ev.tbl[t.y := Or(ev.tbl[t.y], t.bitX)]);
      ev := ev.(grp := Or(ev.grp, t.bitY));
      assert ev == EcbAdd(ev0, t);
      SetEcb(e, ev);
    }

    method EventTaskRemove(i: nat, e: nat)
      requires Wf() && i in active && i < |tcbTbl| && e < |eventTbl|
      modifies `eventTbl
      ensures Wf() && |eventTbl| == |old(eventTbl)|
      ensures Abs() == old(Abs()).(events := old(Abs()).events[e := S.DropWaiter(old(Abs()).events[e], tcbTbl[i].prio)])
    {
      hide ValidEcb, AbsEvent, EcbAdd, WfTables, ValidMap, Members;
      EcbFacts(i, e);
      var t := tcbTbl[i];
      var ev := eventTbl[e];
      ghost var ev0 := ev;
      var y := t.y;
      ev := ev.(tbl := ev.tbl[y := AndNot(ev.tbl[y], t.bitX)]);
      if ev.tbl[y] == 0 {
        ev := ev.(grp := AndNot(ev.grp, t.bitY));
      }
      assert ev == EcbDrop(ev0, t);
      SetEcb(e, ev);
    }

    method EventTaskRemoveMulti(i: nat, evs: seq<S.EvId>)
      requires Wf() && i in active && i < |tcbTbl| && forall e :: e in evs ==> e < |eventTbl|
      modifies `eventTbl
      ensures Wf() && |eventTbl| == |old(eventTbl)|
      ensures Abs() == old(Abs()).(events := S.DropAll(old(Abs()).events, tcbTbl[i].prio, evs))
    {
      hide Wf, Abs, S.DropAll, S.AddAll, S.DropWaiter, S.AddWaiter;
      AbsShape();
      DropAllNone(Abs().events, tcbTbl[i].prio);
      ghost var events := Abs().events;
      var n := 0;
      while n < |evs|
        invariant 0 <= n <= |evs| && Wf() && |eventTbl| == |old(eventTbl)|
        invariant Abs() == old(Abs()).(events := S.DropAll(events, tcbTbl[i].prio, evs[..n]))
      {
        assert evs[n] in evs;
        DropAllStep(events, tcbTbl[i].prio, evs, n);
        EventTaskRemove(i, evs[n]);
        n := n + 1;
      }
      assert evs[..|evs|] == evs;
    }

    lemma AbsShape()
      requires Wf()
      ensures |Abs().events| == |eventTbl|
    {
    }

    /** OS_EventTaskWaitMulti: the current task goes on every listed event and off the ready list. */
    method EventTaskWaitMulti(evs: seq<S.EvId>)
      requires Valid() && prioCur != S.IDLE_PRIO && forall e :: e in evs ==> e < |eventTbl|
      modifies `tcbTbl, `eventTbl, `rdyGrp, `rdyTbl
      ensures Valid() && |eventTbl| == |old(eventTbl)|
      ensures var k := old(Abs()); k.cur in k.tasks && Abs() == k.(
        tasks := k.tasks[k.cur := k.tasks[k.cur].(eventPtr := None, multi := Some(evs))],
        events := S.AddAll(k.events, k.cur, evs), ready := k.ready - {k.cur})
    {
      hide Wf, Abs, S.DropAll, S.AddAll, S.DropWaiter, S.AddWaiter;
      CurFacts();
      SetTask(tcbCur, tcbTbl[tcbCur].task.(eventPtr := None, multi := Some(evs)));
      AbsShape();
      DropAllNone(Abs().events, prioCur);
      ghost var k := Abs();
      var n := 0;
      while n < |evs|
        invariant 0 <= n <= |evs| && Wf() && |eventTbl| == |old(eventTbl)|
        invariant Abs() == k.(events := S.AddAll(k.events, prioCur, evs[..n]))
        modifies `eventTbl
      {
        assert evs[n] in evs;
        DropAllStep(k.events, prioCur, evs, n);
        PutOnWaitList(tcbCur, evs[n]);
        n := n + 1;
      }
      assert evs[..|evs|] == evs;
      MakeUnready(tcbCur);
    }

    lemma CurFacts()
      requires Valid()
      ensures tcbCur in active && tcbCur < |tcbTbl| && tcbTbl[tcbCur].prio == prioCur
      ensures Abs().intNest == intNesting && Abs().lockNest == lockNesting
      ensures TaskInRange(tcbTbl[tcbCur].task, |eventTbl|)
      ensures Abs().cur == prioCur && prioCur in Abs().tasks && Abs().tasks[prioCur] == tcbTbl[tcbCur].task
    {
      ActiveTcb(tcbCur);
    }

    // ----- readying -----

    /** The two table look-ups name the most urgent waiter, and its block is in the table. */
    lemma TopWaiter(e: nat)
      requires Valid() && e < |eventTbl| && eventTbl[e].grp != 0
      ensures UnMap(eventTbl[e].grp) < |eventTbl[e].tbl| && e < |Abs().events|
      ensures var p := 8 * UnMap(eventTbl[e].grp) + UnMap(eventTbl[e].tbl[UnMap(eventTbl[e].grp)]);
        && Abs().events[e].waiters != {} && p == S.Min(Abs().events[e].waiters)
        && PrioFacts(p)
    {
      hide Wf, Abs, ValidEcb, AbsEvent, UnMap, PrioFacts;
      EventFacts(e);
      TopPrio(eventTbl[e]);
      TaskFacts(S.Min(Abs().events[e].waiters));
    }

    /** p names a task, and prioTbl leads to its block. */
    ghost predicate PrioFacts(p: nat)
      requires Wf()
      reads this
    {
      && |prioTbl| == S.LOWEST_PRIO + 1 && p <= S.LOWEST_PRIO && prioTbl[p].Some?
      && prioTbl[p].value in active && prioTbl[p].value < |tcbTbl|
      && tcbTbl[prioTbl[p].value].prio == p
      && p in Abs().tasks && Abs().tasks[p] == tcbTbl[prioTbl[p].value].task
      && TaskInRange(Abs().tasks[p], |eventTbl|)
    }

    lemma TaskFacts(p: nat)
      requires Wf() && (p in Abs().tasks || (|prioTbl| == S.LOWEST_PRIO + 1 && p <= S.LOWEST_PRIO && prioTbl[p].Some?))
      ensures PrioFacts(p)
    {
    }

    method EventTaskRdy(e: nat, msg: S.Msg, msk: set<S.StatBit>, ps: S.PendStat) returns (prio: nat)
      requires Valid() && e < |eventTbl| && eventTbl[e].grp != 0
      modifies `tcbTbl, `eventTbl, `rdyGrp, `rdyTbl
      ensures Valid() && |eventTbl| == |old(eventTbl)|
      ensures var k := old(Abs());
        && e < |k.events| && k.events[e].waiters != {} && prio == S.Min(k.events[e].waiters) && prio in k.tasks
        && Abs() == S.EventTaskRdy(k, e, msg, msk, ps)
        && (S.StSuspend !in k.tasks[prio].stat ==> prio in Abs().ready)
    {
      hide Wf, Abs, S.DropAll, S.AddAll, S.DropWaiter, S.AddWaiter, UnMap, TaskInRange;
      AbsShape();
      TopWaiter(e);
      var y := UnMap(eventTbl[e].grp);
      var x := UnMap(eventTbl[e].tbl[y]);
      prio := 8 * y + x;
      var i := prioTbl[prio].value;
      var t := tcbTbl[i].task;
      t := t.(dly := 0);
      t := t.(msg := msg);
      t := t.(stat := t.stat - msk);
      t := t.(statPend := ps);
      RangeKept(tcbTbl[i].task, t, |eventTbl|);
      SetTask(i, t);
      if S.StSuspend !in t.stat {
        MakeReady(i);
      }
      EventTaskRemove(i, e);
      if t.multi.Some? {
        EventTaskRemoveMulti(i, t.multi.value);
        t := t.(eventPtr := Some(e));
        SetTask(i, t);
      }
    }

    // ----- posts -----

    lemma EventFacts(e: nat)
      requires Wf() && e < |eventTbl|
      ensures |Abs().events| == |eventTbl| && ValidEcb(eventTbl[e]) && Abs().events[e] == AbsEvent(eventTbl[e])
      ensures Abs().events[e].typ == eventTbl[e].typ && Abs().events[e].cnt == eventTbl[e].cnt
      ensures Abs().events[e].box == eventTbl[e].ptr
      ensures Abs().events[e].waiters <= Abs().tasks.Keys && Abs().tasks == Tasks()
      ensures eventTbl[e].grp == 0 <==> Abs().events[e].waiters == {}
    {
      GroupZeroIffEmpty(eventTbl[e].grp, eventTbl[e].tbl);
    }

    method SemPost(e: nat) returns (err: S.Err)
      requires Valid() && e < |eventTbl|
      modifies `tcbTbl, `eventTbl, `rdyGrp, `rdyTbl
      ensures Valid() && |eventTbl| == |old(eventTbl)|
      ensures var k := old(Abs());
        && e < |k.events| && k.events[e].waiters <= k.tasks.Keys
        && (Abs(), err) == if k.events[e].typ == S.Sem then S.Post(k, e, S.NULL_MSG) else (k, S.ErrEventType)
    {
      hide Wf, Abs, ValidEcb, S.EventTaskRdy;
      EventFacts(e);
      if eventTbl[e].typ != S.Sem {
        return S.ErrEventType;
      }
      if eventTbl[e].grp != 0 {
        var _ := EventTaskRdy(e, S.NULL_MSG, {S.StSem}, S.PendOk);
        return S.ErrNone;
      }
      if eventTbl[e].cnt < 65535 {
        SetCnt(e, eventTbl[e].cnt + 1);
        return S.ErrNone;
      }
      return S.ErrSemOvf;
    }

    method SetCnt(e: nat, cnt: nat)
      requires Valid() && e < |eventTbl|
      modifies `eventTbl
      ensures Valid() && |eventTbl| == |old(eventTbl)|
      ensures var k := old(Abs()); e < |k.events| && Abs() == k.(events := k.events[e := k.events[e].(cnt := cnt)])
    {
      hide Wf, Abs, ValidEcb, AbsEvent;
      EventFacts(e);
      EcbFields(eventTbl[e], cnt, eventTbl[e].ptr);
      SetEcb(e, eventTbl[e].(cnt := cnt));
    }

    method MboxPost(e: nat, msg: S.Msg) returns (err: S.Err)
      requires Valid() && e < |eventTbl|
      modifies `tcbTbl, `eventTbl, `rdyGrp, `rdyTbl
      ensures Valid() && |eventTbl| == |old(eventTbl)|
      ensures var k := old(Abs());
        && e < |k.events| && k.events[e].waiters <= k.tasks.Keys
        && (Abs(), err) == if msg == S.NULL_MSG then (k, S.ErrPostNull)
                           else if k.events[e].typ == S.Mbox then S.Post(k, e, msg) else (k, S.ErrEventType)
    {
      hide Wf, Abs, ValidEcb, S.EventTaskRdy, AbsEvent;
      EventFacts(e);
      EcbFields(eventTbl[e], eventTbl[e].cnt, msg);
      if msg == S.NULL_MSG {
        return S.ErrPostNull;
      }
      if eventTbl[e].typ != S.Mbox {
        return S.ErrEventType;
      }
      if eventTbl[e].grp != 0 {
        var _ := EventTaskRdy(e, msg, {S.StMbox}, S.PendOk);
        return S.ErrNone;
      }
      if eventTbl[e].ptr != S.NULL_MSG {
        return S.ErrMboxFull;
      }
      SetEcb(e, eventTbl[e].(ptr := msg));
      return S.ErrNone;
    }

    method QPost(e: nat, msg: S.Msg) returns (err: S.Err)
      requires Valid() && e < |eventTbl|
      modifies `tcbTbl, `eventTbl, `rdyGrp, `rdyTbl
      ensures Valid() && |eventTbl| == |old(eventTbl)|
      ensures var k := old(Abs());
        && e < |k.events| && k.events[e].waiters <= k.tasks.Keys
        && (Abs(), err) == if k.events[e].typ == S.Queue then S.Post(k, e, msg) else (k, S.ErrEventType)
    {
      hide Wf, Abs, ValidEcb, S.EventTaskRdy, AbsEvent;
      EventFacts(e);
      EcbQueue(eventTbl[e], msg);
      if eventTbl[e].typ != S.Queue {
        return S.ErrEventType;
      }
      if eventTbl[e].grp != 0 {
        var _ := EventTaskRdy(e, msg, {S.StQ}, S.PendOk);
        return S.ErrNone;
      }
      var q := eventTbl[e].q;
      if q.entries >= |q.buf| {
        return S.ErrQFull;
      }
      q := q.(buf := q.buf[q.qin := msg]);
      q := q.(qin := q.qin + 1);
      q := q.(entries := q.entries + 1);
      if q.qin == |q.buf| {
        q := q.(qin := 0);
      }
      SetEcb(e, eventTbl[e].(q := q));
      return S.ErrNone;
    }

    /** One abort of the most urgent waiter, as the pend-abort services do. */
    method PendAbort(e: nat)
      requires Valid() && e < |eventTbl|
      modifies `tcbTbl, `eventTbl, `rdyGrp, `rdyTbl
      ensures Valid() && |eventTbl| == |old(eventTbl)|
      ensures var k := old(Abs());
        e < |k.events| && k.events[e].waiters <= k.tasks.Keys && Abs() == S.Abort(k, e)
    {
      hide Wf, Abs, ValidEcb, S.EventTaskRdy, AbsEvent;
      EventFacts(e);
      if S.Pendable(eventTbl[e].typ) && eventTbl[e].grp != 0 {
        var _ := EventTaskRdy(e, S.NULL_MSG, {S.KindBit(eventTbl[e].typ)}, S.PendAbort);
      }
    }

    // ----- pends -----

    /** The first pass of OSEventPendMulti: are all listed events semaphores, mailboxes or queues? */
    method AllPendable(evs: seq<S.EvId>) returns (ok: bool)
      requires forall e :: e in evs ==> e < |eventTbl|
      ensures ok <==> forall e :: e in evs ==> S.Pendable(eventTbl[e].typ)
    {
      var n := 0;
      while n < |evs|
        invariant 0 <= n <= |evs|
        invariant forall i | 0 <= i < n :: evs[i] < |eventTbl| && S.Pendable(eventTbl[evs[i]].typ)
      {
        assert evs[n] in evs;
        match eventTbl[evs[n]].typ {
          case Sem =>
          case Mbox =>
          case Queue =>
          case _ => return false;
        }
        n := n + 1;
      }
      return true;
    }

    /** One entry of the polling pass: takes a unit if the event has one. */
    method PollOne(e: nat) returns (got: bool, msg: S.Msg)
      requires Wf() && e < |eventTbl|
      modifies `eventTbl
      ensures Wf() && |eventTbl| == |old(eventTbl)|
      ensures var k := old(Abs());
        && e < |k.events|
        && (got <==> S.Units(k.events[e]) > 0)
        && Abs() == (if got then k.(events := k.events[e := S.TakeOne(k.events[e]).0]) else k)
        && (got ==> msg == S.TakeOne(k.events[e]).1)
    {
      hide Wf, Abs, ValidEcb, AbsEvent, S.Units, S.TakeOne;
      EventFacts(e);
      EcbTakeAbs(eventTbl[e]);
      EcbTakeWaiters(eventTbl[e]);
      var ev := eventTbl[e];
      msg := S.NULL_MSG;
      match ev.typ
      case Sem =>
        got := ev.cnt > 0;
        if got {
          SetEcb(e, ev.(cnt := ev.cnt - 1));
        }
      case Mbox =>
        got := ev.ptr != S.NULL_MSG;
        if got {
          msg := ev.ptr;
          SetEcb(e, ev.(ptr := S.NULL_MSG));
        }
      case Queue =>
        got := ev.q.entries > 0;
        if got {
          var q := ev.q;
          msg := q.buf[q.qout];
          q := q.(qout := q.qout + 1);
          if q.qout == |q.buf| {
            q := q.(qout := 0);
          }
          q := q.(entries := q.entries - 1);
          SetEcb(e, ev.(q := q));
        }
      case _ =>
        got := false;
    }

    /** The polling pass of OSEventPendMulti over the caller's arrays. */
    method PollAll(evs: seq<S.EvId>, eventsRdy: array<Option<S.EvId>>, msgsRdy: array<S.Msg>)
      returns (nbr: nat, stat: set<S.StatBit>)
      requires Wf() && forall e :: e in evs ==> e < |eventTbl|
      requires eventsRdy.Length > |evs| && msgsRdy.Length >= |evs|
      modifies `eventTbl, eventsRdy, msgsRdy
      ensures Wf() && |eventTbl| == |old(eventTbl)|
      ensures var k := old(Abs()); S.InRange(k, evs) && var r := S.TakeAll(k.events, evs);
        && Abs() == k.(events := r.events) && nbr == |r.rdy| <= |evs|
        && (forall i | 0 <= i < nbr :: eventsRdy[i] == Some(r.rdy[i]) && msgsRdy[i] == r.msgs[i])
        && (r.rdy == [] ==> stat == S.Kinds(k.events, evs))
      ensures forall i | nbr <= i < eventsRdy.Length :: eventsRdy[i] == old(eventsRdy[i])
      ensures forall i | nbr <= i < msgsRdy.Length :: msgsRdy[i] == old(msgsRdy[i])
    {
      hide Wf, Abs, S.TakeAll, S.Kinds, S.Units, S.TakeOne;
      AbsRange(evs);
      ghost var k := Abs();
      nbr, stat := 0, {};
      var n := 0;
      EmptyPass(k.events);
      assert evs[..0] == [];
      while n < |evs|
        invariant 0 <= n <= |evs| && nbr <= n
        invariant Wf() && |eventTbl| == |old(eventTbl)|
        invariant AllIn(k.events, evs[..n]) && var r := S.TakeAll(k.events, evs[..n]);
          && Abs() == k.(events := r.events) && nbr == |r.rdy|
          && (forall i | 0 <= i < nbr :: eventsRdy[i] == Some(r.rdy[i]) && msgsRdy[i] == r.msgs[i])
          && (r.rdy == [] ==> stat == S.Kinds(k.events, evs[..n]))
        invariant forall i | nbr <= i < eventsRdy.Length :: eventsRdy[i] == old(eventsRdy[i])
        invariant forall i | nbr <= i < msgsRdy.Length :: msgsRdy[i] == old(msgsRdy[i])
        modifies `eventTbl, eventsRdy, msgsRdy
      {
        assert evs[n] in evs;
        assert evs[..n + 1] == evs[..n] + [evs[n]];
        TakeAllStep(k.events, evs[..n], evs[n]);
        KindsStep(k.events, evs[..n], evs[n]);
        TakeAllTypes(k.events, evs[..n]);
        EventFacts(evs[n]);
        var typ := eventTbl[evs[n]].typ;
        var got, msg := PollOne(evs[n]);
        if got {
          eventsRdy[nbr] := Some(evs[n]);
          msgsRdy[nbr] := msg;
          nbr := nbr + 1;
        } else {
          stat := stat + {S.KindBit(typ)};
        }
        n := n + 1;
      }
      assert evs[..|evs|] == evs;
    }

    lemma AbsRange(evs: seq<S.EvId>)
      requires Wf() && forall e :: e in evs ==> e < |eventTbl|
      ensures S.InRange(Abs(), evs) && |Abs().events| == |eventTbl|
      ensures forall e :: e in evs ==> Abs().events[e].typ == eventTbl[e].typ
    {
    }

    /** OSEventPendMulti up to its call of OS_Sched.  The idle task never pends. */
    method PendMultiStart(evs: seq<S.EvId>, eventsRdy: array<Option<S.EvId>>, msgsRdy: array<S.Msg>, timeout: nat)
      returns (nbr: nat, err: S.Err, blocked: bool)
      requires Valid() && (forall e :: e in evs ==> e < |eventTbl|) && (prioCur != S.IDLE_PRIO || intNesting > 0)
      requires eventsRdy.Length > |evs| && msgsRdy.Length >= |evs|
      modifies `tcbTbl, `eventTbl, `rdyGrp, `rdyTbl, eventsRdy, msgsRdy
      ensures Valid() && |eventTbl| == |old(eventTbl)|
      ensures var k := old(Abs()); k.cur in k.tasks && S.InRange(k, evs) && var r := S.PendMulti(k, evs, timeout);
        && Abs() == r.k && blocked == r.blocked && err == r.err && nbr == |r.rdy| == |r.msgs| <= |evs|
        && (forall i | 0 <= i < nbr :: eventsRdy[i] == Some(r.rdy[i]) && msgsRdy[i] == r.msgs[i])
        && eventsRdy[nbr] == None
      ensures forall i | nbr < i < eventsRdy.Length :: eventsRdy[i] == old(eventsRdy[i])
      ensures forall i | nbr <= i < msgsRdy.Length :: msgsRdy[i] == old(msgsRdy[i])
    {
      hide Wf, Abs, S.TakeAll, S.Kinds, S.BlockMulti;
      CurFacts();
      AbsRange(evs);
      eventsRdy[0] := None;
      blocked := false;
      var ok := AllPendable(evs);
      if !ok {
        return 0, S.ErrEventType, false;
      }
      if intNesting > 0 {
        return 0, S.ErrPendIsr, false;
      }
      if lockNesting > 0 {
        return 0, S.ErrPendLocked, false;
      }
      ghost var k := Abs();
      var stat;
      nbr, stat := PollAll(evs, eventsRdy, msgsRdy);
      if nbr > 0 {
        eventsRdy[nbr] := None;
        return nbr, S.ErrNone, false;
      }
      TakeNothing(k.events, evs);
      BlockCurrent(evs, stat, timeout);
      return 0, S.ErrNone, true;
    }

    /** Updates the current task's status, stores the timeout and puts it on every list. */
    method BlockCurrent(evs: seq<S.EvId>, stat: set<S.StatBit>, timeout: nat)
      requires Valid() && prioCur != S.IDLE_PRIO && forall e :: e in evs ==> e < |eventTbl|
      requires S.InRange(Abs(), evs) && stat == S.Kinds(Abs().events, evs)
      modifies `tcbTbl, `eventTbl, `rdyGrp, `rdyTbl
      ensures Valid() && |eventTbl| == |old(eventTbl)|
      ensures old(Abs().cur) in old(Abs().tasks) && Abs() == S.BlockMulti(old(Abs()), evs, timeout)
    {
      hide Wf, Abs, S.AddAll, S.Kinds, TaskInRange;
      CurFacts();
      var t := tcbTbl[tcbCur].task;
      ghost var t0 := t;
      t := t.(stat := t.stat + (stat + {S.StMulti}));
      t := t.(statPend := S.PendOk);
      t := t.(dly := timeout);
      assert t.stat == t0.stat + stat + {S.StMulti};
      RangeKept(t0, t, |eventTbl|);
      SetTask(tcbCur, t);
      EventTaskWaitMulti(evs);
    }

    /** OSEventPendMulti after its call of OS_Sched, run by the task that pended. */
    method PendMultiFinish(evs: seq<S.EvId>, eventsRdy: array<Option<S.EvId>>, msgsRdy: array<S.Msg>)
      returns (nbr: nat, err: S.Err)
      requires Valid() && (forall e :: e in evs ==> e < |eventTbl|)
      requires eventsRdy.Length > |evs| && msgsRdy.Length > 0 && msgsRdy.Length >= |evs| && eventsRdy[0] == None
      requires tcbCur < |tcbTbl| && var t := tcbTbl[tcbCur].task;
        t.eventPtr.Some? ==> t.eventPtr.value in evs && S.Pendable(eventTbl[t.eventPtr.value].typ)
      modifies `tcbTbl, `eventTbl, eventsRdy, msgsRdy
      ensures Valid() && |eventTbl| == |old(eventTbl)|
      ensures var k := old(Abs());
        && k.cur in k.tasks && S.InRange(k, evs) && Abs() == S.FinishMulti(k, evs)
        && (k.tasks[k.cur].eventPtr.Some? ==> k.tasks[k.cur].eventPtr.value < |k.events|)
        && var o := S.MultiOutcome(k.tasks[k.cur], k.events);
          && err == o.err && nbr == |o.rdy| <= 1 && msgsRdy[0] == o.msg && eventsRdy[nbr] == None
          && (nbr == 1 ==> eventsRdy[0] == Some(o.rdy[0]))
    {
      hide Wf, Abs, S.DropAll, TaskInRange;
      CurFacts();
      AbsRange(evs);
      nbr := 0;
      var t := tcbTbl[tcbCur].task;
      if (t.statPend == S.PendOk || t.statPend == S.PendAbort) && t.eventPtr.Some? {
        eventsRdy[0] := t.eventPtr;
        eventsRdy[1] := None;
        nbr := 1;
      } else {
        t := t.(statPend := S.PendTo);
        EventTaskRemoveMulti(tcbCur, evs);
      }
      err := ReportOutcome(t, msgsRdy);
      t := t.(stat := {}, statPend := S.PendOk, eventPtr := None, multi := None, msg := S.NULL_MSG);
      RangeNone(t, |eventTbl|);
      SetTask(tcbCur, t);
    }

    /** The second switch of OSEventPendMulti's end: the message and the error. */
    method ReportOutcome(t: S.Task, msgsRdy: array<S.Msg>) returns (err: S.Err)
      requires Wf() && msgsRdy.Length > 0 && (t.statPend == S.PendOk ==> t.eventPtr.Some?)
      requires t.eventPtr.Some? ==> t.eventPtr.value < |eventTbl|
      modifies msgsRdy
      ensures |Abs().events| == |eventTbl|
      ensures t.statPend == S.PendTo || t.eventPtr.Some? ==>
        var o := S.MultiOutcome(t, Abs().events); err == o.err && msgsRdy[0] == o.msg
    {
      hide WfTables, ValidMap, Members;
      match t.statPend {
        case PendOk =>
          EventFacts(t.eventPtr.value);
          msgsRdy[0] := if eventTbl[t.eventPtr.value].typ == S.Sem then S.NULL_MSG else t.msg;
          err := S.ErrNone;
        case PendAbort =>
          msgsRdy[0] := S.NULL_MSG;
          err := S.ErrPendAbort;
        case PendTo =>
          msgsRdy[0] := S.NULL_MSG;
          err := S.ErrTimeout;
      }
    }

    /** OS_EventTaskWait. */
    method EventTaskWait(e: nat)
      requires Valid() && prioCur != S.IDLE_PRIO && e < |eventTbl|
      modifies `tcbTbl, `eventTbl, `rdyGrp, `rdyTbl
      ensures Valid() && |eventTbl| == |old(eventTbl)|
      ensures var k := old(Abs());
        && k.cur in k.tasks && e < |k.events|
        && Abs() == k.(tasks := k.tasks[k.cur := k.tasks[k.cur].(eventPtr := Some(e))],
                       events := k.events[e := S.AddWaiter(k.events[e], k.cur)], ready := k.ready - {k.cur})
    {
      hide Wf, Abs, TaskInRange;
      CurFacts();
      AbsShape();
      var t := tcbTbl[tcbCur].task;
      RangeKept(t, t, |eventTbl|);
      SetTask(tcbCur, t.(eventPtr := Some(e)));
      PutOnWaitList(tcbCur, e);
      MakeUnready(tcbCur);
    }

    /** OSSemPend up to its call of OS_Sched. */
    method SemPendStart(e: nat, timeout: nat) returns (err: S.Err, blocked: bool)
      requires Valid() && e < |eventTbl| && (prioCur != S.IDLE_PRIO || intNesting > 0)
      modifies `tcbTbl, `eventTbl, `rdyGrp, `rdyTbl
      ensures Valid() && |eventTbl| == |old(eventTbl)|
      ensures var k := old(Abs());
        && k.cur in k.tasks && e < |k.events|
        && var r := S.SemPend(k, e, timeout); Abs() == r.k && blocked == r.blocked && err == r.err
    {
      hide Wf, Abs, TaskInRange, ValidEcb, AbsEvent;
      CurFacts();
      EventFacts(e);
      if eventTbl[e].typ != S.Sem {
        return S.ErrEventType, false;
      }
      if intNesting > 0 {
        return S.ErrPendIsr, false;
      }
      if lockNesting > 0 {
        return S.ErrPendLocked, false;
      }
      if eventTbl[e].cnt > 0 {
        SetCnt(e, eventTbl[e].cnt - 1);
        return S.ErrNone, false;
      }
      var t := tcbTbl[tcbCur].task;
      t := t.(stat := t.stat + {S.StSem});
      t := t.(statPend := S.PendOk);
      t := t.(dly := timeout);
      RangeKept(tcbTbl[tcbCur].task, t, |eventTbl|);
      SetTask(tcbCur, t);
      EventTaskWait(e);
      return S.ErrNone, true;
    }

    /** OSSemPend after its call of OS_Sched. */
    method SemPendFinish(e: nat) returns (err: S.Err)
      requires Valid() && e < |eventTbl|
      modifies `tcbTbl, `eventTbl
      ensures Valid() && |eventTbl| == |old(eventTbl)|
      ensures var k := old(Abs());
        && k.cur in k.tasks && e < |k.events| && Abs() == S.FinishSem(k, e)
        && err == match k.tasks[k.cur].statPend {
                    case PendOk => S.ErrNone case PendAbort => S.ErrPendAbort case PendTo => S.ErrTimeout }
    {
      hide Wf, Abs, TaskInRange;
      CurFacts();
      AbsShape();
      var t := tcbTbl[tcbCur].task;
      match t.statPend {
        case PendOk => err := S.ErrNone;
        case PendAbort => err := S.ErrPendAbort;
        case PendTo =>
          EventTaskRemove(tcbCur, e);
          err := S.ErrTimeout;
      }
      t := t.(stat := {}, statPend := S.PendOk, eventPtr := None, multi := None);
      RangeNone(t, |eventTbl|);
      SetTask(tcbCur, t);
    }

    // ----- the clock tick -----

    /** The body of OSTimeTick's loop. */
    method TickOne(i: nat)
      requires Wf() && i in active && i < |tcbTbl|
      modifies `tcbTbl, `rdyGrp, `rdyTbl
      ensures Wf() && tcbTbl == old(tcbTbl)[i := tcbTbl[i]] && tcbTbl[i].(task := old(tcbTbl)[i].task) == old(tcbTbl)[i]
      ensures old(tcbTbl)[i].prio in old(Abs().tasks) && Abs() == S.TickTask(old(Abs()), old(tcbTbl)[i].prio)
    {
      hide Wf, Abs, TaskInRange;
      BlockFacts(i);
      var t := tcbTbl[i].task;
      if t.dly != 0 {
        t := t.(dly := t.dly - 1);
        if t.dly == 0 {
          if t.stat * S.PEND_ANY != {} {
            t := t.(stat := t.stat - S.PEND_ANY);
            t := t.(statPend := S.PendTo);
          } else {
            t := t.(statPend := S.PendOk);
          }
          RangeKept(tcbTbl[i].task, t, |eventTbl|);
          SetTask(i, t);
          if S.StSuspend !in t.stat {
            MakeReady(i);
          }
        } else {
          RangeKept(tcbTbl[i].task, t, |eventTbl|);
          SetTask(i, t);
        }
      }
    }

    lemma BlockFacts(i: nat)
      requires Wf() && i in active && i < |tcbTbl|
      ensures tcbTbl[i].prio in Abs().tasks && Abs().tasks[tcbTbl[i].prio] == tcbTbl[i].task
      ensures TaskInRange(tcbTbl[i].task, |eventTbl|)
    {
      ActiveTcb(i);
    }

    /** The list facts OSTimeTick's loop needs, with n blocks behind it. */
    lemma ListFacts(n: nat)
      requires Valid() && n < |active|
      ensures active[n] < |tcbTbl| && active[n] in active && tcbList == Some(active[0])
      ensures tcbTbl[active[n]].prio == S.IDLE_PRIO <==> n == |active| - 1
      ensures n < |active| - 1 ==> tcbTbl[active[n]].next == Some(active[n + 1]) && active[n + 1] < |tcbTbl|
      ensures var p := tcbTbl[active[n]].prio;
        && p in Abs().tasks && Done(0) == {} && p !in Done(n) && Done(n + 1) == Done(n) + {p}
        && (n == |active| - 1 ==> Done(n) == Abs().tasks.Keys - {S.IDLE_PRIO})
    {
      hide PrioTable, BackLinked, NoDup, ValidEcbs, ValidMap, Members, Coords, AbsTasks, DonePrios;
      ActiveNoDup();
      NextActive(tcbTbl, tcbList, prioTbl, active, n);
      DoneFacts(n);
      ActiveTcb(active[n]);
    }

    lemma DoneFacts(n: nat)
      requires Valid() && NoDup(active) && n < |active|
      requires tcbTbl[active[n]].prio == S.IDLE_PRIO <==> n == |active| - 1
      ensures var p := tcbTbl[active[n]].prio;
        && Done(0) == {} && p !in Done(n) && Done(n + 1) == Done(n) + {p}
        && (n == |active| - 1 ==> Done(n) == Abs().tasks.Keys - {S.IDLE_PRIO})
    {
      hide NoDup, ValidEcbs, ValidMap, Members, Coords, AbsTasks;
      DoneStep(tcbTbl, prioTbl, active, n);
      if n == |active| - 1 {
        DoneAll(tcbTbl, prioTbl, active);
      }
    }

    lemma ActiveNoDup()
      requires Wf()
      ensures NoDup(active)
    {
      assert active == (active + free)[..|active|];
    }

    ghost function Done(n: nat): set<nat>
      requires Wf() && n <= |active|
      reads this
    {
      DonePrios(tcbTbl, active, n)
    }

    /** No section changes the priorities of the blocks in the list. */
    twostate lemma DoneKept(n: nat)
      requires old(Wf()) && Wf() && n <= |active| && active == old(active) && prioTbl == old(prioTbl)
      ensures Done(n) == old(Done(n))
    {
      forall k | 0 <= k < n ensures tcbTbl[active[k]].prio == old(tcbTbl)[active[k]].prio {
        var p, q := tcbTbl[active[k]].prio, old(tcbTbl)[active[k]].prio;
        assert prioTbl[p] == Some(active[k]) && prioTbl[q] == Some(active[k]);
        assert tcbTbl[prioTbl[q].value].prio == q;
      }
    }

    /** Any critical sections of interrupts that nest between two blocks of the scan; xs and ys are all sections
        since k, before and after. */
    method Nested(ghost k: S.Kernel, ghost xs: seq<N.Section>, ghost done: set<S.Prio>)
      returns (ghost ys: seq<N.Section>)
      requires Valid() && N.Leads(k, xs, Abs()) && N.OnceEach(xs, done)
      modifies `tcbTbl, `eventTbl, `rdyGrp, `rdyTbl
      ensures Valid() && N.Leads(k, ys, Abs()) && N.OnceEach(ys, done) && Abs().tasks.Keys == old(Abs().tasks.Keys)
    {
      hide Wf, Abs, N.Leads, N.OnceEach;
      ys := xs;
      var rounds: nat := *;
      while rounds > 0
        invariant Valid() && N.Leads(k, ys, Abs()) && N.OnceEach(ys, done) && Abs().tasks.Keys == old(Abs().tasks.Keys)
        modifies `tcbTbl, `eventTbl, `rdyGrp, `rdyTbl
        decreases rounds
      {
        var post: bool, event: nat, msg: S.Msg, prio: nat := *, *, *, *;
        if post && event < |eventTbl| {
          ys := NestedPost(k, ys, done, event, msg);
        } else if !post {
          ys := NestedTask(k, ys, done, prio);
        }
        rounds := rounds - 1;
      }
    }

    method NestedPost(ghost k: S.Kernel, ghost xs: seq<N.Section>, ghost done: set<S.Prio>, e: nat, msg: S.Msg)
      returns (ghost ys: seq<N.Section>)
      requires Valid() && N.Leads(k, xs, Abs()) && N.OnceEach(xs, done) && e < |eventTbl|
      modifies `tcbTbl, `eventTbl, `rdyGrp, `rdyTbl
      ensures Valid() && N.Leads(k, ys, Abs()) && N.OnceEach(ys, done) && Abs().tasks.Keys == old(Abs().tasks.Keys)
    {
      hide Wf, Abs, AbsEvent, ValidEcb, N.Leads, N.OnceEach, S.Post, S.Abort;
      EventFacts(e);
      ghost var m, x := Abs(), N.OnAbort(e);
      var abort: bool := *;
      if abort {
        PendAbort(e);
      } else if eventTbl[e].typ == S.Sem {
        var _ := SemPost(e);
        x := N.OnPost(e, S.NULL_MSG);
      } else if eventTbl[e].typ == S.Mbox && msg != S.NULL_MSG {
        var _ := MboxPost(e, msg);
        x := N.OnPost(e, msg);
      } else if eventTbl[e].typ == S.Queue {
        var _ := QPost(e, msg);
        x := N.OnPost(e, msg);
      } else {
        return xs;
      }
      N.NestedOn(k, xs, m, x, done);
      return xs + [x];
    }

    method NestedTask(ghost k: S.Kernel, ghost xs: seq<N.Section>, ghost done: set<S.Prio>, prio: nat)
      returns (ghost ys: seq<N.Section>)
      requires Valid() && N.Leads(k, xs, Abs()) && N.OnceEach(xs, done)
      modifies `tcbTbl, `rdyGrp, `rdyTbl
      ensures Valid() && N.Leads(k, ys, Abs()) && N.OnceEach(ys, done) && Abs().tasks.Keys == old(Abs().tasks.Keys)
    {
      hide Wf, Abs, N.Leads, N.OnceEach, S.Suspend, S.Resume;
      ghost var m, x := Abs(), N.OnSuspend(prio);
      var suspend: bool, err := *, S.ErrNone;
      if suspend && prio != S.PRIO_SELF {
        err := TaskSuspend(prio);
      } else {
        err := TaskResume(prio);
        x := N.OnResume(prio);
      }
      if err != S.ErrNone {
        return xs;
      }
      N.NestedOn(k, xs, m, x, done);
      return xs + [x];
    }

    /** OSTimeTick: however interrupts nest between its blocks, the scan ends, and among the sections that led from
        the old to the new state every task but the idle one is ticked exactly once. */
    method TimeTick() returns (ghost xs: seq<N.Section>)
      requires Valid()
      modifies `osTime, `tcbTbl, `eventTbl, `rdyGrp, `rdyTbl
      ensures osTime == (old(osTime) + 1) % 0x1_0000_0000
      ensures Valid() && N.Leads(old(Abs()), xs, Abs()) && N.OnceEach(xs, old(Abs().tasks.Keys) - {S.IDLE_PRIO})
    {
      hide Wf, Abs, Done, TaskInRange, S.TickTask, N.Leads, N.OnceEach;
      ghost var k := Abs();
      CountTick();
      ListFacts(0);
      N.NoSections(k);
      xs := [];
      if running {
        var ptcb := tcbList.value;
        ghost var n := 0;
        while tcbTbl[ptcb].prio != S.IDLE_PRIO
          invariant Scanned(k, xs, n) && ptcb == active[n] && ptcb < |tcbTbl|
          modifies `tcbTbl, `eventTbl, `rdyGrp, `rdyTbl
          decreases |active| - n
        {
          ListFacts(n);
          xs := ScanBlock(ptcb, k, xs, n);
          ListFacts(n);
          ptcb := tcbTbl[ptcb].next.value;
          n := n + 1;
        }
        ListFacts(n);
      }
    }

    /** The sections xs have led here since k, and among them is one tick of each task before block n. */
    ghost predicate Scanned(k: S.Kernel, xs: seq<N.Section>, n: nat)
      reads this
    {
      && Valid() && n < |active| && Abs().tasks.Keys == k.tasks.Keys
      && N.Leads(k, xs, Abs()) && N.OnceEach(xs, Done(n))
    }

    /** What nests before block n of the scan, and that block. */
    method ScanBlock(ptcb: nat, ghost k: S.Kernel, ghost xs: seq<N.Section>, ghost n: nat)
      returns (ghost ys: seq<N.Section>)
      requires Scanned(k, xs, n) && n < |active| - 1 && ptcb == active[n] && ptcb < |tcbTbl|
      modifies `tcbTbl, `eventTbl, `rdyGrp, `rdyTbl
      ensures Scanned(k, ys, n + 1)
    {
      hide Wf, Abs, Done, TaskInRange, S.TickTask, N.Leads, N.OnceEach;
      label nested:
      ys := Nested(k, xs, Done(n));
      DoneKept@nested(n);
      ListFacts(n);
      ghost var m, p, done := Abs(), tcbTbl[ptcb].prio, Done(n);
      label before:
      TickOne(ptcb);
      S.TickSetShape(m, {}, p);
      N.BlockOn(k, ys, m, p, done);
      ys := ys + [N.OnTick(p)];
      DoneKept@before(n + 1);
    }

    /** OSTime++ on 32 bits. */
    method CountTick()
      requires Valid()
      modifies `osTime
      ensures Valid() && Abs() == old(Abs()) && osTime == (old(osTime) + 1) % 0x1_0000_0000
    {
      hide WfTables, ValidMap, Members, AbsTasks, AbsEvents;
      osTime := (osTime + 1) % 0x1_0000_0000;
    }

    // ----- suspension and delays -----

    /** The priority a caller means. */
    function Target(prio: nat): nat
      reads `prioCur
    {
      if prio == S.PRIO_SELF then prioCur else prio
    }

    /** OSTaskSuspend's critical section.  The idle task does not suspend itself. */
    method TaskSuspend(prio: nat) returns (err: S.Err)
      requires Valid() && (prio == S.PRIO_SELF ==> prioCur != S.IDLE_PRIO)
      modifies `tcbTbl, `rdyGrp, `rdyTbl
      ensures Valid()
      ensures var k := old(Abs());
        && (err == S.ErrNone <==> Target(prio) < S.LOWEST_PRIO && Target(prio) in k.tasks)
        && Abs() == if err == S.ErrNone then S.Suspend(k, Target(prio)) else k
    {
      hide Wf, Abs, TaskInRange;
      if prio == S.IDLE_PRIO {
        return S.ErrSuspendIdle;
      }
      if prio >= S.LOWEST_PRIO {
        if prio != S.PRIO_SELF {
          return S.ErrPrioInvalid;
        }
      }
      var p := if prio == S.PRIO_SELF then prioCur else prio;
      NoTask(p);
      if prioTbl[p].None? {
        return S.ErrSuspendPrio;
      }
      TaskFacts(p);
      var i := prioTbl[p].value;
      MakeUnready(i);
      var t := tcbTbl[i].task;
      RangeKept(t, t.(stat := t.stat + {S.StSuspend}), |eventTbl|);
      SetTask(i, t.(stat := t.stat + {S.StSuspend}));
      return S.ErrNone;
    }

    /** OSTaskResume's critical section. */
    method TaskResume(prio: nat) returns (err: S.Err)
      requires Valid()
      modifies `tcbTbl, `rdyGrp, `rdyTbl
      ensures Valid()
      ensures var k := old(Abs());
        && (err == S.ErrNone <==> prio < S.LOWEST_PRIO && prio in k.tasks && S.StSuspend in k.tasks[prio].stat)
        && Abs() == if err == S.ErrNone then S.Resume(k, prio) else k
    {
      hide Wf, Abs, TaskInRange;
      if prio >= S.LOWEST_PRIO {
        return S.ErrPrioInvalid;
      }
      NoTask(prio);
      if prioTbl[prio].None? {
        return S.ErrTaskResume;
      }
      TaskFacts(prio);
      var i := prioTbl[prio].value;
      var t := tcbTbl[i].task;
      if S.StSuspend !in t.stat {
        return S.ErrNotSuspended;
      }
      t := t.(stat := t.stat - {S.StSuspend});
      RangeKept(tcbTbl[i].task, t, |eventTbl|);
      SetTask(i, t);
      if t.stat == {} && t.dly == 0 {
        MakeReady(i);
      }
      return S.ErrNone;
    }

    lemma NoTask(prio: nat)
      requires Wf() && |prioTbl| == S.LOWEST_PRIO + 1 && prio <= S.LOWEST_PRIO
      ensures prio in Abs().tasks <==> prioTbl[prio].Some?
    {
    }

    /** OSTimeDly's critical section. */
    method TimeDly(ticks: nat)
      requires Valid() && (prioCur != S.IDLE_PRIO || intNesting > 0)
      modifies `tcbTbl, `rdyGrp, `rdyTbl
      ensures Valid() && old(Abs().cur) in old(Abs().tasks) && Abs() == S.TimeDly(old(Abs()), ticks)
    {
      hide Wf, Abs, TaskInRange;
      CurFacts();
      if intNesting > 0 {
        return;
      }
      if ticks > 0 {
        MakeUnready(tcbCur);
        var t := tcbTbl[tcbCur].task;
        RangeKept(t, t.(dly := ticks), |eventTbl|);
        SetTask(tcbCur, t.(dly := ticks));
      }
    }

    // ----- the scheduler -----

    lemma TopReady()
      requires Wf() && S.IDLE_PRIO in Abs().ready
      ensures UnMap(rdyGrp) < |rdyTbl|
      ensures 8 * UnMap(rdyGrp) + UnMap(rdyTbl[UnMap(rdyGrp)]) == S.Min(Abs().ready)
      ensures PrioFacts(S.Min(Abs().ready))
    {
      hide Wf, Abs, UnMap, PrioFacts;
      ReadyShape();
      TopIsMin(rdyGrp, rdyTbl);
      TaskFacts(S.Min(Abs().ready));
    }

    lemma ReadyShape()
      requires Wf()
      ensures ValidMap(rdyGrp, rdyTbl) && Abs().ready == Members(rdyTbl) && Abs().ready <= Abs().tasks.Keys
    {
    }

    /** OS_SchedNew: two table look-ups find the most urgent ready priority. */
    method SchedNew()
      requires Wf() && S.IDLE_PRIO in Abs().ready
      modifies `prioHighRdy
      ensures Wf() && Abs() == old(Abs()) && prioHighRdy == S.Min(Abs().ready) && PrioFacts(prioHighRdy)
    {
      TopReady();
      var y := UnMap(rdyGrp);
      prioHighRdy := 8 * y + UnMap(rdyTbl[y]);
    }

    /** OS_TASK_SW or OSIntCtxSw: the new task's context is the current one. */
    method SwitchToHighRdy()
      requires Valid() && PrioFacts(prioHighRdy)
      modifies `prioCur, `tcbCur, `ctxSwCtr
      ensures Valid() && Abs() == old(Abs()).(cur := prioHighRdy)
    {
      hide WfTables, ValidMap, Members, AbsTasks, AbsEvents;
      ctxSwCtr := ctxSwCtr + 1;
      tcbCur := prioTbl[prioHighRdy].value;
      prioCur := prioHighRdy;
    }

    /** OS_Sched: with both nesting counters zero, the most urgent ready task becomes the current one. */
    method Sched()
      requires Valid()
      modifies `prioHighRdy, `prioCur, `tcbCur, `ctxSwCtr
      ensures Valid() && old(Abs().ready) != {} && Abs() == S.Sched(old(Abs()))
      ensures intNesting == 0 && lockNesting == 0 ==> S.IsMin(Abs().ready, prioCur)
    {
      hide Wf, PrioFacts;
      if intNesting == 0 {
        if lockNesting == 0 {
          SchedNew();
          if prioHighRdy != prioCur {
            SwitchToHighRdy();
          }
        }
      }
    }

    method IntEnter()
      requires Valid()
      modifies `intNesting
      ensures Valid() && Abs() == S.IntEnter(old(Abs()))
      ensures intNesting == old(intNesting) + if old(intNesting) < 255 then 1 else 0
    {
      hide WfTables, ValidMap, Members, AbsTasks, AbsEvents;
      if running {
        if intNesting < 255 {
          intNesting := intNesting + 1;
        }
      }
    }

    method IntExit()
      requires Valid()
      modifies `intNesting, `prioHighRdy, `prioCur, `tcbCur, `ctxSwCtr
      ensures Valid() && old(Abs().ready) != {} && Abs() == S.IntExit(old(Abs()))
      ensures intNesting == old(intNesting) - if old(intNesting) > 0 then 1 else 0
    {
      hide WfTables, ValidMap, Members, AbsTasks, AbsEvents, PrioFacts;
      if running {
        if intNesting > 0 {
          intNesting := intNesting - 1;
        }
        if intNesting == 0 {
          if lockNesting == 0 {
            SchedNew();
            if prioHighRdy != prioCur {
              SwitchToHighRdy();
            }
          }
        }
      }
    }

    method SchedLock()
      requires Valid()
      modifies `lockNesting
      ensures Valid() && Abs() == S.SchedLock(old(Abs()))
      ensures lockNesting == old(lockNesting) + if intNesting == 0 && old(lockNesting) < 255 then 1 else 0
    {
      hide WfTables, ValidMap, Members, AbsTasks, AbsEvents;
      if running {
        if intNesting == 0 {
          if lockNesting < 255 {
            lockNesting := lockNesting + 1;
          }
        }
      }
    }

    /** OSSchedUnlock with the call of OS_Sched it makes when the last lock goes outside an ISR. */
    method SchedUnlock()
      requires Valid()
      modifies `lockNesting, `prioHighRdy, `prioCur, `tcbCur, `ctxSwCtr
      ensures Valid() && old(Abs().ready) != {}
      ensures var k := S.SchedUnlock(old(Abs()));
        Abs() == if old(lockNesting) == 1 && intNesting == 0 then S.Sched(k) else k
      ensures lockNesting == old(lockNesting) - if old(lockNesting) > 0 then 1 else 0
    {
      hide WfTables, ValidMap, Members, AbsTasks, AbsEvents, PrioFacts;
      if running {
        if lockNesting > 0 {
          lockNesting := lockNesting - 1;
          if lockNesting == 0 {
            if intNesting == 0 {
              Sched();
            }
          }
        }
      }
    }
  }

  const CLEARED: Tcb := Tcb(0, None, None, 0, 0, 0, 0, S.FRESH_TASK)

  lemma FilledCoords(t: Tcb)
    requires t.prio <= S.LOWEST_PRIO && t.y == t.prio / 8 && t.x == t.prio % 8
    requires t.bitY == Mask(t.y) && t.bitX == Mask(t.x)
    ensures Coords(t)
  {
  }

  lemma RangeNone(t: S.Task, n: nat)
    requires t.eventPtr.None? && t.multi.None?
    ensures TaskInRange(t, n)
  {
  }

  lemma EmptyPass(events: seq<S.Event>)
    ensures S.TakeAll(events, []) == S.Taken(events, [], []) && S.Kinds(events, []) == {}
  {
  }

  lemma EcbTakeWaiters(ev: Ecb)
    requires ValidEcb(ev)
    ensures S.Units(AbsEvent(ev)) > 0 ==> S.TakeOne(AbsEvent(ev)).0.waiters == AbsEvent(ev).waiters
  {
  }

  lemma RangeKept(t: S.Task, t': S.Task, n: nat)
    requires TaskInRange(t, n) && t'.multi == t.multi && t'.eventPtr == t.eventPtr
    ensures TaskInRange(t', n) && forall e | 0 <= e < n :: TaskInRange(t'.(eventPtr := Some(e)), n)
    ensures t'.multi.Some? ==> forall x :: x in t'.multi.value ==> x < n
  {
  }

  ghost predicate TaskInRange(t: S.Task, n: nat) {
    && (t.eventPtr.Some? ==> t.eventPtr.value < n)
    && (t.multi.Some? ==> forall e :: e in t.multi.value ==> e < n)
  }
}
