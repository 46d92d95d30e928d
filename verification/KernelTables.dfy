/** The kernel's static tables (OSTCBTbl, OSTCBPrioTbl, event control blocks) and what they stand for.
    A pointer into a table is an index. */
module KernelTables {
  import opened Options
  import opened Bits
  import opened PrioBitmap
  import opened KernelSpec

  /** A task control block: its links, its pre-computed bitmap coordinates, and the fields the services
      update. */
  datatype Tcb = Tcb(
    prio: nat, next: Option<nat>, prev: Option<nat>,
    x: nat, y: nat, bitX: bv8, bitY: bv8, task: Task)

  /** A queue control block over a circular buffer. */
  datatype QCb = QCb(buf: seq<Msg>, qin: nat, qout: nat, entries: nat)

  /** An event control block with its two-level wait list. */
  datatype Ecb = Ecb(typ: EventType, cnt: nat, ptr: Msg, q: QCb, grp: bv8, tbl: seq<bv8>)

  // ----- events -----

  /** A position past the end of a circular buffer of n cells, wrapped to its start. */
  function Wrap(a: nat, n: nat): nat {
    if a < n then a else a - n
  }

  ghost predicate ValidQ(q: QCb) {
    && q.entries <= |q.buf|
    && (|q.buf| > 0 ==> q.qin < |q.buf| && q.qout < |q.buf| && Wrap(q.qout + q.entries, |q.buf|) == q.qin)
  }

  /** The queued messages, oldest first. */
  ghost function Contents(q: QCb): seq<Msg>
    requires ValidQ(q)
  {
    seq(q.entries, i requires 0 <= i < q.entries => q.buf[Wrap(q.qout + i, |q.buf|)])
  }

  ghost predicate ValidEcb(ev: Ecb) {
    ValidMap(ev.grp, ev.tbl) && ValidQ(ev.q)
  }

  ghost function AbsEvent(ev: Ecb): Event
    requires ValidEcb(ev)
  {
    Event(ev.typ, ev.cnt, ev.ptr, Contents(ev.q), |ev.q.buf|, Members(ev.tbl))
  }

  ghost predicate ValidEcbs(evs: seq<Ecb>) {
    forall i | 0 <= i < |evs| :: ValidEcb(evs[i])
  }

  ghost function AbsEvents(evs: seq<Ecb>): seq<Event>
    requires ValidEcbs(evs)
  {
    seq(|evs|, i requires 0 <= i < |evs| => AbsEvent(evs[i]))
  }

  // ----- task control blocks -----

  /** The bitmap coordinates agree with the priority. */
  predicate Coords(t: Tcb) {
    && t.prio <= LOWEST_PRIO && t.y == t.prio / 8 && t.x == t.prio % 8
    && t.bitX == Mask(t.x) && t.bitY == Mask(t.y)
  }

  /** Setting a block's bits adds its priority to a bitmap. */
  lemma InsertTcb(grp: bv8, tbl: seq<bv8>, t: Tcb)
    requires ValidMap(grp, tbl) && Coords(t)
    ensures t.y < |tbl|
    ensures ValidMap(Or(grp, t.bitY), tbl[t.y := Or(tbl[t.y], t.bitX)])
    ensures Members(tbl[t.y := Or(tbl[t.y], t.bitX)]) == Members(tbl) + {t.prio}
  {
    InsertMember(grp, tbl, t.y, t.x, Or(grp, t.bitY), tbl[t.y := Or(tbl[t.y], t.bitX)]);
    assert 8 * t.y + t.x == t.prio;
  }

  /** Clearing a block's bits removes its priority. */
  lemma RemoveTcb(grp: bv8, tbl: seq<bv8>, t: Tcb)
    requires ValidMap(grp, tbl) && Coords(t)
    ensures t.y < |tbl|
    ensures var tbl' := tbl[t.y := AndNot(tbl[t.y], t.bitX)];
      && ValidMap(if tbl'[t.y] == 0 then AndNot(grp, t.bitY) else grp, tbl')
      && Members(tbl') == Members(tbl) - {t.prio}
  {
    var tbl' := tbl[t.y := AndNot(tbl[t.y], t.bitX)];
    RemoveMember(grp, tbl, t.y, t.x, if tbl'[t.y] == 0 then AndNot(grp, t.bitY) else grp, tbl');
    assert 8 * t.y + t.x == t.prio;
  }

  ghost predicate NoDup(s: seq<nat>) {
    forall i, j | 0 <= i < j < |s| :: s[i] != s[j]
  }

  function NextIn(s: seq<nat>, k: nat): Option<nat> {
    if k + 1 < |s| then Some(s[k + 1]) else None
  }

  function PrevIn(s: seq<nat>, k: nat): Option<nat> {
    if 0 < k <= |s| then Some(s[k - 1]) else None
  }

  /** Following next from head visits exactly s. */
  ghost predicate Linked(tcbs: seq<Tcb>, head: Option<nat>, s: seq<nat>) {
    && (forall k | 0 <= k < |s| :: s[k] < |tcbs|)
    && head == (if s == [] then None else Some(s[0]))
    && (forall k | 0 <= k < |s| :: tcbs[s[k]].next == NextIn(s, k))
  }

  ghost predicate BackLinked(tcbs: seq<Tcb>, s: seq<nat>) {
    && (forall k | 0 <= k < |s| :: s[k] < |tcbs|)
    && (forall k | 0 <= k < |s| :: tcbs[s[k]].prev == PrevIn(s, k))
  }

  /** The active list, the free list and the blocks held by tasks being created partition the table. */
  ghost predicate Lists(tcbs: seq<Tcb>, list: Option<nat>, freeList: Option<nat>, active: seq<nat>, held: set<nat>,
                        free: seq<nat>)
  {
    && |tcbs| == MAX_TCBS == |active| + |held| + |free|
    && Linked(tcbs, list, active) && BackLinked(tcbs, active) && Linked(tcbs, freeList, free)
    && NoDup(active + free) && forall i :: i in held ==> i < |tcbs| && i !in active && i !in free
  }

  /** The priority table names exactly the active blocks, each under its own priority. */
  ghost predicate PrioTable(tcbs: seq<Tcb>, prioTbl: seq<Option<nat>>, active: seq<nat>) {
    && |prioTbl| == LOWEST_PRIO + 1
    && (forall k | 0 <= k < |active| ::
          active[k] < |tcbs| && Coords(tcbs[active[k]]) && prioTbl[tcbs[active[k]].prio] == Some(active[k]))
    && (forall p: nat | p <= LOWEST_PRIO && prioTbl[p].Some? ::
          prioTbl[p].value in active && prioTbl[p].value < |tcbs| && tcbs[prioTbl[p].value].prio == p)
  }

  ghost function AbsTasks(tcbs: seq<Tcb>, prioTbl: seq<Option<nat>>): map<Prio, Task>
    requires |prioTbl| == LOWEST_PRIO + 1
    requires forall p: nat | p <= LOWEST_PRIO && prioTbl[p].Some? :: prioTbl[p].value < |tcbs|
  {
    map p: nat | p <= LOWEST_PRIO && prioTbl[p].Some? :: tcbs[prioTbl[p].value].task
  }

  /** Writing one block's service fields writes one task. */
  lemma UpdateTask(tcbs: seq<Tcb>, prioTbl: seq<Option<nat>>, active: seq<nat>, i: nat, t: Task)
    requires PrioTable(tcbs, prioTbl, active) && i in active && i < |tcbs|
    ensures var tcbs' := tcbs[i := tcbs[i].(task := t)];
      && PrioTable(tcbs', prioTbl, active)
      && AbsTasks(tcbs', prioTbl) == AbsTasks(tcbs, prioTbl)[tcbs[i].prio := t]
  {
    var k :| 0 <= k < |active| && active[k] == i;
    var tcbs' := tcbs[i := tcbs[i].(task := t)];
    forall p: nat | p <= LOWEST_PRIO && prioTbl[p].Some?
      ensures tcbs'[prioTbl[p].value].task == if p == tcbs[i].prio then t else tcbs[prioTbl[p].value].task
    {
    }
  }

  /** Only links matter to the lists. */
  lemma UpdateKeepsLists(tcbs: seq<Tcb>, tcbs': seq<Tcb>, list: Option<nat>, freeList: Option<nat>, active: seq<nat>,
                         held: set<nat>, free: seq<nat>)
    requires Lists(tcbs, list, freeList, active, held, free) && |tcbs'| == |tcbs|
    requires forall j | 0 <= j < |tcbs| :: tcbs'[j].next == tcbs[j].next && tcbs'[j].prev == tcbs[j].prev
    ensures Lists(tcbs', list, freeList, active, held, free)
  {
  }

  /** As many tasks as active blocks. */
  lemma TaskCount(tcbs: seq<Tcb>, prioTbl: seq<Option<nat>>, active: seq<nat>)
    requires PrioTable(tcbs, prioTbl, active) && NoDup(active)
    ensures |AbsTasks(tcbs, prioTbl)| == |active|
  {
    var ps := seq(|active|, k requires 0 <= k < |active| => tcbs[active[k]].prio);
    forall i, j | 0 <= i < j < |ps| ensures ps[i] != ps[j] {
      assert prioTbl[ps[i]] == Some(active[i]) && prioTbl[ps[j]] == Some(active[j]);
    }
    DistinctCount(ps);
    var keys := Elems(ps);
    forall p ensures p in keys <==> p in AbsTasks(tcbs, prioTbl) {
      if p in keys {
        var k :| 0 <= k < |ps| && ps[k] == p;
      }
      if p in AbsTasks(tcbs, prioTbl) {
        var k :| 0 <= k < |active| && active[k] == prioTbl[p].value;
        assert ps[k] == p;
      }
    }
    assert keys == AbsTasks(tcbs, prioTbl).Keys;
  }

  ghost function Elems(s: seq<nat>): set<nat> {
    set p | p in s
  }

  lemma {:induction false} DistinctCount(s: seq<nat>)
    requires NoDup(s)
    ensures |Elems(s)| == |s|
  {
    if s != [] {
      var r, x := s[..|s| - 1], s[|s| - 1];
      DistinctCount(r);
      assert s == r + [x];
      assert Elems(s) == Elems(r) + {x};
      assert x !in r;
    }
  }

  /** An event control block after t has been put on its wait list. */
  function EcbAdd(ev: Ecb, t: Tcb): Ecb
    requires t.y < |ev.tbl|
  {
    ev.(tbl := ev.tbl[t.y := Or(ev.tbl[t.y], t.bitX)], grp := Or(ev.grp, t.bitY))
  }

  /** An event control block after t has been taken off its wait list. */
  function EcbDrop(ev: Ecb, t: Tcb): Ecb
    requires t.y < |ev.tbl|
  {
    var tbl := ev.tbl[t.y := AndNot(ev.tbl[t.y], t.bitX)];
    ev.(tbl := tbl, grp := if tbl[t.y] == 0 then AndNot(ev.grp, t.bitY) else ev.grp)
  }

  lemma EcbAddAbs(ev: Ecb, t: Tcb)
    requires ValidEcb(ev) && Coords(t)
    ensures t.y < |ev.tbl| && ValidEcb(EcbAdd(ev, t))
    ensures AbsEvent(EcbAdd(ev, t)) == AddWaiter(AbsEvent(ev), t.prio)
  {
    InsertTcb(ev.grp, ev.tbl, t);
  }

  lemma EcbDropAbs(ev: Ecb, t: Tcb)
    requires ValidEcb(ev) && Coords(t)
    ensures t.y < |ev.tbl| && ValidEcb(EcbDrop(ev, t))
    ensures AbsEvent(EcbDrop(ev, t)) == DropWaiter(AbsEvent(ev), t.prio)
  {
    RemoveTcb(ev.grp, ev.tbl, t);
  }

  lemma UpdateEcb(evs: seq<Ecb>, e: nat, ev: Ecb)
    requires ValidEcbs(evs) && e < |evs| && ValidEcb(ev)
    ensures ValidEcbs(evs[e := ev]) && AbsEvents(evs[e := ev]) == AbsEvents(evs)[e := AbsEvent(ev)]
  {
  }

  /** The wait list's two look-ups name its most urgent member. */
  lemma TopPrio(ev: Ecb)
    requires ValidEcb(ev) && ev.grp != 0
    ensures UnMap(ev.grp) < |ev.tbl| && AbsEvent(ev).waiters != {}
    ensures 8 * UnMap(ev.grp) + UnMap(ev.tbl[UnMap(ev.grp)]) == Min(AbsEvent(ev).waiters)
  {
    GroupZeroIffEmpty(ev.grp, ev.tbl);
    TopIsMin(ev.grp, ev.tbl);
  }

  /** Changing what an event holds leaves its wait list alone. */
  lemma EcbFields(ev: Ecb, cnt: nat, ptr: Msg)
    requires ValidEcb(ev)
    ensures ValidEcb(ev.(cnt := cnt, ptr := ptr))
    ensures AbsEvent(ev.(cnt := cnt, ptr := ptr)) == AbsEvent(ev).(cnt := cnt, box := ptr)
  {
  }

  /** Queue control block after a message went in. */
  function QPut(q: QCb, msg: Msg): QCb
    requires q.qin < |q.buf|
  {
    q.(buf := q.buf[q.qin := msg], qin := if q.qin + 1 == |q.buf| then 0 else q.qin + 1, entries := q.entries + 1)
  }

  lemma QPutAppends(q: QCb, msg: Msg)
    requires ValidQ(q) && q.entries < |q.buf|
    ensures q.qin < |q.buf| && ValidQ(QPut(q, msg)) && Contents(QPut(q, msg)) == Contents(q) + [msg]
  {
    var q' := QPut(q, msg);
    forall i: nat | i <= q.entries ensures Contents(q')[i] == (Contents(q) + [msg])[i] {
      assert i < q.entries ==> Wrap(q.qout + i, |q.buf|) != q.qin;
    }
    assert Contents(q') == Contents(q) + [msg];
  }

  lemma EcbQueue(ev: Ecb, msg: Msg)
    requires ValidEcb(ev)
    ensures AbsEvent(ev).size == |ev.q.buf| && |AbsEvent(ev).queue| == ev.q.entries
    ensures ev.q.entries < |ev.q.buf| ==>
      && ev.q.qin < |ev.q.buf| && ValidEcb(ev.(q := QPut(ev.q, msg)))
      && AbsEvent(ev.(q := QPut(ev.q, msg))) == AbsEvent(ev).(queue := AbsEvent(ev).queue + [msg])
  {
    if ev.q.entries < |ev.q.buf| {
      QPutAppends(ev.q, msg);
    }
  }

  /** Queue control block after its oldest message was taken out. */
  function QTake(q: QCb): QCb
    requires q.entries > 0
  {
    q.(qout := if q.qout + 1 == |q.buf| then 0 else q.qout + 1, entries := q.entries - 1)
  }

  lemma QTakeDropsFront(q: QCb)
    requires ValidQ(q) && q.entries > 0
    ensures q.qout < |q.buf| && ValidQ(QTake(q))
    ensures Contents(q) == [q.buf[q.qout]] + Contents(QTake(q))
  {
    var q' := QTake(q);
    var c := [q.buf[q.qout]] + Contents(q');
    forall i: nat | i < q.entries ensures Contents(q)[i] == c[i] {
      if i > 0 {
        assert Wrap(q.qout + i, |q.buf|) == Wrap(q'.qout + (i - 1), |q.buf|);
        assert c[i] == Contents(q')[i - 1] == q.buf[Wrap(q.qout + i, |q.buf|)];
      } else {
        assert c[0] == q.buf[q.qout] && Wrap(q.qout + 0, |q.buf|) == q.qout;
      }
    }
    assert |Contents(q)| == |c|;
  }

  predicate HasUnit(ev: Ecb) {
    match ev.typ
    case Sem => ev.cnt > 0
    case Mbox => ev.ptr != NULL_MSG
    case Queue => ev.q.entries > 0
    case _ => false
  }

  /** An event control block after one unit was taken, and the message that came with it. */
  function EcbTake(ev: Ecb): (Ecb, Msg)
    requires HasUnit(ev) && (ev.typ == Queue ==> ev.q.qout < |ev.q.buf|)
  {
    match ev.typ
    case Sem => (ev.(cnt := ev.cnt - 1), NULL_MSG)
    case Mbox => (ev.(ptr := NULL_MSG), ev.ptr)
    case Queue => (ev.(q := QTake(ev.q)), ev.q.buf[ev.q.qout])
  }

  lemma EcbTakeAbs(ev: Ecb)
    requires ValidEcb(ev)
    ensures Units(AbsEvent(ev)) > 0 <==> HasUnit(ev)
    ensures ev.typ == Queue && ev.q.entries > 0 ==> ev.q.qout < |ev.q.buf|
    ensures Units(AbsEvent(ev)) > 0 ==>
      ValidEcb(EcbTake(ev).0) && TakeOne(AbsEvent(ev)) == (AbsEvent(EcbTake(ev).0), EcbTake(ev).1)
  {
    if ev.typ == Queue && ev.q.entries > 0 {
      QTakeDropsFront(ev.q);
      assert Contents(ev.q)[1..] == Contents(QTake(ev.q));
    }
  }

  /** The priorities of the first n active blocks. */
  ghost function DonePrios(tcbs: seq<Tcb>, active: seq<nat>, n: nat): set<nat>
    requires n <= |active| && forall k | 0 <= k < |active| :: active[k] < |tcbs|
  {
    set k | 0 <= k < n :: tcbs[active[k]].prio
  }

  lemma DoneStep(tcbs: seq<Tcb>, prioTbl: seq<Option<nat>>, active: seq<nat>, n: nat)
    requires PrioTable(tcbs, prioTbl, active) && NoDup(active) && n < |active|
    ensures var p := tcbs[active[n]].prio;
      DonePrios(tcbs, active, n + 1) == DonePrios(tcbs, active, n) + {p} && p !in DonePrios(tcbs, active, n)
  {
    var p := tcbs[active[n]].prio;
    forall k | 0 <= k < n ensures tcbs[active[k]].prio != p {
      assert prioTbl[tcbs[active[k]].prio] == Some(active[k]) && prioTbl[p] == Some(active[n]);
    }
  }

  lemma DoneAll(tcbs: seq<Tcb>, prioTbl: seq<Option<nat>>, active: seq<nat>)
    requires PrioTable(tcbs, prioTbl, active) && NoDup(active) && active != []
    requires tcbs[active[|active| - 1]].prio == IDLE_PRIO
    ensures DonePrios(tcbs, active, |active| - 1) == AbsTasks(tcbs, prioTbl).Keys - {IDLE_PRIO}
  {
    DoneStep(tcbs, prioTbl, active, |active| - 1);
    var done := DonePrios(tcbs, active, |active|);
    forall p ensures p in done <==> p in AbsTasks(tcbs, prioTbl) {
      if p in AbsTasks(tcbs, prioTbl) {
        var k :| 0 <= k < |active| && active[k] == prioTbl[p].value;
        assert tcbs[active[k]].prio == p;
      }
    }
    assert done == AbsTasks(tcbs, prioTbl).Keys;
  }

  /** From an active block that is not the last one, next leads to the following one; only the last one has
      the idle priority. */
  lemma NextActive(tcbs: seq<Tcb>, list: Option<nat>, prioTbl: seq<Option<nat>>, active: seq<nat>, n: nat)
    requires PrioTable(tcbs, prioTbl, active) && Linked(tcbs, list, active) && NoDup(active) && n < |active|
    requires prioTbl[IDLE_PRIO] == Some(active[|active| - 1])
    ensures tcbs[active[n]].prio == IDLE_PRIO <==> n == |active| - 1
    ensures n < |active| - 1 ==> tcbs[active[n]].next == Some(active[n + 1])
  {
    assert prioTbl[tcbs[active[n]].prio] == Some(active[n]);
    assert tcbs[active[n]].next == NextIn(active, n);
  }

  /** Taking the first free block for a task being created keeps the partition. */
  lemma ReserveKeepsLists(tcbs: seq<Tcb>, list: Option<nat>, freeList: Option<nat>, active: seq<nat>, held: set<nat>,
                          free: seq<nat>)
    requires Lists(tcbs, list, freeList, active, held, free) && free != []
    ensures freeList == Some(free[0]) && free[0] < |tcbs| && free[0] !in held
    ensures Lists(tcbs, list, tcbs[free[0]].next, active, held + {free[0]}, free[1..])
  {
    hide NoDup;
    AllocateRest(tcbs, tcbs, freeList, free);
    FirstFree(active, free);
    assert tcbs[free[0]].next == NextIn(free, 0);
    forall i | i in held + {free[0]} ensures i < |tcbs| && i !in active && i !in free[1..] {
      if i != free[0] {
        assert i in held && forall k | 0 <= k < |free[1..]| :: free[1..][k] in free;
      }
    }
  }

  lemma FirstFree(active: seq<nat>, free: seq<nat>)
    requires NoDup(active + free) && free != []
    ensures NoDup(active + free[1..]) && free[0] !in active && free[0] !in free[1..]
  {
    var all := active + free;
    assert active + free[1..] == all[..|active|] + all[|active| + 1..];
    forall k | 0 <= k < |active| ensures active[k] != free[0] {
      assert all[k] == active[k] && all[|active|] == free[0];
    }
    forall k | 0 < k < |free| ensures free[k] != free[0] {
      assert all[|active| + k] == free[k] && all[|active|] == free[0];
    }
    NoDupWithout(all, |active|);
  }

  lemma NoDupWithout(s: seq<nat>, i: nat)
    requires NoDup(s) && i < |s|
    ensures NoDup(s[..i] + s[i + 1..])
  {
  }

  /** Linking a held block in front of the active list keeps the partition. */
  lemma EnterKeepsLists(tcbs: seq<Tcb>, tcbs': seq<Tcb>, list: Option<nat>, freeList: Option<nat>, active: seq<nat>,
                        held: set<nat>, free: seq<nat>, i: nat)
    requires Lists(tcbs, list, freeList, active, held, free) && i in held
    requires |tcbs'| == |tcbs| && tcbs'[i].next == list && tcbs'[i].prev == None
    requires forall j | 0 <= j < |tcbs| && j != i ::
      tcbs'[j].next == tcbs[j].next && tcbs'[j].prev == (if list == Some(j) then Some(i) else tcbs[j].prev)
    ensures Lists(tcbs', Some(i), freeList, [i] + active, held - {i}, free)
  {
    var all := active + free;
    assert active == all[..|active|];
    AllocateLinks(tcbs, tcbs', list, active, i);
    forall k | 0 <= k < |free| ensures free[k] != i && tcbs'[free[k]].next == tcbs[free[k]].next {
      assert free[k] in free;
    }
    FrontNoDup(active, free, i);
  }

  lemma FrontNoDup(active: seq<nat>, free: seq<nat>, i: nat)
    requires NoDup(active + free) && i !in active && i !in free
    ensures NoDup([i] + active + free)
  {
    assert [i] + active + free == [i] + (active + free);
  }

  lemma AllocateRest(tcbs: seq<Tcb>, tcbs': seq<Tcb>, freeList: Option<nat>, free: seq<nat>)
    requires Linked(tcbs, freeList, free) && free != [] && |tcbs| == |tcbs'|
    requires forall k | 0 < k < |free| :: tcbs'[free[k]].next == tcbs[free[k]].next
    ensures Linked(tcbs', tcbs[free[0]].next, free[1..])
  {
    var rest := free[1..];
    forall k | 0 <= k < |rest| ensures tcbs'[rest[k]].next == NextIn(rest, k) {
      assert rest[k] == free[k + 1];
      assert tcbs[free[k + 1]].next == NextIn(free, k + 1);
    }
    assert tcbs[free[0]].next == NextIn(free, 0);
  }

  lemma AllocateLinks(tcbs: seq<Tcb>, tcbs': seq<Tcb>, list: Option<nat>, active: seq<nat>, i: nat)
    requires Linked(tcbs, list, active) && BackLinked(tcbs, active) && i < |tcbs| == |tcbs'|
    requires NoDup(active) && forall k | 0 <= k < |active| :: active[k] != i
    requires tcbs'[i].next == list && tcbs'[i].prev == None
    requires forall j | 0 <= j < |tcbs| && j != i ::
      tcbs'[j].next == tcbs[j].next && tcbs'[j].prev == (if list == Some(j) then Some(i) else tcbs[j].prev)
    ensures Linked(tcbs', Some(i), [i] + active) && BackLinked(tcbs', [i] + active)
  {
    var s := [i] + active;
    forall k | 0 <= k < |s|
      ensures tcbs'[s[k]].next == NextIn(s, k) && tcbs'[s[k]].prev == PrevIn(s, k)
    {
      if k > 0 {
        var j := active[k - 1];
        assert s[k] == j && j != i && (k < |active| ==> s[k + 1] == active[k]);
        assert tcbs'[j].next == tcbs[j].next == NextIn(active, k - 1);
        assert tcbs[j].prev == PrevIn(active, k - 1);
        assert k > 1 ==> s[k - 1] == active[k - 2] && active[0] != active[k - 1];
      } else {
        assert active != [] ==> s[1] == active[0];
      }
    }
  }

  /** Filling a block that is not active touches no task. */
  lemma FillKeepsPrios(tcbs: seq<Tcb>, prioTbl: seq<Option<nat>>, active: seq<nat>, i: nat, t: Tcb)
    requires PrioTable(tcbs, prioTbl, active) && i < |tcbs| && i !in active
    ensures PrioTable(tcbs[i := t], prioTbl, active) && AbsTasks(tcbs[i := t], prioTbl) == AbsTasks(tcbs, prioTbl)
  {
    forall k | 0 <= k < |active| ensures active[k] != i {
      assert active[k] in active;
    }
    forall q: nat | q <= LOWEST_PRIO && prioTbl[q].Some?
      ensures tcbs[i := t][prioTbl[q].value] == tcbs[prioTbl[q].value]
    {
      assert prioTbl[q].value in active;
    }
  }

  /** A freshly filled block, entered in the priority table under an unused priority. */
  lemma AllocateKeepsPrios(tcbs: seq<Tcb>, tcbs': seq<Tcb>, prioTbl: seq<Option<nat>>, active: seq<nat>, i: nat, p: nat)
    requires PrioTable(tcbs, prioTbl, active) && i < |tcbs| == |tcbs'| && i !in active
    requires p <= LOWEST_PRIO && prioTbl[p].None? && Coords(tcbs'[i]) && tcbs'[i].prio == p
    requires forall j | 0 <= j < |tcbs| && j != i :: tcbs'[j].(prev := tcbs[j].prev) == tcbs[j]
    ensures PrioTable(tcbs', prioTbl[p := Some(i)], [i] + active)
    ensures AbsTasks(tcbs', prioTbl[p := Some(i)]) == AbsTasks(tcbs, prioTbl)[p := tcbs'[i].task]
  {
    var s := [i] + active;
    forall k | 0 <= k < |s|
      ensures s[k] < |tcbs'| && Coords(tcbs'[s[k]]) && prioTbl[p := Some(i)][tcbs'[s[k]].prio] == Some(s[k])
    {
      if k > 0 {
        assert s[k] == active[k - 1];
      }
    }
    forall q: nat | q <= LOWEST_PRIO && prioTbl[q].Some?
      ensures tcbs'[prioTbl[q].value].task == tcbs[prioTbl[q].value].task
    {
      assert prioTbl[q].value in active;
    }
  }

  /** The indices 0 to n - 1 in order. */
  function Iota(n: nat): (s: seq<nat>)
    ensures |s| == n && forall k | 0 <= k < n :: s[k] == k
  {
    seq(n, k requires 0 <= k < n => k)
  }

  /** A table chained in index order is one free list and no active one. */
  lemma FreshLists(tcbs: seq<Tcb>)
    requires |tcbs| == MAX_TCBS
    requires forall j | 0 <= j < MAX_TCBS :: tcbs[j].next == if j + 1 < MAX_TCBS then Some(j + 1) else None
    ensures Lists(tcbs, None, Some(0), [], {}, Iota(MAX_TCBS))
  {
    assert [] + Iota(MAX_TCBS) == Iota(MAX_TCBS);
  }

  lemma FreshPrios(tcbs: seq<Tcb>, prioTbl: seq<Option<nat>>)
    requires |prioTbl| == LOWEST_PRIO + 1 && forall p | 0 <= p < |prioTbl| :: prioTbl[p] == None
    ensures PrioTable(tcbs, prioTbl, []) && AbsTasks(tcbs, prioTbl) == map[]
  {
  }
}
