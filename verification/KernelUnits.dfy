/** Where the units of an event go: every unit posted is handed out once, in order, or is still there. */
module KernelUnits {
  import opened Options
  import opened KernelSpec
  import opened KernelRuns
  import opened KernelTheorems
  import KP = KernelPoll

  /** The messages an event holds; a semaphore's units are null messages. */
  function Stock(ev: Event): seq<Msg> {
    match ev.typ
    case Sem => seq(ev.cnt, _ => NULL_MSG)
    case Mbox => if ev.box == NULL_MSG then [] else [ev.box]
    case Queue => ev.queue
    case _ => []
  }

  /** What label l adds to event e: the message of a post that somebody waits for, or that there is room for. */
  ghost function Accepted(s: Sys, l: Label, e: EvId): seq<Msg>
    requires e < |s.k.events|
  {
    var ev := s.k.events[e];
    if !l.LPost? || l.e != e || !Pendable(ev.typ) || (ev.typ == Mbox && l.msg == NULL_MSG) then []
    else if ev.waiters != {} || |Stock(ev)| < Room(ev) then [if ev.typ == Sem then NULL_MSG else l.msg]
    else []
  }

  function Room(ev: Event): nat {
    match ev.typ
    case Sem => 65535
    case Mbox => 1
    case Queue => ev.size
    case _ => 0
  }

  function EntriesOf(rdy: seq<EvId>, msgs: seq<Msg>, e: EvId): seq<Msg>
    requires |rdy| == |msgs|
  {
    if rdy == [] then []
    else
      EntriesOf(rdy[..|rdy| - 1], msgs[..|msgs| - 1], e)
      + if rdy[|rdy| - 1] == e then [msgs[|msgs| - 1]] else []
  }

  /** What label l hands out of event e: to the waiter a post reaches, to a semaphore pend that does not block, or as
      the entries a multi-event pend returns. */
  ghost function Given(s: Sys, l: Label, e: EvId): seq<Msg>
    requires Shape(s) && Enabled(s, l) && e < |s.k.events|
  {
    match l
    case LPost(_, _) => if s.k.events[e].waiters != {} then Accepted(s, l, e) else []
    case LSemPend(x, n) =>
      if x == e && !SemPend(s.k, x, n).blocked && SemPend(s.k, x, n).err == ErrNone then [NULL_MSG] else []
    case LPendMulti(evs, n) =>
      var r := PendMulti(s.k, evs, n);
      if |r.rdy| == |r.msgs| then EntriesOf(r.rdy, r.msgs, e) else []
    case _ => []
  }

  predicate NotInVain(ev: Event) {
    Pendable(ev.typ) && ev.waiters != {} ==> Stock(ev) == []
  }

  /** Nobody waits for an event that has something to give. */
  ghost predicate NoneInVain(k: Kernel) {
    forall e: nat | e < |k.events| :: NotInVain(k.events[e])
  }

  lemma StockIsUnits(ev: Event)
    ensures |Stock(ev)| == Units(ev)
  {
  }

  lemma TakeFirst(ev: Event)
    requires Units(ev) > 0
    ensures Stock(ev) == [TakeOne(ev).1] + Stock(TakeOne(ev).0)
    ensures TakeOne(ev).0.typ == ev.typ && TakeOne(ev).0.waiters == ev.waiters
  {
  }

  lemma EntriesNone(e: EvId)
    ensures EntriesOf([], [], e) == []
  {
  }

  lemma OneMore(rdy: seq<EvId>, msgs: seq<Msg>, x: EvId, m: Msg, e: EvId)
    requires |rdy| == |msgs|
    ensures EntriesOf(rdy + [x], msgs + [m], e) == EntriesOf(rdy, msgs, e) + if x == e then [m] else []
  {
    assert (rdy + [x])[..|rdy|] == rdy && (msgs + [m])[..|msgs|] == msgs;
  }

  /** The polling pass hands out of each event a first part of what it holds. */
  lemma {:induction false} PollGives(events: seq<Event>, evs: seq<EvId>, e: EvId)
    requires e < |events| && forall x :: x in evs ==> x < |events|
    ensures var r := TakeAll(events, evs);
      && EntriesOf(r.rdy, r.msgs, e) + Stock(r.events[e]) == Stock(events[e])
      && r.events[e].typ == events[e].typ && r.events[e].waiters == events[e].waiters
    decreases |evs|
  {
    hide Stock, EntriesOf;
    EntriesNone(e);
    if evs != [] {
      var init, x := evs[..|evs| - 1], evs[|evs| - 1];
      assert x in evs && forall y :: y in init ==> y in evs;
      PollGives(events, init, e);
      var r := TakeAll(events, init);
      if Units(r.events[x]) > 0 {
        var (ev, m) := TakeOne(r.events[x]);
        TakeFirst(r.events[x]);
        OneMore(r.rdy, r.msgs, x, m, e);
        if x == e {
          Regroup(EntriesOf(r.rdy, r.msgs, e), [m], Stock(ev), Stock(r.events[e]), Stock(events[e]), [], []);
        }
      }
    }
  }

  /** Nothing but waiters has gone. */
  ghost predicate Fewer(events: seq<Event>, events': seq<Event>) {
    && |events'| == |events|
    && forall e: nat | e < |events| ::
         events'[e].waiters <= events[e].waiters && events'[e] == events[e].(waiters := events'[e].waiters)
  }

  lemma FewerWait(k: Kernel, k': Kernel)
    requires Fewer(k.events, k'.events) && NoneInVain(k)
    ensures NoneInVain(k')
    ensures forall e: nat | e < |k.events| ::
      k'.events[e].typ == k.events[e].typ && Stock(k'.events[e]) == Stock(k.events[e])
  {
    forall e: nat | e < |k.events| ensures NotInVain(k'.events[e]) && Stock(k'.events[e]) == Stock(k.events[e]) {
      assert NotInVain(k.events[e]);
    }
  }

  lemma ReadyDrops(k: Kernel, e: EvId, msg: Msg, ps: PendStat)
    requires e < |k.events| && k.events[e].waiters != {} && k.events[e].waiters <= k.tasks.Keys
    ensures Fewer(k.events, EventTaskRdy(k, e, msg, {KindBit(k.events[e].typ)}, ps).events)
  {
  }

  /** A post that hands its message over. */
  lemma HandOverUnits(s: Sys, x: EvId, msg: Msg, e: EvId)
    requires Shape(s) && x < |s.k.events| && e < |s.k.events| && NoneInVain(s.k)
    requires var ev := s.k.events[x]; ev.waiters != {} && Pendable(ev.typ) && !(ev.typ == Mbox && msg == NULL_MSG)
    ensures var l := LPost(x, msg); var k' := Post(s.k, x, msg).0;
      && |k'.events| == |s.k.events| && k'.events[e].typ == s.k.events[e].typ
      && Given(s, l, e) + Stock(k'.events[e]) == Stock(s.k.events[e]) + Accepted(s, l, e)
      && NoneInVain(k')
  {
    hide EventTaskRdy, Stock;
    PostTasks(s.k, x, msg);
    ReadyDrops(s.k, x, if s.k.events[x].typ == Sem then NULL_MSG else msg, PendOk);
    FewerWait(s.k, Post(s.k, x, msg).0);
    assert NotInVain(s.k.events[e]);
  }

  /** A post to an event nobody waits for, or that is refused. */
  lemma DepositUnits(s: Sys, x: EvId, msg: Msg, e: EvId)
    requires Shape(s) && x < |s.k.events| && e < |s.k.events| && NoneInVain(s.k)
    requires var ev := s.k.events[x]; ev.waiters == {} || !Pendable(ev.typ) || (ev.typ == Mbox && msg == NULL_MSG)
    ensures var l := LPost(x, msg); var k' := Post(s.k, x, msg).0;
      && |k'.events| == |s.k.events| && k'.events[e].typ == s.k.events[e].typ
      && Given(s, l, e) + Stock(k'.events[e]) == Stock(s.k.events[e]) + Accepted(s, l, e)
      && NotInVain(k'.events[e])
  {
    assert NotInVain(s.k.events[e]);
  }

  lemma PostUnits(s: Sys, x: EvId, msg: Msg, e: EvId)
    requires Shape(s) && x < |s.k.events| && e < |s.k.events| && NoneInVain(s.k)
    ensures var l := LPost(x, msg); var k' := Post(s.k, x, msg).0;
      && |k'.events| == |s.k.events| && k'.events[e].typ == s.k.events[e].typ
      && Given(s, l, e) + Stock(k'.events[e]) == Stock(s.k.events[e]) + Accepted(s, l, e)
      && NoneInVain(k')
  {
    hide Post, Given, Stock, Accepted, NotInVain;
    var ev := s.k.events[x];
    if ev.waiters != {} && Pendable(ev.typ) && !(ev.typ == Mbox && msg == NULL_MSG) {
      HandOverUnits(s, x, msg, e);
    } else {
      DepositUnits(s, x, msg, e);
      forall y: nat | y < |s.k.events|
        ensures |Post(s.k, x, msg).0.events| == |s.k.events| && NotInVain(Post(s.k, x, msg).0.events[y])
      {
        DepositUnits(s, x, msg, y);
      }
    }
  }

  /** A post returns no error exactly if the event takes the message. */
  lemma PostSucceedsIffAccepted(s: Sys, e: EvId, msg: Msg)
    requires Shape(s) && e < |s.k.events|
    ensures Post(s.k, e, msg).1 == ErrNone <==> Accepted(s, LPost(e, msg), e) != []
  {
    StockIsUnits(s.k.events[e]);
  }

  lemma PendUnits(s: Sys, evs: seq<EvId>, n: nat, e: EvId)
    requires Shape(s) && Enabled(s, LPendMulti(evs, n)) && e < |s.k.events| && NoneInVain(s.k)
    ensures var l := LPendMulti(evs, n); var k' := PendMulti(s.k, evs, n).k;
      && |k'.events| == |s.k.events| && k'.events[e].typ == s.k.events[e].typ
      && Given(s, l, e) + Stock(k'.events[e]) == Stock(s.k.events[e])
      && NotInVain(k'.events[e])
  {
    hide TakeAll, EntriesOf, Stock;
    PollGives(s.k.events, evs, e);
    EntriesNone(e);
    KP.BlocksIffNothingAvailable(s.k.events, evs);
    StockIsUnits(s.k.events[e]);
    assert NotInVain(s.k.events[e]);
    BlockedStock(s.k, evs, n, e);
  }

  /** What a post gives out is what the most urgent waiter receives. */
  lemma GivenToTheWaiter(s: Sys, e: EvId, msg: Msg)
    requires Shape(s) && e < |s.k.events| && s.k.events[e].waiters != {}
    ensures var l := LPost(e, msg); var ws := Woken(s, l, Min(s.k.events[e].waiters));
      Given(s, l, e) == if ws == [] then [] else [ws[0].msg]
  {
  }

  lemma BlockedStock(k: Kernel, evs: seq<EvId>, n: nat, e: EvId)
    requires k.cur in k.tasks && InRange(k, evs) && e < |k.events|
    ensures var k' := BlockMulti(k, evs, n);
      && |k'.events| == |k.events| && k'.events[e].typ == k.events[e].typ && Stock(k'.events[e]) == Stock(k.events[e])
      && (e !in evs ==> k'.events[e] == k.events[e])
  {
  }

  lemma SemUnits(s: Sys, x: EvId, n: nat, e: EvId)
    requires Shape(s) && Enabled(s, LSemPend(x, n)) && e < |s.k.events| && NoneInVain(s.k)
    ensures var l := LSemPend(x, n); var k' := SemPend(s.k, x, n).k;
      && |k'.events| == |s.k.events| && k'.events[e].typ == s.k.events[e].typ
      && Given(s, l, e) + Stock(k'.events[e]) == Stock(s.k.events[e])
      && NotInVain(k'.events[e])
  {
  }

  lemma OtherUnits(s: Sys, l: Label)
    requires Shape(s) && Enabled(s, l) && !l.LPost? && !l.LPendMulti? && !l.LSemPend?
    ensures Fewer(s.k.events, Next(s, l).k.events)
  {
    match l
    case LAbort(e) =>
      hide EventTaskRdy;
      if s.k.events[e].waiters != {} {
        ReadyDrops(s.k, e, NULL_MSG, PendAbort);
      }
    case _ =>
  }

  lemma UnitsStep(s: Sys, l: Label, e: EvId)
    requires Shape(s) && Enabled(s, l) && NoneInVain(s.k) && e < |s.k.events|
    ensures var k' := Next(s, l).k;
      && |k'.events| == |s.k.events| && k'.events[e].typ == s.k.events[e].typ
      && Given(s, l, e) + Stock(k'.events[e]) == Stock(s.k.events[e]) + Accepted(s, l, e)
      && NoneInVain(k')
  {
    hide Stock, Post, PendMulti, SemPend, EntriesOf;
    match l
    case LPost(x, msg) => PostUnits(s, x, msg, e);
    case LPendMulti(evs, n) =>
      forall x: nat | x < |s.k.events|
        ensures |Next(s, l).k.events| == |s.k.events| && NotInVain(Next(s, l).k.events[x])
      {
        PendUnits(s, evs, n, x);
      }
      PendUnits(s, evs, n, e);
    case LSemPend(x, n) =>
      forall y: nat | y < |s.k.events|
        ensures |Next(s, l).k.events| == |s.k.events| && NotInVain(Next(s, l).k.events[y])
      {
        SemUnits(s, x, n, y);
      }
      SemUnits(s, x, n, e);
    case _ =>
      OtherUnits(s, l);
      FewerWait(s.k, Next(s, l).k);
  }

  ghost function AllAccepted(s: Sys, ls: seq<Label>, e: EvId): seq<Msg>
    requires Runs(s, ls)
    decreases |ls|
  {
    if ls == [] || e >= |s.k.events| then [] else Accepted(s, ls[0], e) + AllAccepted(Next(s, ls[0]), ls[1..], e)
  }

  ghost function AllGiven(s: Sys, ls: seq<Label>, e: EvId): seq<Msg>
    requires Runs(s, ls)
    decreases |ls|
  {
    if ls == [] || e >= |s.k.events| then [] else Given(s, ls[0], e) + AllGiven(Next(s, ls[0]), ls[1..], e)
  }

  /** In every run, what an event hands out followed by what it still holds is what it held followed by what was
      posted to it: no unit is lost, handed out twice or overtaken; and nobody waits for an event that has a unit. */
  lemma {:induction false} UnitsConserved(s: Sys, ls: seq<Label>, e: EvId)
    requires Runs(s, ls) && NoneInVain(s.k) && e < |s.k.events|
    ensures var k' := Exec(s, ls).k;
      && |k'.events| == |s.k.events| && NoneInVain(k')
      && AllGiven(s, ls, e) + Stock(k'.events[e]) == Stock(s.k.events[e]) + AllAccepted(s, ls, e)
    decreases |ls|
  {
    hide Accepted, Given, Next, Enabled, NoneInVain, Stock, Shape;
    if ls != [] {
      var s1 := Next(s, ls[0]);
      UnitsStep(s, ls[0], e);
      UnitsConserved(s1, ls[1..], e);
      Regroup(Given(s, ls[0], e), AllGiven(s1, ls[1..], e), Stock(Exec(s, ls).k.events[e]), Stock(s1.k.events[e]),
              Stock(s.k.events[e]), Accepted(s, ls[0], e), AllAccepted(s1, ls[1..], e));
    }
  }

  /** In every reachable state. */
  lemma NobodyWaitsInVain(s: Sys, ls: seq<Label>, e: EvId)
    requires Start(s) && Runs(s, ls) && e < |Exec(s, ls).k.events|
    ensures var ev := Exec(s, ls).k.events[e]; Pendable(ev.typ) && ev.waiters != {} ==> Units(ev) == 0
  {
    var k' := Exec(s, ls).k;
    EventsStay(s, ls);
    assert NoneInVain(s.k);
    UnitsConserved(s, ls, e);
    assert NotInVain(k'.events[e]);
    StockIsUnits(k'.events[e]);
  }

  lemma {:induction false} EventsStay(s: Sys, ls: seq<Label>)
    requires Runs(s, ls) && NoneInVain(s.k)
    ensures |Exec(s, ls).k.events| == |s.k.events|
    decreases |ls|
  {
    hide Next, Enabled, NotInVain, Shape;
    if ls != [] {
      if |s.k.events| > 0 {
        UnitsStep(s, ls[0], 0);
      } else {
        NoEvents(s, ls[0]);
      }
      EventsStay(Next(s, ls[0]), ls[1..]);
    }
  }

  lemma NoEvents(s: Sys, l: Label)
    requires Shape(s) && Enabled(s, l) && s.k.events == []
    ensures Next(s, l).k.events == []
  {
    if l.LPendMulti? {
      KP.PollReturnsAvailable(s.k.events, l.evs);
    }
  }

  lemma Regroup(g: seq<Msg>, gs: seq<Msg>, end: seq<Msg>, mid: seq<Msg>, start: seq<Msg>, a: seq<Msg>, as_: seq<Msg>)
    requires g + mid == start + a && gs + end == mid + as_
    ensures (g + gs) + end == start + (a + as_)
  {
    assert (g + gs) + end == g + (gs + end);
    assert g + (mid + as_) == (g + mid) + as_;
    assert (start + a) + as_ == start + (a + as_);
  }
}
