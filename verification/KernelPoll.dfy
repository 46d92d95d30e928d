/** What the polling pass of the multi-event pend hands out, stated without running it. */
module KernelPoll {
  import opened KernelSpec

  function Count(s: seq<EvId>, e: EvId): nat {
    if s == [] then 0 else Count(s[..|s| - 1], e) + (if s[|s| - 1] == e then 1 else 0)
  }

  /** ev after handing out n units. */
  function ConsumeN(ev: Event, n: nat): Event
    requires n <= Units(ev)
  {
    match ev.typ
    case Sem => ev.(cnt := ev.cnt - n)
    case Mbox => if n > 0 then ev.(box := NULL_MSG) else ev
    case Queue => ev.(queue := ev.queue[n..])
    case _ => ev
  }

  /** The message that goes with ev's n-th unit. */
  function UnitMsg(ev: Event, n: nat): Msg
    requires n < Units(ev)
  {
    match ev.typ
    case Sem => NULL_MSG
    case Mbox => ev.box
    case Queue => ev.queue[n]
  }

  /** An entry of the list is served exactly when the event still has a unit after its earlier entries. */
  predicate Served(events: seq<Event>, evs: seq<EvId>, i: nat)
    requires i < |evs| && evs[i] < |events|
  {
    Count(evs[..i], evs[i]) < Units(events[evs[i]])
  }

  function ServedEvents(events: seq<Event>, evs: seq<EvId>, n: nat): seq<EvId>
    requires n <= |evs| && forall e :: e in evs ==> e < |events|
  {
    if n == 0 then []
    else
      assert evs[n - 1] in evs;
      ServedEvents(events, evs, n - 1) + (if Served(events, evs, n - 1) then [evs[n - 1]] else [])
  }

  function ServedMsgs(events: seq<Event>, evs: seq<EvId>, n: nat): seq<Msg>
    requires n <= |evs| && forall e :: e in evs ==> e < |events|
  {
    if n == 0 then []
    else
      assert evs[n - 1] in evs;
      ServedMsgs(events, evs, n - 1)
      + (if Served(events, evs, n - 1) then [UnitMsg(events[evs[n - 1]], Count(evs[..n - 1], evs[n - 1]))] else [])
  }

  function AtMost(n: nat, bound: nat): nat {
    if n <= bound then n else bound
  }

  lemma {:induction false} CountAppend(s: seq<EvId>, x: EvId, e: EvId)
    ensures Count(s + [x], e) == Count(s, e) + (if x == e then 1 else 0)
  {
    assert (s + [x])[..|s|] == s;
  }

  lemma TakeIsConsume(ev: Event, n: nat)
    requires n < Units(ev)
    ensures Units(ConsumeN(ev, n)) == Units(ev) - n
    ensures TakeOne(ConsumeN(ev, n)) == (ConsumeN(ev, n + 1), UnitMsg(ev, n))
  {
  }

  lemma ConsumedUnits(ev: Event, n: nat)
    requires n <= Units(ev)
    ensures Units(ConsumeN(ev, n)) == Units(ev) - n
  {
  }

  /** events' is events with the units named in rdy taken, the first n entries of evs having been polled. */
  ghost predicate Polled(events: seq<Event>, evs: seq<EvId>, n: nat, r: Taken)
    requires n <= |evs|
  {
    && |r.events| == |events|
    && forall e: nat | e < |events| ::
         && Count(r.rdy, e) == AtMost(Count(evs[..n], e), Units(events[e]))
         && r.events[e] == ConsumeN(events[e], Count(r.rdy, e))
  }

  lemma PollStep(events: seq<Event>, evs: seq<EvId>, n: nat, r: Taken, r': Taken)
    requires n < |evs| && evs[n] < |events| && Polled(events, evs, n, r)
    requires var x := evs[n];
      r' == if Units(r.events[x]) > 0 then
              Taken(r.events[x := TakeOne(r.events[x]).0], r.rdy + [x], r.msgs + [TakeOne(r.events[x]).1])
            else r
    ensures Polled(events, evs, n + 1, r')
    ensures Count(evs[..n], evs[n]) < Units(events[evs[n]]) <==> Units(r.events[evs[n]]) > 0
    ensures Units(r.events[evs[n]]) > 0 ==>
              TakeOne(r.events[evs[n]]).1 == UnitMsg(events[evs[n]], Count(evs[..n], evs[n]))
  {
    var x := evs[n];
    var c := Count(r.rdy, x);
    ConsumedUnits(events[x], c);
    if c < Units(events[x]) {
      TakeIsConsume(events[x], c);
    }
    assert evs[..n + 1] == evs[..n] + [x];
    forall e: nat | e < |events|
      ensures Count(r'.rdy, e) == AtMost(Count(evs[..n + 1], e), Units(events[e]))
      ensures r'.events[e] == ConsumeN(events[e], Count(r'.rdy, e))
    {
      CountAppend(evs[..n], x, e);
      CountAppend(r.rdy, x, e);
    }
  }

  /** The invariant of the pass after the first n entries. */
  lemma {:induction false} PollPrefix(events: seq<Event>, evs: seq<EvId>, n: nat)
    requires n <= |evs| && forall e :: e in evs ==> e < |events|
    ensures forall e :: e in evs[..n] ==> e < |events|
    ensures var r := TakeAll(events, evs[..n]);
      r.rdy == ServedEvents(events, evs, n) && r.msgs == ServedMsgs(events, evs, n) && Polled(events, evs, n, r)
  {
    if n == 0 {
      forall e: nat | e < |events| ensures events[e] == ConsumeN(events[e], 0) {}
    } else {
      PollPrefix(events, evs, n - 1);
      assert evs[..n][..n - 1] == evs[..n - 1] && evs[..n][n - 1] == evs[n - 1];
      assert evs[n - 1] in evs;
      assert forall e :: e in evs[..n] ==> e in evs;
      PollStep(events, evs, n - 1, TakeAll(events, evs[..n - 1]), TakeAll(events, evs[..n]));
    }
  }

  /** The polling pass returns exactly the entries that can be served, in list order, each with its own
      unit's message at the same index, and each returned entry consumes one unit; every other event keeps
      all it has. */
  lemma PollReturnsAvailable(events: seq<Event>, evs: seq<EvId>)
    requires forall e :: e in evs ==> e < |events|
    ensures var r := TakeAll(events, evs);
      && r.rdy == ServedEvents(events, evs, |evs|) && r.msgs == ServedMsgs(events, evs, |evs|)
      && (forall e: nat | e < |events| ::
            && Count(r.rdy, e) == AtMost(Count(evs, e), Units(events[e]))
            && r.events[e] == ConsumeN(events[e], Count(r.rdy, e)))
  {
    PollPrefix(events, evs, |evs|);
    assert evs[..|evs|] == evs;
  }

  lemma {:induction false} CountPositive(s: seq<EvId>, e: EvId)
    ensures Count(s, e) > 0 <==> e in s
  {
    if s != [] {
      CountPositive(s[..|s| - 1], e);
      assert s == s[..|s| - 1] + [s[|s| - 1]];
    }
  }

  /** The pass comes back empty-handed, so that the task must block, exactly when no listed event has a
      unit. */
  lemma BlocksIffNothingAvailable(events: seq<Event>, evs: seq<EvId>)
    requires forall e :: e in evs ==> e < |events|
    ensures TakeAll(events, evs).rdy == [] <==> forall e :: e in evs ==> Units(events[e]) == 0
  {
    PollReturnsAvailable(events, evs);
    var rdy := TakeAll(events, evs).rdy;
    forall e | e in evs ensures rdy == [] ==> Units(events[e]) == 0 {
      CountPositive(evs, e);
    }
    if rdy != [] {
      var e := rdy[0];
      CountPositive(rdy, e);
      if e < |events| {
        CountPositive(evs, e);
        assert Units(events[e]) > 0;
      } else {
        ServedInRange(events, evs, |evs|, e);
      }
    }
  }

  lemma {:induction false} ServedInRange(events: seq<Event>, evs: seq<EvId>, n: nat, e: EvId)
    requires n <= |evs| && forall e :: e in evs ==> e < |events|
    requires e in ServedEvents(events, evs, n)
    ensures e in evs
  {
    if n > 0 && e in ServedEvents(events, evs, n - 1) {
      ServedInRange(events, evs, n - 1, e);
    }
  }

  /** Dropping (or adding) one more listed event extends the list by one entry. */
  lemma DropAllStep(events: seq<Event>, p: Prio, evs: seq<EvId>, n: nat)
    requires n < |evs| && evs[n] < |events|
    ensures |DropAll(events, p, evs[..n])| == |AddAll(events, p, evs[..n])| == |events|
    ensures var d := DropAll(events, p, evs[..n]);
      d[evs[n] := DropWaiter(d[evs[n]], p)] == DropAll(events, p, evs[..n + 1])
    ensures var a := AddAll(events, p, evs[..n]);
      a[evs[n] := AddWaiter(a[evs[n]], p)] == AddAll(events, p, evs[..n + 1])
  {
    assert evs[..n + 1] == evs[..n] + [evs[n]];
    var d := DropAll(events, p, evs[..n]);
    forall i | 0 <= i < |events| ensures DropWaiter(DropWaiter(events[i], p), p) == DropWaiter(events[i], p) {
      assert events[i].waiters - {p} - {p} == events[i].waiters - {p};
    }
    forall i | 0 <= i < |events| ensures AddWaiter(AddWaiter(events[i], p), p) == AddWaiter(events[i], p) {
      assert events[i].waiters + {p} + {p} == events[i].waiters + {p};
    }
    assert d[evs[n] := DropWaiter(d[evs[n]], p)] == DropAll(events, p, evs[..n + 1]);
    var a := AddAll(events, p, evs[..n]);
    assert a[evs[n] := AddWaiter(a[evs[n]], p)] == AddAll(events, p, evs[..n + 1]);
  }

  lemma DropAllNone(events: seq<Event>, p: Prio)
    ensures DropAll(events, p, []) == events && AddAll(events, p, []) == events
  {
  }

  ghost predicate AllIn(events: seq<Event>, evs: seq<EvId>) {
    forall e :: e in evs ==> e < |events|
  }

  /** The pass, one entry further. */
  lemma TakeAllStep(events: seq<Event>, evs: seq<EvId>, e: EvId)
    requires AllIn(events, evs) && e < |events|
    ensures AllIn(events, evs + [e])
    ensures var r := TakeAll(events, evs);
      TakeAll(events, evs + [e])
      == if Units(r.events[e]) > 0 then
           Taken(r.events[e := TakeOne(r.events[e]).0], r.rdy + [e], r.msgs + [TakeOne(r.events[e]).1])
         else r
  {
    assert (evs + [e])[..|evs|] == evs;
  }

  lemma KindsStep(events: seq<Event>, evs: seq<EvId>, e: EvId)
    requires AllIn(events, evs) && e < |events|
    ensures AllIn(events, evs + [e])
    ensures Kinds(events, evs + [e]) == Kinds(events, evs) + {KindBit(events[e].typ)}
  {
    var ks := Kinds(events, evs + [e]);
    assert (evs + [e])[|evs|] == e;
    forall b | b in Kinds(events, evs) ensures b in ks {
      var x :| x in evs && b == KindBit(events[x].typ);
      assert x in evs + [e];
    }
  }

  lemma {:induction false} TakeAllTypes(events: seq<Event>, evs: seq<EvId>)
    requires forall e :: e in evs ==> e < |events|
    ensures forall i: nat | i < |events| :: TakeAll(events, evs).events[i].typ == events[i].typ
    decreases |evs|
  {
    if evs != [] {
      var init := evs[..|evs| - 1];
      assert forall x :: x in init ==> x in evs;
      TakeAllTypes(events, init);
    }
  }

  lemma {:induction false} TakeNothing(events: seq<Event>, evs: seq<EvId>)
    requires forall e :: e in evs ==> e < |events|
    ensures TakeAll(events, evs).rdy == [] ==> TakeAll(events, evs).events == events
    decreases |evs|
  {
    if evs != [] {
      var init := evs[..|evs| - 1];
      assert forall x :: x in init ==> x in evs;
      TakeNothing(events, init);
    }
  }
}
