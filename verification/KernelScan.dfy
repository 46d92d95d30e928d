/** What can happen to the kernel between two blocks of the clock tick's scan, where the code lets interrupts in. */
module KernelScan {
  import opened KernelSpec

  /** One critical section: of the scan itself, or of a nested interrupt. */
  datatype Section =
    | OnTick(p: Prio) | OnPost(e: EvId, msg: Msg) | OnAbort(e: EvId) | OnSuspend(p: Prio) | OnResume(p: Prio)

  ghost predicate Can(k: Kernel, x: Section) {
    match x
    case OnTick(p) => p in k.tasks
    case OnPost(e, _) => e < |k.events| && k.events[e].waiters <= k.tasks.Keys
    case OnAbort(e) => e < |k.events| && k.events[e].waiters <= k.tasks.Keys
    case OnSuspend(p) => p in k.tasks
    case OnResume(p) => p in k.tasks
  }

  ghost function Do(k: Kernel, x: Section): Kernel
    requires Can(k, x)
  {
    match x
    case OnTick(p) => TickTask(k, p)
    case OnPost(e, msg) => Post(k, e, msg).0
    case OnAbort(e) => Abort(k, e)
    case OnSuspend(p) => Suspend(k, p)
    case OnResume(p) => Resume(k, p)
  }

  lemma DoKeepsTasks(k: Kernel, x: Section)
    requires Can(k, x)
    ensures Do(k, x).tasks.Keys == k.tasks.Keys
  {
  }

  /** k' is what the sections, one after the other, make of k. */
  ghost predicate Leads(k: Kernel, xs: seq<Section>, k': Kernel)
    decreases |xs|
  {
    if xs == [] then k' == k
    else
      var init, x := xs[..|xs| - 1], xs[|xs| - 1];
      exists m :: Leads(k, init, m) && Can(m, x) && k' == Do(m, x)
  }

  lemma LeadsOn(k: Kernel, xs: seq<Section>, m: Kernel, x: Section)
    requires Leads(k, xs, m) && Can(m, x)
    ensures Leads(k, xs + [x], Do(m, x))
  {
    assert (xs + [x])[..|xs|] == xs;
  }

  /** The tasks the scan has ticked, in order. */
  function Ticked(xs: seq<Section>): seq<Prio> {
    if xs == [] then []
    else Ticked(xs[..|xs| - 1]) + if xs[|xs| - 1].OnTick? then [xs[|xs| - 1].p] else []
  }

  lemma TickedOn(xs: seq<Section>, x: Section)
    ensures Ticked(xs + [x]) == Ticked(xs) + if x.OnTick? then [x.p] else []
  {
    assert (xs + [x])[..|xs|] == xs;
  }

  /** The tasks in done, each ticked exactly once. */
  ghost predicate OnceEach(xs: seq<Section>, done: set<Prio>) {
    multiset(Ticked(xs)) == multiset(done)
  }

  lemma OnceMore(xs: seq<Section>, done: set<Prio>, p: Prio)
    requires OnceEach(xs, done) && p !in done
    ensures OnceEach(xs + [OnTick(p)], done + {p})
  {
    TickedOn(xs, OnTick(p));
    assert multiset(done + {p}) == multiset(done) + multiset{p};
  }

  lemma NotTicked(xs: seq<Section>, done: set<Prio>, x: Section)
    requires OnceEach(xs, done) && !x.OnTick?
    ensures OnceEach(xs + [x], done)
  {
    TickedOn(xs, x);
    assert Ticked(xs) + [] == Ticked(xs);
  }

  lemma OnceLess(xs: seq<Section>, p: Prio, done: set<Prio>)
    requires OnceEach(xs + [OnTick(p)], done)
    ensures p in done && OnceEach(xs, done - {p})
  {
    TickedOn(xs, OnTick(p));
    var ts := Ticked(xs);
    assert multiset(ts + [p]) == multiset(ts) + multiset{p};
    assert p in multiset(done);
    var rest := done - {p};
    assert done == rest + {p};
    assert multiset(rest + {p}) == multiset(rest) + multiset{p};
    assert multiset(ts) == multiset(ts) + multiset{p} - multiset{p};
    assert multiset(rest) == multiset(rest) + multiset{p} - multiset{p};
  }

  /** A nested section joins the account. */
  lemma NestedOn(k: Kernel, xs: seq<Section>, m: Kernel, x: Section, done: set<Prio>)
    requires Leads(k, xs, m) && Can(m, x) && OnceEach(xs, done) && !x.OnTick?
    ensures Leads(k, xs + [x], Do(m, x)) && OnceEach(xs + [x], done) && Do(m, x).tasks.Keys == m.tasks.Keys
  {
    LeadsOn(k, xs, m, x);
    NotTicked(xs, done, x);
    DoKeepsTasks(m, x);
  }

  /** And so does the scan's next block. */
  lemma BlockOn(k: Kernel, xs: seq<Section>, m: Kernel, p: Prio, done: set<Prio>)
    requires Leads(k, xs, m) && p in m.tasks && OnceEach(xs, done) && p !in done
    ensures Leads(k, xs + [OnTick(p)], TickTask(m, p)) && OnceEach(xs + [OnTick(p)], done + {p})
    ensures TickTask(m, p).tasks.Keys == m.tasks.Keys
  {
    LeadsOn(k, xs, m, OnTick(p));
    OnceMore(xs, done, p);
  }

  lemma NoSections(k: Kernel)
    ensures Leads(k, [], k) && OnceEach([], {})
  {
  }

  /** With nothing between the blocks, the scan ticks all the tasks at once. */
  lemma {:induction false} UndisturbedScan(k: Kernel, xs: seq<Section>, k': Kernel, done: set<Prio>)
    requires Leads(k, xs, k') && OnceEach(xs, done) && forall i | 0 <= i < |xs| :: xs[i].OnTick?
    ensures k' == TickSet(k, done)
    decreases |xs|
  {
    if xs == [] {
      forall p ensures p !in done {
        assert p in done <==> p in multiset(done);
      }
      assert done == {};
      TickSetEnds(k);
    } else {
      var init, p := xs[..|xs| - 1], xs[|xs| - 1].p;
      var m :| Leads(k, init, m) && Can(m, OnTick(p)) && k' == Do(m, OnTick(p));
      assert xs == init + [OnTick(p)];
      OnceLess(init, p, done);
      var rest := done - {p};
      UndisturbedScan(k, init, m, rest);
      assert p in m.tasks;
      TickSetShape(k, rest, p);
      TickSetStep(k, rest, p);
      assert rest + {p} == done;
    }
  }

  lemma UndisturbedTick(k: Kernel, xs: seq<Section>, k': Kernel)
    requires Leads(k, xs, k') && OnceEach(xs, k.tasks.Keys - {IDLE_PRIO}) && forall i | 0 <= i < |xs| :: xs[i].OnTick?
    ensures k' == TickAll(k)
  {
    UndisturbedScan(k, xs, k', k.tasks.Keys - {IDLE_PRIO});
    TickSetEnds(k);
  }
}
