/** HAL alarms: a 32-bit tick counter with a rollover flag, proved to behave like unbounded time. */
module Alarms {
  const WRAP: nat := 0x1_0000_0000
  const EINVAL: int := 22
  const ENOTSUP: int := 134

  predicate IsU32(n: nat) {
    n < WRAP
  }

  function U32(n: nat): (r: nat)
    ensures r < WRAP
  {
    n % WRAP
  }

  function Sum(s: seq<nat>): nat {
    if s == [] then 0 else Sum(s[..|s| - 1]) + s[|s| - 1]
  }

  /** The fields that decide when an alarm fires. */
  datatype Setting = Setting(time: nat, rollover: bool)

  /** alt_alarm_start's computation at counter value current. */
  function Armed(current: nat, nticks: nat): Setting {
    var time := U32(nticks + current + 1);
    Setting(time, time < current)
  }

  /** What a tick that brings the counter to current does to the flag before testing it. */
  function Cleared(a: Setting, current: nat): Setting {
    a.(rollover := a.rollover && current != 0)
  }

  predicate Expired(a: Setting, current: nat) {
    var b := Cleared(a, current);
    b.time <= current && !b.rollover
  }

  /** The setting stands for the deadline due, seen at unbounded time now. */
  ghost predicate Stands(a: Setting, now: nat, due: nat) {
    && a.time == U32(due)
    && (|| (now < due < now + WRAP && (a.rollover <==> a.time < U32(now)))
        || (due == now + WRAP && U32(now) == WRAP - 1 && !a.rollover))
  }

  /** Outside tick processing the flag is set exactly when the low word of the deadline is behind the counter. */
  lemma RolloverIffBehind(a: Setting, now: nat, due: nat)
    requires Stands(a, now, due)
    ensures a.rollover <==> a.time < U32(now)
  {
    if due == now + WRAP {
      assert U32(now + WRAP) == U32(now);
    }
  }

  /** Two times less than one wrap apart have the same counter value only if they are equal. */
  lemma Blocks(now: nat, due: nat)
    requires now <= due < now + WRAP
    ensures var n := U32(now) + (due - now); U32(due) == if n < WRAP then n else n - WRAP
    ensures U32(now + 1) == (if U32(now) == WRAP - 1 then 0 else U32(now) + 1)
  {
  }

  /** One tick later: the alarm expires exactly if its deadline is now, and otherwise still stands for it. */
  lemma TickExact(a: Setting, now: nat, due: nat)
    requires Stands(a, now, due)
    ensures Expired(a, U32(now + 1)) <==> due == now + 1
    ensures due != now + 1 ==> Stands(Cleared(a, U32(now + 1)), now + 1, due)
  {
    if due < now + WRAP {
      Blocks(now, due);
    } else {
      Blocks(now, now);
      Blocks(now + 1, due);
    }
  }

  /** A callback's interval moves the deadline by exactly that much. */
  lemma AgainExact(time: nat, now: nat, interval: nat)
    requires time == U32(now) && 0 < interval < WRAP
    ensures var time' := U32(time + interval); Stands(Setting(time', time' < U32(now)), now, now + interval)
  {
    Blocks(now, now + interval);
  }

  /** When an alarm with these fields, left alone, expires next. */
  function NextFiring(a: Setting, now: nat): (t: nat)
    requires IsU32(a.time)
    ensures t > now
  {
    var n := U32(now);
    if a.rollover then now + (WRAP - n) + a.time
    else if a.time > n then now + (a.time - n)
    else if n < WRAP - 1 then now + 1
    else now + 1 + a.time
  }

  /** That is exact for every setting whatever: it expires on the next tick if and only if that tick is the one
      named, and otherwise still expires at the same time. */
  lemma NextFiringExact(a: Setting, now: nat)
    requires IsU32(a.time)
    ensures Expired(a, U32(now + 1)) <==> NextFiring(a, now) == now + 1
    ensures !Expired(a, U32(now + 1)) ==> NextFiring(Cleared(a, U32(now + 1)), now + 1) == NextFiring(a, now)
  {
    Blocks(now, now);
  }

  lemma StandsNext(a: Setting, now: nat, due: nat)
    requires Stands(a, now, due)
    ensures NextFiring(a, now) == due
  {
    if due < now + WRAP {
      Blocks(now, due);
    } else {
      assert U32(now + WRAP) == U32(now);
    }
  }

  // ----- one alarm, first firing -----

  /** The setting after k ticks without a firing. */
  function Later(a: Setting, now: nat, k: nat): Setting {
    if k == 0 then a else Cleared(Later(a, now, k - 1), U32(now + k))
  }

  /** The alarm, left alone until then, expires at the k-th tick. */
  predicate FiresAt(a: Setting, now: nat, k: nat) {
    k > 0 && Expired(Later(a, now, k - 1), U32(now + k))
  }

  ghost predicate FirstFires(a: Setting, now: nat, k: nat) {
    FiresAt(a, now, k) && forall j: nat :: j < k ==> !FiresAt(a, now, j)
  }

  lemma {:induction false} StandsLater(a: Setting, now: nat, due: nat, k: nat)
    requires Stands(a, now, due) && now + k < due
    ensures Stands(Later(a, now, k), now + k, due)
  {
    if k > 0 {
      StandsLater(a, now, due, k - 1);
      TickExact(Later(a, now, k - 1), now + k - 1, due);
    }
  }

  lemma StandsFires(a: Setting, now: nat, due: nat)
    requires Stands(a, now, due)
    ensures FirstFires(a, now, due - now)
  {
    forall j: nat | j <= due - now ensures FiresAt(a, now, j) <==> now + j == due {
      if j > 0 {
        StandsLater(a, now, due, j - 1);
        TickExact(Later(a, now, j - 1), now + j - 1, due);
      }
    }
  }

  /** alt_alarm_start's setting stands for the deadline nticks + 1 ticks away for all but one value of nticks. */
  lemma ArmedStands(now: nat, nticks: nat)
    requires IsU32(nticks) && (nticks < WRAP - 1 || U32(now) == WRAP - 1)
    ensures Stands(Armed(U32(now), nticks), now, now + nticks + 1)
  {
    if nticks < WRAP - 1 {
      Blocks(now, now + nticks + 1);
    } else {
      assert U32(now + WRAP) == U32(now);
    }
  }

  /** When an alarm just started fires first. */
  lemma ArmedNext(now: nat, nticks: nat)
    requires IsU32(nticks)
    ensures nticks < WRAP - 1 || U32(now) == WRAP - 1 ==> Stands(Armed(U32(now), nticks), now, now + nticks + 1)
    ensures NextFiring(Armed(U32(now), nticks), now)
         == if nticks < WRAP - 1 || U32(now) == WRAP - 1 then now + nticks + 1 else now + 1
  {
    if nticks < WRAP - 1 || U32(now) == WRAP - 1 {
      ArmedStands(now, nticks);
      StandsNext(Armed(U32(now), nticks), now, now + nticks + 1);
    } else {
      assert U32(now + WRAP) == U32(now);
      Blocks(now, now);
    }
  }

  /** An alarm first fires exactly nticks + 1 ticks after alt_alarm_start if and only if nticks is below its
      largest value, or the counter is at its own; otherwise the sum wraps onto the current time and the alarm
      fires on the very next tick. */
  lemma FirstFiringExact(now: nat, nticks: nat)
    requires IsU32(nticks)
    ensures FirstFires(Armed(U32(now), nticks), now, nticks + 1) <==> nticks < WRAP - 1 || U32(now) == WRAP - 1
    ensures nticks == WRAP - 1 && U32(now) != WRAP - 1 ==> FirstFires(Armed(U32(now), nticks), now, 1)
  {
    var a := Armed(U32(now), nticks);
    if nticks < WRAP - 1 || U32(now) == WRAP - 1 {
      ArmedStands(now, nticks);
      StandsFires(a, now, now + nticks + 1);
    } else {
      assert U32(now + WRAP) == U32(now);
      Blocks(now, now);
      assert a == Setting(U32(now), false);
      assert Later(a, now, 0) == a;
      assert FiresAt(a, now, 1);
    }
  }

  // ----- the alarm list -----

  /** When an alarm was started and with which nticks, the unbounded times of its callbacks, and the intervals
      they returned. */
  datatype History = History(startedAt: nat, nticks: nat, firings: seq<nat>, intervals: seq<nat>)

  ghost function Due(h: History): nat {
    h.startedAt + h.nticks + 1 + Sum(h.intervals)
  }

  /** Every callback came exactly the start delay plus the intervals returned so far after the start. */
  ghost predicate Punctual(h: History) {
    && |h.firings| == |h.intervals|
    && forall k | 0 <= k < |h.firings| :: h.firings[k] == h.startedAt + h.nticks + 1 + Sum(h.intervals[..k])
  }

  /** The first callback comes nticks + 1 ticks after the start, and each later one exactly the interval the one
      before it returned later. */
  lemma GapsAreIntervals(h: History, k: nat)
    requires Punctual(h) && k < |h.firings|
    ensures h.firings[0] == h.startedAt + h.nticks + 1
    ensures k + 1 < |h.firings| ==> h.firings[k + 1] == h.firings[k] + h.intervals[k]
  {
    if k + 1 < |h.firings| {
      var s := h.intervals[..k + 1];
      assert s[..|s| - 1] == h.intervals[..k];
    }
  }

  /** The start for which the deadline does not wrap back onto the current time. */
  predicate OnTime(h: History) {
    h.nticks < WRAP - 1 || U32(h.startedAt) == WRAP - 1
  }

  /** What the tick at time now adds to the history: one callback, or nothing. */
  ghost predicate Ticked(h: History, h': History, now: nat, called: bool) {
    if called then
      exists interval: nat | IsU32(interval) ::
        h' == h.(firings := h.firings + [now], intervals := h.intervals + [interval])
    else h' == h
  }

  /** The setting after a callback that returned this interval. */
  function Rearmed(a: Setting, current: nat, interval: nat): Setting {
    var time := U32(a.time + interval);
    Setting(time, time < current)
  }

  /** The last callback asked to be removed. */
  predicate Cancelled(h: History) {
    h.intervals != [] && h.intervals[|h.intervals| - 1] == 0
  }

  /** A tick at time now took an alarm from setting a and history h to setting a' and history h': a callback exactly
      if it was due, which for an alarm started on time is its exact deadline, and the setting that follows. */
  ghost predicate TickedOnce(a: Setting, h: History, a': Setting, h': History, now: nat)
    requires IsU32(a.time) && now > 0
  {
    var due := NextFiring(a, now - 1);
    && Ticked(h, h', now, due == now) && (OnTime(h) ==> due == Due(h) && Punctual(h'))
    && (due != now ==> a' == Cleared(a, U32(now)))
    && (due == now && h'.intervals != [] && !Cancelled(h') ==>
          a' == Rearmed(a, U32(now), h'.intervals[|h'.intervals| - 1]))
  }

  class Alarm {
    var time: nat
    var rollover: bool
    ghost var h: History

    constructor ()
    {
      time, rollover := 0, false;
    }

    ghost function Timer(): Setting
      reads this
    {
      Setting(time, rollover)
    }

    /** A registered alarm at unbounded time now. */
    ghost predicate Pending(now: nat)
      reads this
    {
      && IsU32(time) && !Cancelled(h) && |h.firings| == |h.intervals|
      && (OnTime(h) ==> Stands(Timer(), now, Due(h)) && Punctual(h))
    }

    /** The alarm is still as it was before the tick at time now. */
    ghost predicate Awaits(a: Setting, h0: History, now: nat)
      reads this
    {
      now > 0 && Pending(now - 1) && Timer() == a && h == h0
    }

    /** The tick at time now has processed the alarm, and it is registered for later unless its callback said no. */
    ghost predicate Since(a: Setting, h0: History, now: nat)
      reads this
    {
      now > 0 && IsU32(a.time) && TickedOnce(a, h0, Timer(), h, now) && (!Cancelled(h) ==> Pending(now))
    }

    /** The body of alt_tick's loop.  The callback may return any interval. */
    method Process(current: nat, ghost now: nat) returns (stop: bool)
      requires Pending(now) && current == U32(now + 1)
      modifies this
      ensures TickedOnce(old(Timer()), old(h), Timer(), h, now + 1)
      ensures stop <==> Cancelled(h)
      ensures !stop ==> Pending(now + 1)
    {
      hide U32, Stands, Sum, NextFiring, Due, Punctual, Ticked;
      ghost var a := Timer();
      NextFiringExact(a, now);
      if OnTime(h) {
        StandsNext(a, now, Due(h));
        TickExact(a, now, Due(h));
      }
      NoCall(h, now + 1);
      if rollover && current == 0 {
        rollover := false;
      }
      stop := false;
      if time <= current && !rollover {
        if OnTime(h) {
          ExpiredNow(a, now);
        }
        stop := Call(current, now);
      }
    }

    /** The callback and what its result does to the alarm. */
    method Call(current: nat, ghost now: nat) returns (stop: bool)
      requires IsU32(time) && !rollover && current == U32(now + 1) && !Cancelled(h) && |h.firings| == |h.intervals|
      requires OnTime(h) ==> time == current && Due(h) == now + 1 && Punctual(h)
      modifies this
      ensures Ticked(old(h), h, now + 1, true) && h != old(h)
      ensures OnTime(h) == OnTime(old(h)) && (OnTime(h) ==> Punctual(h))
      ensures h.intervals != [] && (stop <==> Cancelled(h))
      ensures !stop ==> Pending(now + 1) && Timer() == Rearmed(old(Timer()), current, h.intervals[|h.intervals| - 1])
    {
      hide U32, Stands;
      var nextCallback: nat := *;
      nextCallback := U32(nextCallback);
      SumAppend(h.intervals, nextCallback);
      ghost var h0 := h;
      h := h.(firings := h.firings + [now + 1], intervals := h.intervals + [nextCallback]);
      Called(h0, h, now + 1, nextCallback);
      stop := false;
      if nextCallback == 0 {
        stop := true;
      } else {
        if OnTime(h) {
          AgainExact(time, now + 1, nextCallback);
        }
        time := U32(time + nextCallback);
        if time < current {
          rollover := true;
        }
      }
    }
  }

  lemma Called(h: History, h': History, now: nat, interval: nat)
    requires IsU32(interval) && h' == h.(firings := h.firings + [now], intervals := h.intervals + [interval])
    ensures Ticked(h, h', now, true) && h' != h
  {
  }

  lemma NoCall(h: History, now: nat)
    ensures Ticked(h, h, now, false)
  {
  }

  lemma ExpiredNow(a: Setting, now: nat)
    requires Stands(a, now, now + 1)
    ensures a.time == U32(now + 1)
  {
  }

  lemma SumAppend(s: seq<nat>, n: nat)
    ensures Sum(s + [n]) == Sum(s) + n
    ensures forall k | 0 <= k <= |s| :: (s + [n])[..k] == s[..k]
  {
    assert (s + [n])[..|s|] == s;
  }

  /** A list with one position taken out. */
  lemma Unlinked<T>(kept: seq<T>, x: T, rest: seq<T>)
    ensures var s := kept + ([x] + rest); var i := |kept|;
      s[i] == x && s[..i] + s[i + 1..] == kept + rest && s == (kept + [x]) + rest
  {
  }

  class AlarmList {
    var nticks: nat
    var tickRate: nat
    var alarms: seq<Alarm>
    /** ticks since reset, never wrapping */
    ghost var now: nat

    constructor (tickRate: nat)
      ensures Valid() && alarms == [] && now == 0 && this.tickRate == tickRate
    {
      this.tickRate := tickRate;
      nticks, alarms, now := 0, [], 0;
    }

    ghost predicate Distinct()
      reads this
    {
      Different(alarms)
    }

    static ghost predicate Different(list: seq<Alarm>) {
      forall i, j | 0 <= i < j < |list| :: list[i] != list[j]
    }

    static lemma OthersThan(list: seq<Alarm>, k: nat)
      requires Different(list) && k < |list|
      ensures forall m | 0 <= m < |list| && m != k :: list[m] != list[k]
      ensures list[k] !in list[..k]
    {
    }

    /** Outside tick processing: the counter is the low word of time, and every registered alarm stands for its
        deadline, which is still to come. */
    ghost predicate Valid()
      reads this, alarms
    {
      nticks == U32(now) && Distinct() && forall i | 0 <= i < |alarms| :: alarms[i].Pending(now)
    }

    /** alt_alarm_start, for every value of nticks: the largest one, unless the counter is at its own largest
        value, fires on the next tick. */
    method Start(alarm: Alarm?, interval: nat) returns (err: int)
      requires Valid() && IsU32(interval)
      requires alarm !in alarms
      modifies this`alarms, alarm
      ensures Valid()
      ensures err == if tickRate == 0 then -ENOTSUP else if alarm == null then -EINVAL else 0
      ensures err != 0 ==> alarms == old(alarms)
      ensures err == 0 ==>
        && alarms == [alarm] + old(alarms) && alarm.h == History(now, interval, [], []) && IsU32(alarm.time)
        && NextFiring(alarm.Timer(), now) == if OnTime(alarm.h) then now + interval + 1 else now + 1
    {
      hide Stands, U32, NextFiring;
      if tickRate != 0 {
        if alarm != null {
          var currentNticks := nticks;
          alarm.time := U32(interval + currentNticks + 1);
          if alarm.time < currentNticks {
            alarm.rollover := true;
          } else {
            alarm.rollover := false;
          }
          alarm.h := History(now, interval, [], []);
          ArmedNext(now, interval);
          alarms := [alarm] + alarms;
          return 0;
        } else {
          return -EINVAL;
        }
      } else {
        return -ENOTSUP;
      }
    }

    /** alt_alarm_stop. */
    method Stop(i: nat)
      requires Valid() && i < |alarms|
      modifies `alarms
      ensures Valid() && alarms == old(alarms)[..i] + old(alarms)[i + 1..]
    {
      alarms := alarms[..i] + alarms[i + 1..];
    }

    /** alt_tick: exactly the alarms whose deadline is this tick call back, each once; those whose callback returned
        zero are removed, and the others stay in their order. */
    method Tick()
      requires Valid()
      modifies this, alarms
      ensures Valid() && now == old(now) + 1 && tickRate == old(tickRate)
      ensures forall a :: a in old(alarms) ==>
        old(IsU32(a.time)) && TickedOnce(old(a.Timer()), old(a.h), a.Timer(), a.h, now)
      ensures alarms == Survivors(old(alarms))
      ensures forall a :: a in old(alarms) ==>
        (a !in alarms <==> a.h.intervals != [] && a.h.intervals[|a.h.intervals| - 1] == 0)
    {
      hide U32, TickedOnce, Cancelled, Scanned, Survivors;
      CounterStep();
      nticks := U32(nticks + 1);
      now := now + 1;
      ghost var orig, timers, hs := alarms, Timers(alarms), Histories(alarms);
      ghost var k: nat := 0;
      var i: nat := 0;
      ScanStarts(timers, hs);
      while i < |alarms|
        invariant k <= |orig| && Scanned(orig, timers, hs, k, i)
        modifies `alarms, orig
        decreases |orig| - k
      {
        i := Turn(orig, timers, hs, k, i);
        k := k + 1;
      }
      ScanEnds(orig, timers, hs, k, i);
      RemovedIffZero(orig);
    }

    static lemma RemovedIffZero(list: seq<Alarm>)
      requires Different(list)
      ensures forall a :: a in list ==>
        (a !in Survivors(list) <==> a.h.intervals != [] && a.h.intervals[|a.h.intervals| - 1] == 0)
    {
      SurvivorsFacts(list);
    }

    lemma ScanStarts(timers: seq<Setting>, hs: seq<History>)
      requires now > 0 && nticks == U32(now) && Distinct() && forall i | 0 <= i < |alarms| :: alarms[i].Pending(now - 1)
      requires timers == Timers(alarms) && hs == Histories(alarms)
      ensures Scanned(alarms, timers, hs, 0, 0)
    {
      hide Alarm.Pending;
      assert alarms[..0] == [];
    }

    lemma ScanEnds(orig: seq<Alarm>, timers: seq<Setting>, hs: seq<History>, k: nat, i: nat)
      requires Scanned(orig, timers, hs, k, i) && i >= |alarms|
      ensures alarms == Survivors(orig) && Valid()
      ensures |timers| == |hs| == |orig|
      ensures forall m | 0 <= m < |orig| ::
        IsU32(timers[m].time) && TickedOnce(timers[m], hs[m], orig[m].Timer(), orig[m].h, now)
    {
      hide U32, TickedOnce, Cancelled, Survivors, Alarm.Pending;
      assert orig[k..] == [] && orig[..k] == orig;
      SurvivorsFacts(orig);
      forall j | 0 <= j < |alarms| ensures alarms[j].Pending(now) {
        assert alarms[j] in Survivors(orig);
        var m :| 0 <= m < |orig| && orig[m] == alarms[j];
        assert orig[m].Since(timers[m], hs[m], now);
      }
    }

    /** The alarms of the list whose callbacks have not asked for removal, in order. */
    static ghost function Survivors(list: seq<Alarm>): seq<Alarm>
      reads list
    {
      if list == [] then []
      else
        var last := list[|list| - 1];
        Survivors(list[..|list| - 1]) + if Cancelled(last.h) then [] else [last]
    }

    static lemma {:induction false} SurvivorsFacts(list: seq<Alarm>)
      requires Different(list)
      ensures var r := Survivors(list);
        && Different(r)
        && (forall a :: a in r <==> a in list && !Cancelled(a.h))
      decreases |list|
    {
      hide Cancelled;
      if list != [] {
        var init, last := list[..|list| - 1], list[|list| - 1];
        SurvivorsFacts(init);
        assert list == init + [last];
        assert last !in init;
      }
    }

    static ghost function Timers(list: seq<Alarm>): seq<Setting>
      reads list
    {
      seq(|list|, m requires 0 <= m < |list| reads list => list[m].Timer())
    }

    static ghost function Histories(list: seq<Alarm>): seq<History>
      reads list
    {
      seq(|list|, m requires 0 <= m < |list| reads list => list[m].h)
    }

    /** The scan of the list orig has passed k alarms, of which i stay in the list; timers and hs are the settings
        and histories before. */
    ghost predicate Scanned(orig: seq<Alarm>, timers: seq<Setting>, hs: seq<History>, k: nat, i: nat)
      reads this, orig, alarms
    {
      && k <= |orig| == |timers| == |hs| && now > 0 && nticks == U32(now)
      && Different(orig) && i == |Survivors(orig[..k])| && alarms == Survivors(orig[..k]) + orig[k..]
      && (forall m | k <= m < |orig| :: orig[m].Awaits(timers[m], hs[m], now))
      && (forall m | 0 <= m < k :: orig[m].Since(timers[m], hs[m], now))
    }

    method Turn(ghost orig: seq<Alarm>, ghost timers: seq<Setting>, ghost hs: seq<History>, ghost k: nat, i: nat)
      returns (next: nat)
      requires Scanned(orig, timers, hs, k, i) && i < |alarms|
      modifies `alarms, orig
      ensures k < |orig| && Scanned(orig, timers, hs, k + 1, next)
    {
      hide Alarm.Awaits, Alarm.Since, Cancelled, U32, Survivors, Different;
      OthersThan(orig, k);
      ghost var kept := Survivors(orig[..k]);
      assert orig[k..] == [orig[k]] + orig[k + 1..];
      Unlinked(kept, orig[k], orig[k + 1..]);
      var stop := Visit(i, timers[k], hs[k]);
      assert Survivors(orig[..k]) == kept;
      SurvivorsStep(orig, k);
      next := if stop then i else i + 1;
      forall m | k + 1 <= m < |orig| ensures orig[m].Awaits(timers[m], hs[m], now) {
      }
      forall m | 0 <= m < k + 1 ensures orig[m].Since(timers[m], hs[m], now) {
      }
    }

    static lemma SurvivorsStep(list: seq<Alarm>, k: nat)
      requires k < |list|
      ensures Survivors(list[..k + 1]) == Survivors(list[..k]) + if Cancelled(list[k].h) then [] else [list[k]]
    {
      assert list[..k + 1][..k] == list[..k];
    }

    /** One turn of the loop: the alarm is processed, and unlinked if its callback returned zero. */
    method Visit(i: nat, ghost a: Setting, ghost h: History) returns (stop: bool)
      requires i < |alarms| && alarms[i].Awaits(a, h, now) && nticks == U32(now)
      modifies `alarms, alarms[i]
      ensures alarms == if stop then old(alarms)[..i] + old(alarms)[i + 1..] else old(alarms)
      ensures old(alarms)[i].Since(a, h, now) && (stop <==> Cancelled(old(alarms)[i].h))
    {
      hide Stands, TickedOnce, Punctual, Due, Rearmed, Cleared, OnTime;
      stop := alarms[i].Process(nticks, now - 1);
      if stop {
        alarms := alarms[..i] + alarms[i + 1..];
      }
    }

    lemma CounterStep()
      requires nticks == U32(now)
      ensures U32(nticks + 1) == U32(now + 1)
    {
      Blocks(now, now);
    }
  }
}
