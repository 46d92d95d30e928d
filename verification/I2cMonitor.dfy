/** What a listener on an I2C bus makes of the two lines (UM10204, sections 3.1.3 to 3.1.6). */
module I2cMonitor {
  datatype Level = Level(scl: bool, sda: bool)

  /** Broken: a START or STOP in the middle of a byte. */
  datatype Event = Start | Stop | Byte(value: bv8, acked: bool) | Broken

  /** bits: sampled since the last START or complete byte. */
  datatype Monitor = Monitor(events: seq<Event>, bits: seq<bool>)

  /** Most significant bit first. */
  function Value(bits: seq<bool>): bv8 {
    if bits == [] then 0 else (Value(bits[..|bits| - 1]) << 1) | (if bits[|bits| - 1] then 1 else 0)
  }

  /** A bit is sampled at each rising clock edge; the ninth of a byte is its acknowledge, low for yes. */
  function Sample(m: Monitor, b: bool): Monitor {
    if |m.bits| == 8 then Monitor(m.events + [Byte(Value(m.bits), !b)], [])
    else m.(bits := m.bits + [b])
  }

  /** A change of SDA while SCL stays high; its own clock pulse may have been sampled, but no other bit. */
  function Condition(m: Monitor, e: Event): Monitor {
    Monitor(m.events + [if |m.bits| <= 1 then e else Broken], [])
  }

  function Step(m: Monitor, a: Level, b: Level): Monitor {
    if !a.scl && b.scl then Sample(m, b.sda)
    else if a.scl && b.scl && a.sda && !b.sda then Condition(m, Start)
    else if a.scl && b.scl && !a.sda && b.sda then Condition(m, Stop)
    else m
  }

  /** The listener after the whole trace. */
  function Listen(trace: seq<Level>): Monitor {
    if |trace| <= 1 then Monitor([], [])
    else Step(Listen(trace[..|trace| - 1]), trace[|trace| - 2], trace[|trace| - 1])
  }

  function Decode(trace: seq<Level>): seq<Event> {
    Listen(trace).events
  }

  lemma ListenOn(trace: seq<Level>, l: Level)
    requires trace != []
    ensures Listen(trace + [l]) == Step(Listen(trace), trace[|trace| - 1], l)
  {
    assert (trace + [l])[..|trace|] == trace;
  }

  /** How often SDA changes while SCL stays high. */
  function ChangesWhileHigh(trace: seq<Level>): nat {
    if |trace| <= 1 then 0
    else
      var a, b := trace[|trace| - 2], trace[|trace| - 1];
      ChangesWhileHigh(trace[..|trace| - 1]) + if a.scl && b.scl && a.sda != b.sda then 1 else 0
  }

  function Conditions(es: seq<Event>): nat {
    if es == [] then 0 else Conditions(es[..|es| - 1]) + if es[|es| - 1].Byte? then 0 else 1
  }

  lemma ConditionsAppend(es: seq<Event>, e: Event)
    ensures Conditions(es + [e]) == Conditions(es) + if e.Byte? then 0 else 1
  {
    assert (es + [e])[..|es|] == es;
  }

  /** One sample adds a condition exactly if it is a change during a high clock. */
  lemma StepConditions(m: Monitor, a: Level, b: Level)
    ensures Conditions(Step(m, a, b).events)
         == Conditions(m.events) + if a.scl && b.scl && a.sda != b.sda then 1 else 0
  {
    hide Conditions, Value;
    if !a.scl && b.scl {
      ConditionsAppend(m.events, Byte(Value(m.bits), !b.sda));
    } else {
      ConditionsAppend(m.events, if |m.bits| <= 1 then Start else Broken);
      ConditionsAppend(m.events, if |m.bits| <= 1 then Stop else Broken);
    }
  }

  /** SDA changes during a high clock exactly as often as the listener hears a START, a STOP or a broken one. */
  lemma {:induction false} ChangesAreConditions(trace: seq<Level>)
    ensures ChangesWhileHigh(trace) == Conditions(Decode(trace))
  {
    hide Conditions, Step;
    if |trace| > 1 {
      var init := trace[..|trace| - 1];
      ChangesAreConditions(init);
      StepConditions(Listen(init), trace[|trace| - 2], trace[|trace| - 1]);
    } else {
      NoConditions();
    }
  }

  lemma NoConditions()
    ensures Conditions([]) == 0
  {
  }

  /** The eight bits of a byte, most significant first. */
  function Bits(d: bv8): (s: seq<bool>)
    ensures |s| == 8
  {
    [d & 0x80 != 0, d & 0x40 != 0, d & 0x20 != 0, d & 0x10 != 0,
     d & 0x08 != 0, d & 0x04 != 0, d & 0x02 != 0, d & 0x01 != 0]
  }

  /** The i-th mask of the shifting loop. */
  function MaskAt(i: nat): bv8 {
    if i == 0 then 0x80 else MaskAt(i - 1) >> 1
  }

  lemma MaskSelects(d: bv8, i: nat)
    requires i < 8
    ensures (d & MaskAt(i) != 0) == Bits(d)[i]
  {
    hide MaskAt;
    MaskValues();
  }

  lemma MaskValues()
    ensures MaskAt(0) == 0x80 && MaskAt(1) == 0x40 && MaskAt(2) == 0x20 && MaskAt(3) == 0x10
    ensures MaskAt(4) == 0x08 && MaskAt(5) == 0x04 && MaskAt(6) == 0x02 && MaskAt(7) == 0x01
  {
    assert MaskAt(4) == 0x08;
  }

  lemma {:induction false} BitsValue(d: bv8)
    ensures Value(Bits(d)) == d
  {
    var b := Bits(d);
    ValueStep(b, 7);
    ValueStep(b, 6);
    ValueStep(b, 5);
    ValueStep(b, 4);
    ValueStep(b, 3);
    ValueStep(b, 2);
    ValueStep(b, 1);
    ValueStep(b, 0);
    assert b[..0] == [] && b[..8] == b;
    Horner(d);
  }

  function Push(v: bv8, b: bool): bv8 {
    (v << 1) | (if b then 1 else 0)
  }

  lemma ValueStep(b: seq<bool>, i: nat)
    requires i < |b|
    ensures Value(b[..i + 1]) == Push(Value(b[..i]), b[i])
  {
    assert b[..i + 1][..i] == b[..i];
  }

  lemma Horner(d: bv8)
    ensures Push(Push(Push(Push(Push(Push(Push(Push(0, d & 0x80 != 0), d & 0x40 != 0), d & 0x20 != 0), d & 0x10 != 0),
                                d & 0x08 != 0), d & 0x04 != 0), d & 0x02 != 0), d & 0x01 != 0) == d
  {
  }
}
