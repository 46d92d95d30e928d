/** The bit-banged I2C master, with every level its pin writes put on the bus recorded. */
module I2cMaster {
  import opened I2cMonitor

  class Bus {
    /** clock pin, data output register and data direction */
    var scl: bool
    var sdaOut: bool
    var dirOut: bool
    /** what the addressed device, or the pull-up, puts on SDA after the n-th falling clock edge */
    const device: nat -> bool
    var falls: nat
    ghost var trace: seq<Level>

    /** The bus as it is before the first transfer: idle, both lines high. */
    constructor (device: nat -> bool)
      ensures Valid() && this.device == device && Idle() && Heard() == Monitor([], []) && falls == 0
    {
      this.device := device;
      scl, sdaOut, dirOut := true, true, true;
      falls, trace := 0, [Level(true, true)];
    }

    function Sda(): bool
      reads this
    {
      if dirOut then sdaOut else device(falls)
    }

    ghost predicate Valid()
      reads this
    {
      trace != [] && trace[|trace| - 1] == Level(scl, Sda())
    }

    ghost predicate Idle()
      reads this
    {
      scl && dirOut && sdaOut
    }

    ghost function Heard(): Monitor
      reads this
    {
      Listen(trace)
    }

    // ----- pins -----

    ghost method Record()
      requires trace != []
      modifies `trace
      ensures trace == old(trace) + [Level(scl, Sda())] && Valid()
      ensures Heard() == Step(old(Heard()), old(trace)[|old(trace)| - 1], Level(scl, Sda()))
    {
      ListenOn(trace, Level(scl, Sda()));
      trace := trace + [Level(scl, Sda())];
    }

    method SclHigh()
      requires Valid()
      modifies `scl, `trace
      ensures Valid() && scl && Heard() == if old(scl) then old(Heard()) else Sample(old(Heard()), Sda())
    {
      scl := true;
      Record();
    }

    /** The device may change its bit once the clock is low. */
    method SclLow()
      requires Valid()
      modifies `scl, `falls, `trace
      ensures Valid() && !scl && Heard() == old(Heard()) && falls == old(falls) + if old(scl) then 1 else 0
    {
      if scl {
        ghost var before := Sda();
        scl := false;
        ghost var low := Level(false, before);
        ListenOn(trace, low);
        trace := trace + [low];
        falls := falls + 1;
      }
      Record();
    }

    method SetSda(high: bool)
      requires Valid()
      modifies `sdaOut, `trace
      ensures Valid() && sdaOut == high
      ensures Heard() == if scl && dirOut && old(sdaOut) != high then
                           Condition(old(Heard()), if high then Stop else Start)
                         else old(Heard())
    {
      sdaOut := high;
      Record();
    }

    /** Only while the clock is low, or when the level does not change. */
    method SetDirection(out: bool)
      requires Valid() && (!scl || out == dirOut)
      modifies `dirOut, `trace
      ensures Valid() && dirOut == out && Heard() == old(Heard())
    {
      dirOut := out;
      Record();
    }

    // ----- the protocol's parts -----

    /** Between two parts of a transfer: clock low, on a byte boundary. */
    ghost predicate Between()
      reads this
    {
      Valid() && !scl && Heard().bits == []
    }

    method I2cStart()
      requires Valid() && (!scl || Idle()) && Heard().bits == []
      modifies `scl, `sdaOut, `dirOut, `falls, `trace
      ensures Between() && Heard().events == old(Heard()).events + [Start] && falls == old(falls) + 1
    {
      SetDirection(true);
      SetSda(true);
      SclHigh();
      SetSda(false);
      SclLow();
    }

    method I2cStop()
      requires Between()
      modifies `scl, `sdaOut, `dirOut, `trace
      ensures Valid() && Idle() && Heard() == Monitor(old(Heard()).events + [Stop], [])
    {
      SetDirection(true);
      SetSda(false);
      SclHigh();
      SetSda(true);
    }

    /** The eight bits go out in order, and the result is the device's ninth. */
    method I2cWrite(data: bv8) returns (ack: bool)
      requires Between()
      modifies `scl, `sdaOut, `dirOut, `falls, `trace
      ensures Between() && falls == old(falls) + 9 && ack == !device(old(falls) + 8)
      ensures Heard().events == old(Heard()).events + [Byte(data, ack)]
    {
      hide Bits, MaskAt, Value, Listen, Step, Condition;
      var mask: bv8 := 0x80;
      MaskStart();
      SetDirection(true);
      var i := 0;
      while i < 8
        invariant 0 <= i <= 8 && mask == MaskAt(i) && Valid() && !scl && dirOut && falls == old(falls) + i
        invariant Heard() == Monitor(old(Heard()).events, Bits(data)[..i])
        modifies `scl, `sdaOut, `falls, `trace
      {
        MaskSelects(data, i);
        PutBit(data & mask != 0);
        MaskNext(i);
        mask := mask >> 1;
        i := i + 1;
      }
      BitsValue(data);
      assert Bits(data)[..8] == Bits(data);
      SetDirection(false);
      var high := TakeBit();
      ack := if high then false else true;
    }

    /** One clock pulse with the master's bit on SDA. */
    method PutBit(b: bool)
      requires Valid() && !scl && dirOut
      modifies `scl, `sdaOut, `falls, `trace
      ensures Valid() && !scl && falls == old(falls) + 1 && Heard() == Sample(old(Heard()), b)
    {
      hide Listen, Step, Condition, Sample;
      SclLow();
      if b {
        SetSda(true);
      } else {
        SetSda(false);
      }
      SclHigh();
      SclLow();
    }

    /** One clock pulse with the device's bit on SDA, read while the clock is high. */
    method TakeBit() returns (b: bool)
      requires Valid() && !scl && !dirOut
      modifies `scl, `falls, `trace
      ensures Valid() && !scl && falls == old(falls) + 1
      ensures b == device(old(falls)) && Heard() == Sample(old(Heard()), b)
    {
      hide Listen, Step, Condition, Sample;
      SclHigh();
      b := Sda();
      SclLow();
    }

    /** Eight bits come in, and the ninth tells the device whether to go on. */
    method I2cRead(ack: bool) returns (data: bv8)
      requires Between()
      modifies `scl, `sdaOut, `dirOut, `falls, `trace
      ensures Between() && falls == old(falls) + 9 && data == Sent(device, old(falls))
      ensures Heard().events == old(Heard()).events + [Byte(data, ack)]
    {
      hide Value, Listen, Step, Condition, SentBits;
      data := 0;
      NoBits(device, falls);
      SetDirection(false);
      SclLow();
      var i := 0;
      while i < 8
        invariant 0 <= i <= 8 && Valid() && !scl && !dirOut && falls == old(falls) + i
        invariant Heard() == Monitor(old(Heard()).events, SentBits(device, old(falls), i))
        invariant data == Value(SentBits(device, old(falls), i))
        modifies `scl, `falls, `trace
      {
        ValueOfNext(device, old(falls), i);
        data := data << 1;
        var high := TakeBit();
        if high {
          data := data | 0x01;
        }
        i := i + 1;
      }
      SclLow();
      SetDirection(true);
      PutBit(!ack);
      SetSda(false);
    }

    // ----- transfers -----

    /** I2C_WriteToDeviceRegister: address, register, then data up to the first byte the device refuses; true
        exactly if it refused none. */
    method WriteToDeviceRegister(deviceAddr: bv8, controlAddr: bv8, data: seq<bv8>) returns (ok: bool)
      requires Between()
      modifies `scl, `sdaOut, `dirOut, `falls, `trace
      ensures Between()
      ensures var all := [deviceAddr, controlAddr] + data; var n := FirstRefused(device, old(falls), |all|);
        && ok == (n == |all|)
        && Heard().events == old(Heard()).events + Sending(device, old(falls), all, if ok then n else n + 1)
    {
      hide Listen, Step, Sent, Heard, FirstRefused, AckAt, Sending;
      ghost var all, f := [deviceAddr, controlAddr] + data, falls;
      ghost var es := Heard().events;
      var success := I2cWrite(deviceAddr);
      NextSent(device, f, all, 0);
      if !success {
        RefusedAt(device, f, |all|, 0);
        return false;
      }
      success := I2cWrite(controlAddr);
      NextSent(device, f, all, 1);
      if !success {
        RefusedAt(device, f, |all|, 1);
        return false;
      }
      var i := 0;
      while i < |data| && success
        invariant 0 <= i <= |data| && Between() && falls == f + 9 * (i + 2)
        invariant forall k | 0 <= k < i + 1 :: AckAt(device, f, k)
        invariant success == AckAt(device, f, i + 1)
        invariant Heard().events == es + Sending(device, f, all, i + 2)
        modifies `scl, `sdaOut, `dirOut, `falls, `trace
      {
        success := I2cWrite(data[i]);
        NextSent(device, f, all, i + 2);
        i := i + 1;
      }
      RefusedAt(device, f, |all|, if success then i + 2 else i + 1);
      return success;
    }

    /** I2C_ReadFromDeviceRegister: device and register are addressed, the start repeated and the read address
        sent; if all three are acknowledged, the buffer receives what the device clocks out, every byte but the
        last acknowledged and the last one exactly if the read is not the end. */
    method ReadFromDeviceRegister(deviceAddr: bv8, controlAddr: bv8, buf: array<bv8>, len: nat, endRead: bool)
      returns (ok: bool)
      requires Between() && len <= buf.Length
      modifies `scl, `sdaOut, `dirOut, `falls, `trace, buf
      ensures Between()
      ensures Heard().events == old(Heard()).events
           + RegisterRead(device, old(falls), deviceAddr, controlAddr, len, endRead)
      ensures ok == ReadAccepted(device, old(falls)) && (ok ==> falls == old(falls) + 28 + 9 * len)
      ensures ok ==> forall k | 0 <= k < len :: buf[k] == Sent(device, old(falls) + 28 + 9 * k)
    {
      hide Listen, Step, Sent, Reading, Heard, RegisterRead;
      ghost var f, es := falls, Heard().events;
      ReadCases(device, f, es, deviceAddr, controlAddr, len, endRead);
      var success := I2cWrite(deviceAddr);
      if !success {
        return false;
      }
      success := I2cWrite(controlAddr);
      if !success {
        return false;
      }
      I2cStart();
      success := I2cWrite(deviceAddr | 1);
      if !success {
        return false;
      }
      ReadMore(buf, len, endRead);
      return true;
    }

    /** I2C_ReadMore, and the loop that ends every register read. */
    method ReadMore(buf: array<bv8>, len: nat, endRead: bool)
      requires Between() && len <= buf.Length
      modifies `scl, `sdaOut, `dirOut, `falls, `trace, buf
      ensures Between() && falls == old(falls) + 9 * len
      ensures Heard().events == old(Heard()).events + Reading(device, old(falls), len, len, endRead)
      ensures forall k | 0 <= k < len :: buf[k] == Sent(device, old(falls) + 9 * k)
    {
      hide Listen, Step, Sent;
      ghost var f := falls;
      var i := 0;
      while i < len
        invariant 0 <= i <= len && Between() && falls == f + 9 * i
        invariant Heard().events == old(Heard()).events + Reading(device, f, i, len, endRead)
        invariant forall k | 0 <= k < i :: buf[k] == Sent(device, f + 9 * k)
        modifies `scl, `sdaOut, `dirOut, `falls, `trace, buf
      {
        if i == len - 1 {
          buf[i] := I2cRead(!endRead);
        } else {
          buf[i] := I2cRead(true);
        }
        i := i + 1;
      }
    }

    /** I2C_Start, I2C_ReadFromDeviceRegister and I2C_Stop, in that order: the listener hears exactly one
        well-formed transfer, and the bus is idle again. */
    method ReadTransfer(deviceAddr: bv8, controlAddr: bv8, buf: array<bv8>, len: nat, endRead: bool) returns (ok: bool)
      requires Valid() && Idle() && Heard().bits == [] && len <= buf.Length
      modifies `scl, `sdaOut, `dirOut, `falls, `trace, buf
      ensures Valid() && Idle() && Heard().bits == [] && ok == ReadAccepted(device, old(falls) + 1)
      ensures Decode(trace) == old(Decode(trace)) + [Start]
           + RegisterRead(device, old(falls) + 1, deviceAddr, controlAddr, len, endRead) + [Stop]
      ensures ok ==> forall k | 0 <= k < len :: buf[k] == Sent(device, old(falls) + 29 + 9 * k)
    {
      hide Listen, Step, Sent, Reading, RegisterRead;
      I2cStart();
      ok := ReadFromDeviceRegister(deviceAddr, controlAddr, buf, len, endRead);
      I2cStop();
    }

    /** read_registers of the range finder's driver: two register reads, the second only after the first; a refused
        one ends the call without a STOP, and the next call's START, from a low clock, is then a repeated one. */
    method ReadRegisters() returns (range: nat)
      requires Valid() && (!scl || Idle()) && Heard().bits == []
      modifies `scl, `sdaOut, `dirOut, `falls, `trace
      ensures Valid() && (!scl || Idle()) && Heard().bits == []
      ensures Heard().events == old(Heard()).events + [Start] + RegistersRead(device, old(falls) + 1)
      ensures Idle() <==> BothAccepted(device, old(falls) + 1)
      ensures range == if BothAccepted(device, old(falls) + 1) then
                         256 * Number(Sent(device, old(falls) + 29)) + Number(Sent(device, old(falls) + 67))
                       else 0
    {
      hide Listen, Step, Sent, RegisterRead, Heard, Sda, ReadAccepted, RegistersRead;
      TwoReads(device, falls + 1, Heard().events);
      var ok, upper, lower;
      I2cStart();
      ok, upper := ReadOneRegister(REGISTER_UPPER);
      if !ok {
        return 0;
      }
      I2cStop();
      I2cStart();
      ok, lower := ReadOneRegister(REGISTER_LOWER);
      if !ok {
        return 0;
      }
      I2cStop();
      return 256 * Number(upper) + Number(lower);
    }

    method ReadOneRegister(register: bv8) returns (ok: bool, value: bv8)
      requires Between()
      modifies `scl, `sdaOut, `dirOut, `falls, `trace
      ensures Between() && ok == ReadAccepted(device, old(falls)) && (ok ==> falls == old(falls) + 37)
      ensures Heard().events == old(Heard()).events + RegisterRead(device, old(falls), LIDAR_ADDRESS, register, 1, true)
      ensures ok ==> value == Sent(device, old(falls) + 28)
    {
      hide Listen, Step, Sent, RegisterRead, Heard;
      var buf := new bv8[1];
      ok := ReadFromDeviceRegister(LIDAR_ADDRESS, register, buf, 1, true);
      value := buf[0];
      assert ok ==> value == Sent(device, old(falls) + 28 + 9 * 0);
    }
  }

  function SentBits(device: nat -> bool, from: nat, n: nat): (s: seq<bool>)
    ensures |s| == n
  {
    seq(n, i requires 0 <= i < n => device(from + i))
  }

  /** The byte a device clocks out from the given falling edge on. */
  function Sent(device: nat -> bool, from: nat): bv8 {
    Value(SentBits(device, from, 8))
  }

  lemma ValueOfNext(device: nat -> bool, from: nat, n: nat)
    ensures SentBits(device, from, n + 1) == SentBits(device, from, n) + [device(from + n)]
    ensures Value(SentBits(device, from, n + 1))
         == (Value(SentBits(device, from, n)) << 1) | (if device(from + n) then 1 else 0)
  {
    var s := SentBits(device, from, n + 1);
    assert s[..n] == SentBits(device, from, n);
  }

  lemma NoBits(device: nat -> bool, from: nat)
    ensures SentBits(device, from, 0) == [] && Value([]) == 0
  {
  }

  lemma MaskStart()
    ensures MaskAt(0) == 0x80
  {
  }

  lemma MaskNext(i: nat)
    ensures MaskAt(i + 1) == MaskAt(i) >> 1
  {
  }

  // ----- what transfers look like on the bus -----

  /** Byte k of a run of written bytes is acknowledged on the ninth clock after it. */
  predicate AckAt(device: nat -> bool, from: nat, k: nat) {
    !device(from + 9 * k + 8)
  }

  /** How many of n bytes are acknowledged before one is refused. */
  function FirstRefused(device: nat -> bool, from: nat, n: nat): (m: nat)
    ensures m <= n && (m < n ==> !AckAt(device, from, m)) && forall k | 0 <= k < m :: AckAt(device, from, k)
  {
    if n == 0 then 0
    else
      var m := FirstRefused(device, from, n - 1);
      if m == n - 1 && AckAt(device, from, m) then n else m
  }

  function Sending(device: nat -> bool, from: nat, data: seq<bv8>, n: nat): (es: seq<Event>)
    requires n <= |data|
    ensures |es| == n
  {
    seq(n, k requires 0 <= k < n => Byte(data[k], AckAt(device, from, k)))
  }

  /** The four ways a register read can go, built up event by event. */
  lemma ReadCases(device: nat -> bool, f: nat, es: seq<Event>, addr: bv8, reg: bv8, len: nat, endRead: bool)
    ensures var r := es + RegisterRead(device, f, addr, reg, len, endRead);
      var two := es + [Byte(addr, true)] + [Byte(reg, true)];
      && (device(f + 8) ==> r == es + [Byte(addr, false)])
      && (!device(f + 8) && device(f + 17) ==> r == es + [Byte(addr, true)] + [Byte(reg, false)])
      && (!device(f + 8) && !device(f + 17) && device(f + 27) ==> r == two + [Start] + [Byte(addr | 1, false)])
      && (ReadAccepted(device, f) ==>
            r == two + [Start] + [Byte(addr | 1, true)] + Reading(device, f + 28, len, len, endRead))
  {
    hide Reading;
  }

  const LIDAR_ADDRESS: bv8 := 0xC4
  const REGISTER_UPPER: bv8 := 0x0F
  const REGISTER_LOWER: bv8 := 0x10

  function Number(b: bv8): nat {
    b as nat
  }

  /** Neither of the two register reads, the first of them at falling edge f, is refused. */
  predicate BothAccepted(device: nat -> bool, f: nat) {
    ReadAccepted(device, f) && ReadAccepted(device, f + 38)
  }

  /** What read_registers puts on the bus after its first START, at falling edge f. */
  function RegistersRead(device: nat -> bool, f: nat): seq<Event> {
    var first := RegisterRead(device, f, LIDAR_ADDRESS, REGISTER_UPPER, 1, true);
    if !ReadAccepted(device, f) then first
    else
      var second := RegisterRead(device, f + 38, LIDAR_ADDRESS, REGISTER_LOWER, 1, true);
      first + [Stop, Start] + second + if ReadAccepted(device, f + 38) then [Stop] else []
  }

  /** An accepted register read, byte by byte: the device is addressed for writing, told the register, addressed for
      reading, and every byte it sends but the last is acknowledged, the last one if the read goes on. */
  lemma AcceptedRead(device: nat -> bool, f: nat, addr: bv8, reg: bv8, len: nat, endRead: bool)
    requires ReadAccepted(device, f)
    ensures var r := RegisterRead(device, f, addr, reg, len, endRead);
      && |r| == 4 + len && r[..4] == [Byte(addr, true), Byte(reg, true), Start, Byte(addr | 1, true)]
      && forall k | 0 <= k < len :: r[4 + k] == Byte(Sent(device, f + 28 + 9 * k), k < len - 1 || !endRead)
  {
    hide Sent, Reading;
    var four := [Byte(addr, true), Byte(reg, true), Start, Byte(addr | 1, true)];
    var rest := Reading(device, f + 28, len, len, endRead);
    assert RegisterRead(device, f, addr, reg, len, endRead) == four + rest;
    ReadingAt(device, f + 28, len, endRead);
    assert forall k | 0 <= k < len :: (four + rest)[4 + k] == rest[k];
  }

  lemma ReadingAt(device: nat -> bool, from: nat, len: nat, endRead: bool)
    ensures |Reading(device, from, len, len, endRead)| == len
    ensures forall k | 0 <= k < len ::
      Reading(device, from, len, len, endRead)[k] == Byte(Sent(device, from + 9 * k), k < len - 1 || !endRead)
  {
    hide Sent;
  }

  lemma OneRegister(device: nat -> bool, f: nat, reg: bv8)
    requires ReadAccepted(device, f)
    ensures RegisterRead(device, f, LIDAR_ADDRESS, reg, 1, true)
         == [Byte(196, true), Byte(reg, true), Start, Byte(197, true), Byte(Sent(device, f + 28), false)]
  {
    hide Sent, Reading;
    ReadingAt(device, f + 28, 1, true);
    var rest := Reading(device, f + 28, 1, 1, true);
    assert rest == [Byte(Sent(device, f + 28 + 9 * 0), false)];
    assert LIDAR_ADDRESS | 1 == 197;
  }

  /** The range finder's registers are 15, read first, and 16, and its address is 196, or 197 for reading. */
  lemma RangeHeard(device: nat -> bool, f: nat)
    requires BothAccepted(device, f)
    ensures RegistersRead(device, f)
         == [Byte(196, true), Byte(15, true), Start, Byte(197, true), Byte(Sent(device, f + 28), false), Stop, Start,
             Byte(196, true), Byte(16, true), Start, Byte(197, true), Byte(Sent(device, f + 66), false), Stop]
  {
    hide Sent, RegisterRead;
    OneRegister(device, f, REGISTER_UPPER);
    OneRegister(device, f + 38, REGISTER_LOWER);
  }

  lemma TwoReads(device: nat -> bool, f: nat, es: seq<Event>)
    ensures var first := RegisterRead(device, f, LIDAR_ADDRESS, REGISTER_UPPER, 1, true);
      var second := RegisterRead(device, f + 38, LIDAR_ADDRESS, REGISTER_LOWER, 1, true);
      var r := es + [Start] + RegistersRead(device, f);
      && (!ReadAccepted(device, f) ==> r == es + [Start] + first)
      && (ReadAccepted(device, f) && !ReadAccepted(device, f + 38) ==>
            r == es + [Start] + first + [Stop] + [Start] + second)
      && (ReadAccepted(device, f) && ReadAccepted(device, f + 38) ==>
            r == es + [Start] + first + [Stop] + [Start] + second + [Stop])
  {
    hide RegisterRead;
  }

  lemma NextSent(device: nat -> bool, from: nat, data: seq<bv8>, k: nat)
    requires k < |data|
    ensures Sending(device, from, data, 0) == [] && AckAt(device, from, k) == !device(from + 9 * k + 8)
    ensures Sending(device, from, data, k + 1)
         == Sending(device, from, data, k) + [Byte(data[k], !device(from + 9 * k + 8))]
  {
  }

  lemma RefusedAt(device: nat -> bool, from: nat, n: nat, m: nat)
    requires m <= n && (m < n ==> !AckAt(device, from, m)) && forall k | 0 <= k < m :: AckAt(device, from, k)
    ensures FirstRefused(device, from, n) == m
  {
  }

  function Reading(device: nat -> bool, from: nat, n: nat, len: nat, endRead: bool): (es: seq<Event>)
    ensures |es| == n
  {
    seq(n, k requires 0 <= k < n => Byte(Sent(device, from + 9 * k), k != len - 1 || !endRead))
  }

  predicate ReadAccepted(device: nat -> bool, f: nat) {
    !device(f + 8) && !device(f + 17) && !device(f + 27)
  }

  /** The whole register read, cut short after the first refused address. */
  function RegisterRead(device: nat -> bool, f: nat, addr: bv8, reg: bv8, len: nat, endRead: bool): seq<Event> {
    if device(f + 8) then [Byte(addr, false)]
    else if device(f + 17) then [Byte(addr, true), Byte(reg, false)]
    else if device(f + 27) then [Byte(addr, true), Byte(reg, true), Start, Byte(addr | 1, false)]
    else [Byte(addr, true), Byte(reg, true), Start, Byte(addr | 1, true)] + Reading(device, f + 28, len, len, endRead)
  }
}
