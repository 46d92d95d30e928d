/** The flash commands: each is proved to perform one abstract operation on the chip's memory and to leave the
    chip idle and in 3-byte mode. */
module Epcs {
  import opened FlashChip
  import opened SpiMaster

  // The command bytes as the driver's header has them.
  const EPCS_WREN: Byte := 0x06
  const EPCS_RDSR: Byte := 0x05
  const EPCS_READ: Byte := 0x03
  const EPCS_PP: Byte := 0x02
  const EPCS_SE: Byte := 0xD8
  const EPCS_RES: Byte := 0xAB
  const EPCS_RDID: Byte := 0x9F
  const EPCS_EN4B: Byte := 0xB7
  const EPCS_DIS4B: Byte := 0xE9

  /** Deselected, not busy, 3-byte addresses: how every operation finds and leaves the chip. */
  ghost predicate AtRest(s: Spi)
    reads s
  {
    s.Idle() && Resting(s.chip)
  }

  ghost predicate Resting(c: Chip) {
    !c.selected && c.cmd == [] && c.busy == 0 && !c.four
  }

  /** The address bytes an operation sends: most significant first, four of them in 4-byte mode. */
  function Encode(offset: nat, four: bool): (bs: seq<Byte>)
    ensures |bs| == if four then 4 else 3
  {
    if four then [Low(offset / 0x1000000), Low(offset / 0x10000), Low(offset / 0x100), Low(offset)]
    else [Low(offset / 0x10000), Low(offset / 0x100), Low(offset)]
  }

  /** The addresses a device of this size and mode may be given are exactly representable. */
  ghost predicate Fits(size: nat, four: bool) {
    size <= if four then 0x1_0000_0000 else 0x100_0000
  }

  lemma BigThree(b: seq<Byte>)
    requires |b| == 3
    ensures Big(b) == 0x10000 * Value(b[0]) + 0x100 * Value(b[1]) + Value(b[2])
  {
    assert b[..2][..1] == [b[0]] && b[..2] == [b[0], b[1]];
    assert Big([b[0]]) == Value(b[0]) by { assert [b[0]][..0] == []; }
  }

  lemma BigFour(b: seq<Byte>)
    requires |b| == 4
    ensures Big(b) == 0x1000000 * Value(b[0]) + 0x10000 * Value(b[1]) + 0x100 * Value(b[2]) + Value(b[3])
  {
    BigThree(b[..3]);
  }

  lemma ThreeBytes(n: nat)
    ensures Big(Encode(n, false)) == n % 0x100_0000
  {
    hide Big, Low;
    BigThree(Encode(n, false));
    LowValue(n);
    LowValue(n / 0x100);
    LowValue(n / 0x10000);
    Split(n);
  }

  lemma FourBytes(n: nat)
    ensures Big(Encode(n, true)) == n % 0x1_0000_0000
  {
    hide Big, Low;
    BigFour(Encode(n, true));
    LowValue(n);
    LowValue(n / 0x100);
    LowValue(n / 0x10000);
    LowValue(n / 0x1000000);
    Split(n / 0x100);
    SplitByte(n);
  }

  lemma Split(n: nat)
    ensures n / 0x100 / 0x100 == n / 0x10000
    ensures n % 0x1000000 == 0x10000 * (n / 0x10000 % 0x100) + 0x100 * (n / 0x100 % 0x100) + n % 0x100
  {
  }

  lemma SplitByte(n: nat)
    ensures n / 0x100 / 0x10000 == n / 0x1000000
    ensures n % 0x1_0000_0000 == 0x100 * (n / 0x100 % 0x1000000) + n % 0x100
  {
    var q := n / 0x100;
    ModOf(n, q / 0x1000000, 0x100 * (q % 0x1000000) + n % 0x100);
  }

  lemma ModOf(n: nat, k: nat, r: nat)
    requires n == 0x1_0000_0000 * k + r && r < 0x1_0000_0000
    ensures n % 0x1_0000_0000 == r
  {
  }

  function Field(four: bool): nat {
    if four then 0x1_0000_0000 else 0x100_0000
  }

  /** Where a device of this size goes for an offset: the address field drops the high bits, and the device wraps
      what is left. */
  function Seen(offset: nat, size: nat, four: bool): (a: nat)
    requires size > 0
    ensures a < size
  {
    offset % Field(four) % size
  }

  lemma SeenInside(offset: nat, size: nat, four: bool)
    requires Fits(size, four) && offset < size
    ensures Seen(offset, size, four) == offset
  {
    SmallMod(offset, Field(four));
    SmallMod(offset, size);
  }

  /** The chip decodes exactly the offset that was encoded if and only if the offset fits the field. */
  lemma EncodingLossless(offset: nat, four: bool)
    ensures Big(Encode(offset, four)) == offset <==> Fits(offset + 1, four)
  {
    hide Big, Encode;
    if four {
      FourBytes(offset);
    } else {
      ThreeBytes(offset);
    }
  }

  // ----- single transactions -----

  ghost predicate Quiet(c: Chip) {
    Sound(c) && !c.selected && c.cmd == []
  }

  /** The chip after one whole transaction. */
  ghost function After(c: Chip, bs: seq<Byte>): Chip
    requires Sound(c)
  {
    Deselect(Feed(Select(c), bs).0)
  }

  lemma Collected(c: Chip, bs: seq<Byte>)
    requires Quiet(c) && bs != [] && bs[0] != RDSR
    ensures After(c, bs) == Deselect(c.(selected := true, cmd := bs))
  {
    FeedCollects(Select(c), bs);
    assert [] + bs == bs;
  }

  lemma OneByteCommands(c: Chip)
    requires Quiet(c) && c.busy == 0
    ensures After(c, [WREN]) == c.(wel := true)
    ensures c.wel ==> After(c, [EN4B]) == c.(four := true, wel := false)
    ensures c.wel ==> After(c, [DIS4B]) == c.(four := false, wel := false)
  {
    Collected(c, [WREN]);
    Collected(c, [EN4B]);
    Collected(c, [DIS4B]);
  }

  lemma AddressOf(c: Chip, op: Byte, offset: nat, rest: seq<Byte>)
    requires c.cmd == [op] + Encode(offset, c.four) + rest && |c.mem| > 0
    ensures |c.cmd| >= 1 + AddressBytes(c) && Address(c) == Seen(offset, |c.mem|, c.four)
    ensures c.cmd[1 + AddressBytes(c)..] == rest
  {
    hide Big, Encode;
    var n := AddressBytes(c);
    assert c.cmd[1..1 + n] == Encode(offset, c.four);
    if c.four {
      FourBytes(offset);
    } else {
      ThreeBytes(offset);
    }
  }

  lemma SmallMod(a: nat, m: nat)
    requires a < m
    ensures a % m == a
  {
  }

  /** The effect of a completed program or erase that changes the array to mem. */
  function Done(c: Chip, mem: seq<Byte>): Chip {
    c.(mem := mem, wel := false, busy := c.wipTimes(c.jobs), jobs := c.jobs + 1)
  }

  function Logged(c: Chip, base: nat): Chip {
    c.(erased := c.erased + [base])
  }

  lemma EraseCommand(c: Chip, offset: nat)
    requires Quiet(c) && c.busy == 0 && c.wel
    ensures var a := Seen(offset, |c.mem|, c.four);
      After(c, [SE] + Encode(offset, c.four))
      == Logged(Done(c, Erase(c.mem, c.sector, a)), Base(BlockOf(a, c.sector), c.sector))
  {
    hide Erase, Encode, Address, Seen, Base, BlockOf;
    var bs := [SE] + Encode(offset, c.four);
    Collected(c, bs);
    assert bs + [] == bs;
    AddressOf(c.(selected := true, cmd := bs), SE, offset, []);
  }

  lemma ProgramCommand(c: Chip, offset: nat, data: seq<Byte>)
    requires Quiet(c) && c.busy == 0 && c.wel && data != []
    ensures After(c, [PP] + Encode(offset, c.four) + data)
         == Done(c, Program(c.mem, Seen(offset, |c.mem|, c.four), data))
  {
    hide Program, Encode, Address, Seen;
    var bs := [PP] + Encode(offset, c.four) + data;
    Collected(c, bs);
    AddressOf(c.(selected := true, cmd := bs), PP, offset, data);
  }

  lemma ReadReply(c: Chip, offset: nat, zeros: seq<Byte>)
    requires Sound(c) && c.busy == 0 && c.cmd == [READ] + Encode(offset, c.four) + zeros
    ensures Reply(c) == Cell(c.mem, Seen(offset, |c.mem|, c.four) + |zeros|)
  {
    hide Encode, Address, Cell, Seen;
    AddressOf(c, READ, offset, zeros);
  }

  lemma ReadCommand(c: Chip, offset: nat, n: nat)
    requires Quiet(c) && c.busy == 0
    ensures var head := [READ] + Encode(offset, c.four); var bs := head + Zeros(n);
      && After(c, bs) == c
      && Feed(Select(c), bs).1[|head|..]
         == seq(n, i requires 0 <= i < n => Cell(c.mem, Seen(offset, |c.mem|, c.four) + i))
  {
    hide Encode, Address, Reply, Cell, Feed, Seen;
    var head := [READ] + Encode(offset, c.four);
    var bs := head + Zeros(n);
    Collected(c, bs);
    var c1 := Select(c);
    var out := Feed(c1, bs).1[|head|..];
    forall i | 0 <= i < n ensures out[i] == Cell(c.mem, Seen(offset, |c.mem|, c.four) + i) {
      FeedReplies(c1, bs, |head| + i);
      assert bs[..|head| + i] == head + Zeros(n)[..i];
      FeedCollects(c1, bs[..|head| + i]);
      ReadReply(c1.(cmd := [] + bs[..|head| + i]), offset, Zeros(n)[..i]);
    }
  }

  // ----- commands -----

  method ReadStatusRegister(s: Spi) returns (status: Byte)
    requires s.Idle() && Quiet(s.chip)
    modifies s
    ensures s.Idle() && status == Status(old(s.chip))
    ensures s.chip == old(s.chip).(busy := if old(s.chip).busy > 0 then old(s.chip).busy - 1 else 0)
  {
    StatusCommand(s.chip);
    var buf := new Byte[1];
    s.Command([EPCS_RDSR], 1, buf, false);
    status := buf[..1][0];
  }

  lemma StatusCommand(c: Chip)
    requires Quiet(c)
    ensures var bs := [RDSR] + Zeros(1);
      && After(c, bs) == c.(busy := if c.busy > 0 then c.busy - 1 else 0)
      && Feed(Select(c), bs).1[1] == Status(c)
  {
    assert [RDSR] + Zeros(1) == [RDSR, 0];
    FeedStatus(Select(c));
  }

  /** epcs_await_wip_released. */
  method AwaitWipReleased(s: Spi)
    requires s.Idle() && Quiet(s.chip)
    modifies s
    ensures s.Idle() && s.chip == old(s.chip).(busy := 0)
  {
    var status := ReadStatusRegister(s);
    while status % 2 == 1
      invariant s.Idle() && s.chip == old(s.chip).(busy := s.chip.busy)
      invariant status % 2 == 0 ==> s.chip.busy == 0
      decreases s.chip.busy + if status % 2 == 1 then 1 else 0
    {
      status := ReadStatusRegister(s);
    }
  }

  method SendOne(s: Spi, op: Byte)
    requires s.Idle() && Quiet(s.chip)
    modifies s
    ensures s.Idle() && s.chip == After(old(s.chip), [op])
  {
    hide Deselect, Feed, Select;
    assert [op] + Zeros(0) == [op];
    var none := new Byte[0];
    s.Command([op], 0, none, false);
  }

  method WriteEnable(s: Spi)
    requires s.Idle() && Quiet(s.chip) && s.chip.busy == 0
    modifies s
    ensures s.Idle() && s.chip == old(s.chip).(wel := true)
  {
    hide After;
    OneByteCommands(s.chip);
    SendOne(s, EPCS_WREN);
  }

  method Enter4BytesMode(s: Spi)
    requires s.Idle() && Quiet(s.chip) && s.chip.busy == 0
    modifies s
    ensures s.Idle() && s.chip == old(s.chip).(four := true, wel := false)
  {
    hide After;
    WriteEnable(s);
    OneByteCommands(s.chip);
    SendOne(s, EPCS_EN4B);
  }

  method Exit4BytesMode(s: Spi)
    requires s.Idle() && Quiet(s.chip) && s.chip.busy == 0
    modifies s
    ensures s.Idle() && s.chip == old(s.chip).(four := false, wel := false)
  {
    hide After;
    WriteEnable(s);
    OneByteCommands(s.chip);
    SendOne(s, EPCS_DIS4B);
  }

  /** The command array all three operations fill. */
  method FillCommand(cmd: array<Byte>, op: Byte, offset: nat, four: bool) returns (len: nat)
    requires cmd.Length == 5
    modifies cmd
    ensures len <= 5 && cmd[..len] == [op] + Encode(offset, four)
  {
    cmd[0] := op;
    if four {
      cmd[1] := Low(offset / 0x1000000);
      cmd[2] := Low(offset / 0x10000);
      cmd[3] := Low(offset / 0x100);
      cmd[4] := Low(offset);
      len := 5;
    } else {
      cmd[1] := Low(offset / 0x10000);
      cmd[2] := Low(offset / 0x100);
      cmd[3] := Low(offset);
      len := 4;
    }
  }

  /** epcs_sector_erase: the sector the chip finds the offset in, and nothing else, becomes all ones. */
  method SectorErase(s: Spi, offset: nat, four: bool)
    requires AtRest(s)
    modifies s
    ensures AtRest(s)
    ensures var c := old(s.chip); var a := Seen(offset, |c.mem|, four);
      s.chip == c.(mem := Erase(c.mem, c.sector, a), wel := false, jobs := c.jobs + 1,
                   erased := c.erased + [Base(BlockOf(a, c.sector), c.sector)])
  {
    hide After, Erase, Encode, Seen, Base, BlockOf;
    var se := new Byte[5];
    var len := FillCommand(se, EPCS_SE, offset, four);
    if four {
      Enter4BytesMode(s);
    }
    WriteEnable(s);
    EraseCommand(s.chip, offset);
    var none := new Byte[0];
    SendAll(s, se[..len]);
    AwaitWipReleased(s);
    if four {
      Exit4BytesMode(s);
    }
  }

  method SendAll(s: Spi, bs: seq<Byte>)
    requires s.Idle() && Quiet(s.chip) && bs != []
    modifies s
    ensures s.Idle() && s.chip == After(old(s.chip), bs)
  {
    hide Deselect, Feed, Select;
    assert bs + Zeros(0) == bs;
    var none := new Byte[0];
    s.Command(bs, 0, none, false);
  }

  /** epcs_read_buffer: dest receives the bytes from offset on, wrapping at the end of the memory. */
  method ReadBuffer(s: Spi, offset: nat, dest: array<Byte>, length: nat, four: bool) returns (n: nat)
    requires AtRest(s) && length <= dest.Length
    modifies s, dest
    ensures AtRest(s) && n == length
    ensures s.chip == if four then old(s.chip).(wel := false) else old(s.chip)
    ensures forall i | 0 <= i < length :: dest[i] == Cell(s.chip.mem, Seen(offset, |s.chip.mem|, four) + i)
    ensures forall i | length <= i < dest.Length :: dest[i] == old(dest[i])
  {
    hide Encode, Deselect, Feed, Select, Seen;
    var cmd := new Byte[5];
    var len := FillCommand(cmd, EPCS_READ, offset, four);
    if four {
      Enter4BytesMode(s);
    }
    AwaitWipReleased(s);
    ReadCommand(s.chip, offset, length);
    s.Command(cmd[..len], length, dest, false);
    assert forall i | 0 <= i < length :: dest[i] == dest[..length][i];
    if four {
      Exit4BytesMode(s);
    }
    return length;
  }

  /** epcs_write_buffer: command and data reach the chip as one page-program transaction. */
  method WriteBuffer(s: Spi, offset: nat, src: seq<Byte>, four: bool) returns (n: nat)
    requires AtRest(s) && src != []
    modifies s
    ensures AtRest(s) && n == |src|
    ensures var c := old(s.chip);
      s.chip == c.(mem := Program(c.mem, Seen(offset, |c.mem|, four), src), wel := false, jobs := c.jobs + 1)
  {
    hide After, Program, Encode, Seen;
    var pp := new Byte[5];
    var len := FillCommand(pp, EPCS_PP, offset, four);
    if four {
      Enter4BytesMode(s);
    }
    WriteEnable(s);
    ProgramCommand(s.chip, offset, src);
    SendMerged(s, pp[..len], src);
    AwaitWipReleased(s);
    if four {
      Exit4BytesMode(s);
    }
    return |src|;
  }

  /** Two calls of the SPI driver, the first with the merge flag, are one transaction. */
  method SendMerged(s: Spi, a: seq<Byte>, b: seq<Byte>)
    requires s.Idle() && Quiet(s.chip) && a != [] && b != []
    modifies s
    ensures s.Idle() && s.chip == After(old(s.chip), a + b)
  {
    hide Deselect, Feed;
    assert a + Zeros(0) == a && b + Zeros(0) == b;
    var none := new Byte[0];
    ghost var c := Select(s.chip);
    s.Command(a, 0, none, true);
    FeedAppend(c, a, b);
    s.Command(b, 0, none, false);
  }

  /** epcs_read_electronic_signature. */
  method ReadElectronicSignature(s: Spi) returns (res: nat)
    requires AtRest(s)
    modifies s
    ensures AtRest(s) && s.chip == old(s.chip) && res == Value(s.chip.signature)
  {
    hide Deselect, Feed, Select;
    SignatureReply(s.chip);
    var buf := new Byte[1];
    s.Command([EPCS_RES, 0, 0, 0], 1, buf, false);
    res := Value(buf[..1][0]);
  }

  lemma SignatureReply(c: Chip)
    requires Quiet(c) && c.busy == 0
    ensures var bs := [RES, 0, 0, 0] + Zeros(1); After(c, bs) == c && Feed(Select(c), bs).1[4] == c.signature
  {
    hide Feed;
    var bs := [RES, 0, 0, 0] + Zeros(1);
    Collected(c, bs);
    FeedReplies(Select(c), bs, 4);
    FeedCollects(Select(c), bs[..4]);
  }

  /** epcs_read_device_id. */
  method ReadDeviceId(s: Spi) returns (id: nat)
    requires AtRest(s)
    modifies s
    ensures AtRest(s) && s.chip == old(s.chip) && id == Big(s.chip.id)
  {
    hide Deselect, Feed, Select, Big;
    DeviceIdReply(s.chip);
    var buf := new Byte[3];
    s.Command([EPCS_RDID], 3, buf, false);
    assert buf[..3] == s.chip.id;
    BigThree(buf[..3]);
    id := 0x10000 * Value(buf[0]) + 0x100 * Value(buf[1]) + Value(buf[2]);
  }

  lemma DeviceIdReply(c: Chip)
    requires Quiet(c) && c.busy == 0
    ensures var bs := [RDID] + Zeros(3); After(c, bs) == c && Feed(Select(c), bs).1[1..] == c.id
  {
    hide Feed;
    var bs := [RDID] + Zeros(3);
    Collected(c, bs);
    var out := Feed(Select(c), bs).1[1..];
    forall i | 0 <= i < 3 ensures out[i] == c.id[i] {
      FeedReplies(Select(c), bs, i + 1);
      FeedCollects(Select(c), bs[..i + 1]);
    }
  }
}
