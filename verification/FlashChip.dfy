/** A serial configuration flash as its data sheet describes it: what it answers to each byte clocked in and
    what it does when chip select is released. */
module FlashChip {
  newtype Byte = x: int | 0 <= x < 256

  const WREN: Byte := 0x06
  const RDSR: Byte := 0x05
  const READ: Byte := 0x03
  const PP: Byte := 0x02
  const SE: Byte := 0xD8
  const RES: Byte := 0xAB
  const RDID: Byte := 0x9F
  const EN4B: Byte := 0xB7
  const DIS4B: Byte := 0xE9
  const PAGE: nat := 256

  /** mem: the array; sector: its erase unit; signature, id: what RES and RDID answer; floating: what the data
      line reads when the chip is not driving it; wipTimes(n): after how many status reads the n-th program or
      erase ends; four: 4-byte address mode; wel: write-enable latch; busy: status reads until the current
      program or erase ends; erased: the base addresses erased so far; cmd: the bytes of this transaction. */
  datatype Chip = Chip(mem: seq<Byte>, sector: nat, signature: Byte, id: seq<Byte>, floating: Byte,
                       wipTimes: nat -> nat, four: bool, wel: bool, busy: nat, jobs: nat, erased: seq<nat>,
                       selected: bool, cmd: seq<Byte>)

  ghost predicate Sound(c: Chip) {
    c.sector > 0 && |c.mem| > 0 && |c.id| == 3
  }

  function Value(b: Byte): (n: nat)
    ensures n < 256
  {
    b as int
  }

  /** The low eight bits. */
  function Low(n: nat): Byte {
    (n % 256) as Byte
  }

  lemma LowValue(n: nat)
    ensures Value(Low(n)) == n % 256
  {
  }

  function And(x: Byte, y: Byte): Byte {
    (x as bv8 & y as bv8) as Byte
  }

  lemma AndOnes(x: Byte)
    ensures And(x, 0xFF) == x && And(0xFF, x) == x
  {
  }

  /** Big-endian value of an address field. */
  function Big(bs: seq<Byte>): nat {
    if bs == [] then 0 else 256 * Big(bs[..|bs| - 1]) + Value(bs[|bs| - 1])
  }

  function AddressBytes(c: Chip): nat {
    if c.four then 4 else 3
  }

  function Address(c: Chip): nat
    requires |c.cmd| >= 1 + AddressBytes(c) && |c.mem| > 0
  {
    Big(c.cmd[1..1 + AddressBytes(c)]) % |c.mem|
  }

  function Status(c: Chip): Byte {
    if c.busy > 0 then (if c.wel then 3 else 1) else (if c.wel then 2 else 0)
  }

  /** Addresses wrap at the end of the memory. */
  function Cell(mem: seq<Byte>, a: nat): Byte
    requires |mem| > 0
  {
    mem[a % |mem|]
  }

  /** What the chip shifts out during the next byte. */
  function Reply(c: Chip): Byte
    requires Sound(c)
  {
    var n := |c.cmd|;
    if n == 0 then c.floating
    else if c.cmd[0] == RDSR then Status(c)
    else if c.busy > 0 then c.floating
    else if c.cmd[0] == READ && n >= 1 + AddressBytes(c) then
      Cell(c.mem, Address(c) + (n - 1 - AddressBytes(c)))
    else if c.cmd[0] == RES && n >= 4 then c.signature
    else if c.cmd[0] == RDID then c.id[(n - 1) % 3]
    else c.floating
  }

  function Select(c: Chip): Chip {
    if c.selected then c else c.(selected := true, cmd := [])
  }

  /** Clocks one byte in; a status read brings the end of a program or erase nearer. */
  function Clock(c: Chip, b: Byte): Chip {
    c.(cmd := c.cmd + [b], busy := if c.cmd != [] && c.cmd[0] == RDSR && c.busy > 0 then c.busy - 1 else c.busy)
  }

  /** Starts the internal work of a program or erase, which clears the latch. */
  function Begin(c: Chip): Chip {
    c.(wel := false, busy := c.wipTimes(c.jobs), jobs := c.jobs + 1)
  }

  /** The number of the unit of this size that address a lies in. */
  function BlockOf(a: nat, size: nat): nat
    requires size > 0
  {
    a / size
  }

  /** Where unit number b starts. */
  function Base(b: nat, size: nat): nat {
    b * size
  }

  /** Sector erase: every byte of a's sector becomes 0xFF. */
  function Erase(mem: seq<Byte>, sector: nat, a: nat): (r: seq<Byte>)
    requires sector > 0
    ensures |r| == |mem|
  {
    seq(|mem|, i requires 0 <= i < |mem| => if BlockOf(i, sector) == BlockOf(a, sector) then 0xFF else mem[i])
  }

  /** Byte j of the page buffer: the last of the data bytes that wrapped onto it, else all ones. */
  function Latched(start: nat, data: seq<Byte>, j: nat): Byte {
    if data == [] then 0xFF
    else if (start + (|data| - 1)) % PAGE == j then data[|data| - 1]
    else Latched(start, data[..|data| - 1], j)
  }

  /** Page program: bits of a's page can only be cleared, and the address wraps within the page. */
  function Program(mem: seq<Byte>, a: nat, data: seq<Byte>): (r: seq<Byte>)
    ensures |r| == |mem|
  {
    seq(|mem|, i requires 0 <= i < |mem| =>
      if i / PAGE == a / PAGE then And(mem[i], Latched(a % PAGE, data, i % PAGE)) else mem[i])
  }

  /** Releases chip select: the command received takes effect, unless the chip is busy. */
  function Deselect(c: Chip): Chip
    requires Sound(c)
  {
    var r := c.(selected := false, cmd := []);
    var n := AddressBytes(c);
    if !c.selected || c.busy > 0 || c.cmd == [] then r
    else if c.cmd == [WREN] then r.(wel := true)
    else if !c.wel then r
    else if c.cmd == [EN4B] then r.(four := true, wel := false)
    else if c.cmd == [DIS4B] then r.(four := false, wel := false)
    else if c.cmd[0] == SE && |c.cmd| == 1 + n then
      Begin(r.(mem := Erase(c.mem, c.sector, Address(c)),
               erased := c.erased + [Base(BlockOf(Address(c), c.sector), c.sector)]))
    else if c.cmd[0] == PP && |c.cmd| > 1 + n then
      Begin(r.(mem := Program(c.mem, Address(c), c.cmd[1 + n..])))
    else r
  }

  /** A run of bytes clocked in, with the bytes clocked out meanwhile. */
  function Feed(c: Chip, bs: seq<Byte>): (r: (Chip, seq<Byte>))
    requires Sound(c)
    ensures Sound(r.0) && |r.1| == |bs| && r.0.selected == c.selected && r.0.cmd == c.cmd + bs
  {
    if bs == [] then (c, [])
    else
      var r := Feed(c, bs[..|bs| - 1]);
      assert bs == bs[..|bs| - 1] + [bs[|bs| - 1]];
      (Clock(r.0, bs[|bs| - 1]), r.1 + [Reply(r.0)])
  }

  lemma FeedStep(c: Chip, bs: seq<Byte>, n: nat)
    requires Sound(c) && n < |bs|
    ensures var r := Feed(c, bs[..n]);
      Feed(c, bs[..n + 1]) == (Clock(r.0, bs[n]), r.1 + [Reply(r.0)])
  {
    assert bs[..n + 1][..n] == bs[..n];
  }

  /** A command other than a status read only collects its bytes until chip select is released. */
  lemma {:induction false} FeedCollects(c: Chip, bs: seq<Byte>)
    requires Sound(c) && c.cmd + bs != [] && (c.cmd + bs)[0] != RDSR
    ensures Feed(c, bs).0 == c.(cmd := c.cmd + bs)
    decreases |bs|
  {
    hide Sound, Reply;
    if bs != [] {
      var init := bs[..|bs| - 1];
      assert c.cmd + bs == (c.cmd + init) + [bs[|bs| - 1]];
      if c.cmd + init != [] {
        FeedCollects(c, init);
      } else {
        assert init == [];
      }
    }
  }

  /** The i-th byte clocked out answers the bytes before it. */
  lemma {:induction false} FeedReplies(c: Chip, bs: seq<Byte>, i: nat)
    requires Sound(c) && i < |bs|
    ensures Feed(c, bs).1[i] == Reply(Feed(c, bs[..i]).0)
    decreases |bs|
  {
    hide Sound, Reply, Clock;
    if i < |bs| - 1 {
      FeedReplies(c, bs[..|bs| - 1], i);
      assert bs[..|bs| - 1][..i] == bs[..i];
    }
  }

  lemma FeedNone(c: Chip)
    requires Sound(c)
    ensures Feed(c, []) == (c, [])
  {
  }

  /** The two bytes of a status transaction: only the second, clocked after the command, counts the work down. */
  lemma StatusClocks(c: Chip)
    requires c.cmd == []
    ensures Clock(c, RDSR) == c.(cmd := [RDSR])
    ensures Clock(c.(cmd := [RDSR]), 0) == c.(cmd := [RDSR, 0], busy := if c.busy > 0 then c.busy - 1 else 0)
  {
  }

  /** One status transaction. */
  lemma FeedStatus(c: Chip)
    requires Sound(c) && c.cmd == []
    ensures var r := Feed(c, [RDSR, 0]);
      && r.0 == c.(cmd := [RDSR, 0], busy := if c.busy > 0 then c.busy - 1 else 0)
      && r.1 == [c.floating, Status(c)]
  {
    hide Feed, Clock, Reply, Status;
    var bs: seq<Byte> := [RDSR, 0];
    assert bs[..0] == [] && bs[..1] == [RDSR] && bs[..2] == bs;
    FeedNone(c);
    FeedStep(c, bs, 0);
    FeedStep(c, bs, 1);
    StatusClocks(c);
    StatusReply(c);
  }

  lemma StatusReply(c: Chip)
    requires Sound(c) && c.cmd == []
    ensures Reply(c) == c.floating && Reply(c.(cmd := [RDSR])) == Status(c)
  {
  }

  /** Feeding in two parts is feeding the whole. */
  lemma {:induction false} FeedAppend(c: Chip, a: seq<Byte>, b: seq<Byte>)
    requires Sound(c)
    ensures Feed(c, a + b).0 == Feed(Feed(c, a).0, b).0
    decreases |b|
  {
    if b == [] {
      assert a + b == a;
    } else {
      var init := b[..|b| - 1];
      assert (a + b)[..|a + b| - 1] == a + init;
      FeedAppend(c, a, init);
    }
  }

  /** A byte of the page buffer when the data does not wrap. */
  lemma {:induction false} LatchedStraight(start: nat, data: seq<Byte>, j: nat)
    requires start + |data| <= PAGE && j < PAGE
    ensures Latched(start, data, j) == if start <= j < start + |data| then data[j - start] else 0xFF
    decreases |data|
  {
    if data != [] {
      LatchedStraight(start, data[..|data| - 1], j);
      assert (start + (|data| - 1)) % PAGE == start + (|data| - 1);
    }
  }

  lemma SamePage(a: nat, n: nat, i: nat)
    requires a % PAGE + n <= PAGE
    ensures a <= i < a + n ==> i / PAGE == a / PAGE
    ensures i / PAGE == a / PAGE ==>
      (a <= i < a + n <==> a % PAGE <= i % PAGE < a % PAGE + n) && i - a == i % PAGE - a % PAGE
  {
  }

  /** Programming within one page clears bits of exactly the addressed bytes. */
  lemma ProgramStraight(mem: seq<Byte>, a: nat, data: seq<Byte>)
    requires a % PAGE + |data| <= PAGE && a + |data| <= |mem|
    ensures var r := Program(mem, a, data);
      && |r| == |mem|
      && forall i | 0 <= i < |mem| :: r[i] == if a <= i < a + |data| then And(mem[i], data[i - a]) else mem[i]
  {
    hide And;
    var r := Program(mem, a, data);
    forall i | 0 <= i < |mem| ensures r[i] == if a <= i < a + |data| then And(mem[i], data[i - a]) else mem[i] {
      SamePage(a, |data|, i);
      LatchedStraight(a % PAGE, data, i % PAGE);
      AndOnes(mem[i]);
    }
  }
}
