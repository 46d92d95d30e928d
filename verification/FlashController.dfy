/** The flash device driver over the command layer: geometry query, compare, erase, page-split block writes and
    the user-level write, with what each does to the chip's memory. */
module FlashController {
  import opened Options
  import opened FlashChip
  import opened SpiMaster
  import opened Epcs

  const EIO: int := 5
  const ENODEV: int := 19
  const CHUNK: nat := 32

  /** One erase-block region, as alt_epcs_flash_query fills it in. */
  datatype Geometry = Geometry(regionSize: nat, numberOfBlocks: nat, blockSize: nat, fourBytes: bool)

  /** The devices the driver knows, by electronic signature or by device id. */
  function Table(signature: Byte, id: seq<Byte>): Option<Geometry>
    requires |id| == 3
  {
    if signature == 0x16 then Some(Geometry(8388608, 128, 65536, false))
    else if signature == 0x14 then Some(Geometry(2097152, 32, 65536, false))
    else if signature == 0x13 then Some(Geometry(1048576, 16, 65536, false))
    else if signature == 0x12 then Some(Geometry(524288, 8, 65536, false))
    else if signature == 0x10 then Some(Geometry(131072, 4, 32768, false))
    else if id == [0x20, 0xBA, 0x18] then Some(Geometry(16777216, 256, 65536, false))
    else if id[2] == 0x18 then Some(Geometry(16777216, 64, 262144, false))
    else if id[2] == 0x19 then Some(Geometry(33554432, 512, 65536, true))
    else None
  }

  /** What the driver relies on: blocks tile the device, pages tile the blocks, and addresses fit their field. */
  ghost predicate Sane(g: Geometry) {
    && g.blockSize > 0 && g.numberOfBlocks > 0 && g.numberOfBlocks * g.blockSize == g.regionSize
    && g.blockSize % PAGE == 0 && g.regionSize % PAGE == 0
    && Fits(g.regionSize, g.fourBytes) && Field(g.fourBytes) % g.regionSize == 0 && g.regionSize < 0x8000_0000
  }

  lemma TableGeometry(signature: Byte, id: seq<Byte>)
    requires |id| == 3
    ensures Table(signature, id).Some? ==> Sane(Table(signature, id).value)
  {
  }

  /** Every device the query accepts has a tiling geometry and, in its address mode, lossless addresses. */
  lemma TableSane(signature: Byte, id: seq<Byte>)
    requires |id| == 3
    ensures Table(signature, id).Some? ==>
      && Sane(Table(signature, id).value)
      && forall a | 0 <= a < Table(signature, id).value.regionSize ::
           Big(Encode(a, Table(signature, id).value.fourBytes)) == a
  {
    hide Big, Encode, Table, Field;
    TableGeometry(signature, id);
    if Table(signature, id).Some? {
      var g := Table(signature, id).value;
      forall a | 0 <= a < g.regionSize ensures Big(Encode(a, g.fourBytes)) == a {
        EncodingLossless(a, g.fourBytes);
      }
    }
  }

  function Pow2(n: nat): nat {
    if n == 0 then 1 else 2 * Pow2(n - 1)
  }

  // The families as their data sheets have them: the density code is the binary logarithm of the size in bytes, given
  // by the last byte of the device id or, one less, by the electronic signature of the older devices.

  /** EPCS1, EPCS4, EPCS8, EPCS16 and EPCS64: 64 KB sectors, the smallest device 32 KB ones. */
  ghost predicate SignatureFamily(c: Chip) {
    && c.signature in {0x10, 0x12, 0x13, 0x14, 0x16} && |c.mem| == Pow2(Value(c.signature) + 1)
    && c.sector == if |c.mem| == Pow2(17) then Pow2(15) else Pow2(16)
  }

  /** EPCS128, EPCQ128 and EPCQ256, which answer no known signature: 64 KB sectors, the EPCS128 256 KB ones. */
  ghost predicate DeviceIdFamily(c: Chip)
    requires |c.id| == 3
  {
    && c.signature !in {0x10, 0x12, 0x13, 0x14, 0x16} && c.id[2] in {0x18, 0x19} && |c.mem| == Pow2(Value(c.id[2]))
    && c.sector == if c.id[2] == 0x18 && (c.id[0] != 0x20 || c.id[1] != 0xBA) then Pow2(18) else Pow2(16)
  }

  lemma Powers()
    ensures Pow2(15) == 32768 && Pow2(16) == 65536 && Pow2(17) == 131072 && Pow2(18) == 262144
    ensures Pow2(19) == 524288 && Pow2(20) == 1048576 && Pow2(21) == 2097152 && Pow2(23) == 8388608
    ensures Pow2(24) == 16777216 && Pow2(25) == 33554432
  {
    assert Pow2(10) == 1024;
    assert Pow2(20) == 1048576;
  }

  /** The table holds exactly the devices of the two families, each with its own size and sector, and uses 4-byte
      addresses exactly where three bytes do not reach. */
  lemma TableIsFamilies(c: Chip)
    requires |c.id| == 3
    ensures Table(c.signature, c.id).Some? <==>
      c.signature in {0x10, 0x12, 0x13, 0x14, 0x16} || c.id[2] in {0x18, 0x19}
    ensures SignatureFamily(c) || DeviceIdFamily(c) <==>
      var t := Table(c.signature, c.id);
      t.Some? && t.value.regionSize == |c.mem| && t.value.blockSize == c.sector
    ensures Table(c.signature, c.id).Some? ==>
      var g := Table(c.signature, c.id).value; g.fourBytes <==> g.regionSize > Pow2(24)
  {
    Powers();
  }

  /** An int handed to an unsigned 32-bit comparison. */
  function U32(n: int): nat {
    n % 0x1_0000_0000
  }

  predicate IsInt(n: int) {
    -0x8000_0000 <= n < 0x8000_0000
  }

  /** The C library's memcmp. */
  function Memcmp(a: seq<Byte>, b: seq<Byte>): (d: int)
    requires |a| == |b|
    ensures d == 0 <==> a == b
  {
    if a == [] then 0
    else if a[0] != b[0] then a[0] as int - b[0] as int
    else
      assert a == [a[0]] + a[1..] && b == [b[0]] + b[1..];
      Memcmp(a[1..], b[1..])
  }

  // ----- specification of a write -----

  lemma BaseStep(b: nat, size: nat)
    ensures Base(b + 1, size) == Base(b, size) + size && Base(0, size) == 0
  {
  }

  lemma BaseMonotone(b: nat, n: nat, size: nat)
    requires b <= n
    ensures Base(b, size) <= Base(n, size)
  {
  }

  lemma InBlock(a: nat, b: nat, size: nat)
    requires size > 0
    ensures BlockOf(a, size) == b <==> Base(b, size) <= a < Base(b, size) + size
  {
    if Base(b, size) <= a < Base(b, size) + size {
      Quotient(a, b, size);
    }
  }

  lemma Quotient(a: nat, b: nat, size: nat)
    requires size > 0 && b * size <= a < b * size + size
    ensures a / size == b
  {
    var q := a / size;
    if q < b {
      Times(q + 1, b, size);
      assert false;
    } else if q > b {
      Times(b + 1, q, size);
      assert false;
    }
  }

  lemma Times(x: nat, y: nat, size: nat)
    requires x <= y
    ensures x * size <= y * size
  {
  }

  /** Some byte the write puts between lo and hi differs from what the memory holds. */
  ghost predicate Differs(mem: seq<Byte>, lo: nat, hi: nat, off: nat, src: seq<Byte>) {
    exists a | lo <= a < hi && off <= a < off + |src| && a < |mem| :: mem[a] != src[a - off]
  }

  /** What address a holds after a write: the source inside the range; ones elsewhere in a block that had to be
      erased; what it held before everywhere else. */
  ghost function WrittenAt(mem: seq<Byte>, size: nat, off: nat, src: seq<Byte>, a: nat): Byte
    requires size > 0 && a < |mem|
  {
    if off <= a < off + |src| then src[a - off]
    else if Differs(mem, Base(BlockOf(a, size), size), Base(BlockOf(a, size), size) + size, off, src) then 0xFF
    else mem[a]
  }

  ghost predicate IsWritten(mem: seq<Byte>, mem': seq<Byte>, size: nat, off: nat, src: seq<Byte>)
    requires size > 0
  {
    |mem'| == |mem| && forall a | 0 <= a < |mem| :: mem'[a] == WrittenAt(mem, size, off, src, a)
  }

  /** The blocks among the first n that are erased, in order. */
  ghost function Erasures(mem: seq<Byte>, size: nat, off: nat, src: seq<Byte>, n: nat): seq<nat> {
    if n == 0 then []
    else
      Erasures(mem, size, off, src, n - 1)
      + if Differs(mem, Base(n - 1, size), Base(n - 1, size) + size, off, src) then [Base(n - 1, size)] else []
  }

  lemma {:induction false} NoFurtherErasures(mem: seq<Byte>, size: nat, off: nat, src: seq<Byte>, k: nat, n: nat)
    requires k <= n && off + |src| <= Base(k, size)
    ensures Erasures(mem, size, off, src, n) == Erasures(mem, size, off, src, k)
  {
    if k < n {
      NoFurtherErasures(mem, size, off, src, k, n - 1);
      BaseMonotone(k, n - 1, size);
    }
  }

  lemma {:induction false} NoErasuresBefore(mem: seq<Byte>, size: nat, off: nat, src: seq<Byte>, k: nat)
    requires Base(k, size) <= off
    ensures Erasures(mem, size, off, src, k) == []
  {
    if k > 0 {
      BaseStep(k - 1, size);
      NoErasuresBefore(mem, size, off, src, k - 1);
    }
  }

  /** Nothing is erased exactly when the device already holds the data. */
  lemma {:induction false} ErasuresEmpty(mem: seq<Byte>, size: nat, off: nat, src: seq<Byte>, n: nat)
    requires size > 0
    ensures Erasures(mem, size, off, src, n) == [] <==>
            forall a | off <= a < off + |src| && a < |mem| && a < Base(n, size) :: mem[a] == src[a - off]
  {
    if n > 0 {
      ErasuresEmpty(mem, size, off, src, n - 1);
      BaseStep(n - 1, size);
    }
  }

  /** A block that already holds the data is not among those erased. */
  lemma {:induction false} EqualBlocksNotErased(mem: seq<Byte>, size: nat, off: nat, src: seq<Byte>, n: nat, b: nat)
    requires size > 0 && b < n
    ensures Base(b, size) in Erasures(mem, size, off, src, n)
       <==> Differs(mem, Base(b, size), Base(b, size) + size, off, src)
  {
    if n - 1 == b {
      LaterBase(mem, size, off, src, b, b);
    } else {
      EqualBlocksNotErased(mem, size, off, src, n - 1, b);
      assert Base(n - 1, size) != Base(b, size) by {
        BaseStep(b, size);
        BaseMonotone(b + 1, n - 1, size);
      }
    }
  }

  lemma {:induction false} LaterBase(mem: seq<Byte>, size: nat, off: nat, src: seq<Byte>, n: nat, b: nat)
    requires size > 0 && n <= b
    ensures Base(b, size) !in Erasures(mem, size, off, src, n)
  {
    if n > 0 {
      LaterBase(mem, size, off, src, n - 1, b);
      BaseStep(n - 1, size);
      BaseMonotone(n, b, size);
    }
  }

  /** Writing the same data again changes nothing and erases nothing. */
  lemma RepeatWriteIsFree(mem: seq<Byte>, mem1: seq<Byte>, mem2: seq<Byte>, size: nat, off: nat, src: seq<Byte>, n: nat)
    requires size > 0 && IsWritten(mem, mem1, size, off, src) && IsWritten(mem1, mem2, size, off, src)
    ensures mem2 == mem1 && Erasures(mem1, size, off, src, n) == []
  {
    assert forall a | off <= a < off + |src| && a < |mem1| :: mem1[a] == src[a - off];
    ErasuresEmpty(mem1, size, off, src, n);
    forall a | 0 <= a < |mem1| ensures mem2[a] == mem1[a] {
      assert !Differs(mem1, Base(BlockOf(a, size), size), Base(BlockOf(a, size), size) + size, off, src);
    }
  }

  /** Bytes outside every block the range touches keep their value. */
  lemma OtherBlocksUntouched(mem: seq<Byte>, mem': seq<Byte>, size: nat, off: nat, src: seq<Byte>, a: nat)
    requires size > 0 && IsWritten(mem, mem', size, off, src) && a < |mem|
    requires src == [] || BlockOf(a, size) < BlockOf(off, size) || BlockOf(a, size) > BlockOf(off + |src| - 1, size)
    ensures mem'[a] == mem[a]
  {
    hide Base, BlockOf;
    if src != [] {
      var b, first, last := BlockOf(a, size), BlockOf(off, size), BlockOf(off + |src| - 1, size);
      InBlock(a, b, size);
      InBlock(off, first, size);
      InBlock(off + |src| - 1, last, size);
      BaseStep(b, size);
      BaseStep(last, size);
      if b < first {
        BaseMonotone(b + 1, first, size);
      } else {
        BaseMonotone(last + 1, b, size);
      }
    }
  }

  /** Every byte of the source that has a place on the device is stored; so the whole range reads back if and only
      if it fits, although the call returns 0 either way. */
  lemma StoredIffFits(mem: seq<Byte>, mem': seq<Byte>, size: nat, off: nat, src: seq<Byte>)
    requires size > 0 && IsWritten(mem, mem', size, off, src)
    ensures (off + |src| <= |mem'| && mem'[off..off + |src|] == src) <==> off + |src| <= |mem|
    ensures forall i | 0 <= i < |src| && off + i < |mem'| :: mem'[off + i] == src[i]
  {
    if off + |src| <= |mem| {
      var got := mem'[off..off + |src|];
      assert forall i | 0 <= i < |src| :: got[i] == src[i];
    }
  }

  // ----- the driver -----

  class Flash {
    const spi: Spi
    var siliconId: nat
    var geo: Geometry
    var pageSize: nat

    constructor (spi: Spi)
      ensures this.spi == spi
    {
      this.spi := spi;
      siliconId, geo, pageSize := 0, Geometry(0, 0, 0, false), 0;
    }

    ghost predicate Valid()
      reads this, spi
    {
      && AtRest(spi) && Sane(geo) && pageSize == PAGE
      && |spi.chip.mem| == geo.regionSize && spi.chip.sector == geo.blockSize
    }

    /** alt_epcs_flash_query: accepts exactly the chips of the table and stores their geometry. */
    method Query() returns (err: int)
      requires AtRest(spi)
      modifies this, spi
      ensures AtRest(spi) && spi.chip == old(spi.chip)
      ensures var t := Table(spi.chip.signature, spi.chip.id);
        if t.Some? then err == 0 && geo == t.value && pageSize == PAGE && Sane(geo) else err == -ENODEV
      ensures err == 0 && Valid() <==> SignatureFamily(spi.chip) || DeviceIdFamily(spi.chip)
    {
      hide Feed, Select, Deselect, Sane;
      TableSane(spi.chip.signature, spi.chip.id);
      TableIsFamilies(spi.chip);
      siliconId := ReadElectronicSignature(spi);
      err := 0;
      if siliconId == 0x16 {
        geo := Geometry(64 * 1024 * 1024 / 8, 128, 65536, false);
      } else if siliconId == 0x14 {
        geo := Geometry(16 * 1024 * 1024 / 8, 32, 65536, false);
      } else if siliconId == 0x13 {
        geo := Geometry(8 * 1024 * 1024 / 8, 16, 65536, false);
      } else if siliconId == 0x12 {
        geo := Geometry(4 * 1024 * 1024 / 8, 8, 65536, false);
      } else if siliconId == 0x10 {
        geo := Geometry(1 * 1024 * 1024 / 8, 4, 32768, false);
      } else {
        siliconId := ReadDeviceId(spi);
        IdDigits(spi.chip.id);
        if siliconId == 0x20BA18 {
          geo := Geometry(128 * 1024 * 1024 / 8, 256, 65536, false);
        } else if siliconId % 0x100 == 0x18 {
          geo := Geometry(128 * 1024 * 1024 / 8, 64, 262144, false);
        } else if siliconId % 0x100 == 0x19 {
          geo := Geometry(256 * 1024 * 1024 / 8, 512, 65536, true);
        } else {
          err := -ENODEV;
        }
      }
      pageSize := 256;
    }

    /** alt_epcs_test_address, whose comparison is unsigned: a negative offset is out of range too. */
    method TestAddress(offset: int) returns (err: int)
      requires Sane(geo) && IsInt(offset)
      ensures err == if 0 <= offset < geo.regionSize then 0 else -EIO
    {
      var lastDeviceAddress := geo.regionSize - 1;
      if U32(offset) > lastDeviceAddress {
        return -EIO;
      }
      return 0;
    }

    /** alt_epcs_flash_read. */
    method Read(offset: int, dest: array<Byte>, length: nat) returns (err: int)
      requires Valid() && IsInt(offset) && length <= dest.Length
      modifies spi, dest
      ensures Valid() && spi.chip == old(spi.chip).(wel := spi.chip.wel)
      ensures err == if 0 <= offset < geo.regionSize then 0 else -EIO
      ensures err == 0 ==> forall i | 0 <= i < length :: dest[i] == Cell(spi.chip.mem, offset + i)
      ensures forall i | (if err == 0 then length else 0) <= i < dest.Length :: dest[i] == old(dest[i])
    {
      hide Sane, Cell, Seen;
      SaneFacts(geo);
      err := TestAddress(offset);
      if err >= 0 {
        SeenInside(offset, geo.regionSize, geo.fourBytes);
        err := ReadBuffer(spi, offset, dest, length, geo.fourBytes);
        if err == length {
          err := 0;
        }
      }
    }

    /** alt_epcs_flash_memcmp, for every range: zero exactly when there is nothing to compare, or the device, wrapping
        at its end, shows the source bytes and every chunk starts inside it; -1 for an offset outside. */
    method MemCmp(src: seq<Byte>, offset: int) returns (d: int)
      requires Valid() && IsInt(offset) && IsInt(offset + |src|)
      modifies spi
      ensures Valid() && spi.chip == old(spi.chip).(wel := spi.chip.wel)
      ensures src == [] ==> d == 0
      ensures src != [] && 0 <= offset ==>
        (d == 0 <==> offset + LastChunk(|src|) < geo.regionSize && Holds(spi.chip.mem, offset, src))
      ensures src != [] && !(0 <= offset < geo.regionSize) ==> d == -1
    {
      hide Sane, Cell, Holds, LastChunk;
      if offset >= 0 {
        HoldsNone(spi.chip.mem, offset, src);
      }
      var chunkBuffer := new Byte[CHUNK];
      var n, currentOffset := |src|, 0;
      while n > 0
        invariant 0 <= n <= |src| && currentOffset == |src| - n
        invariant Valid() && spi.chip == old(spi.chip).(wel := spi.chip.wel)
        invariant currentOffset > 0 ==> 0 <= offset < geo.regionSize
        invariant n > 0 ==> currentOffset % CHUNK == 0
        invariant currentOffset > 0 ==> offset + LastChunk(currentOffset) < geo.regionSize
        invariant offset >= 0 ==> Holds(spi.chip.mem, offset, src[..currentOffset])
        modifies spi, chunkBuffer
      {
        var thisChunkSize := if n > CHUNK then CHUNK else n;
        var err := Read(offset + currentOffset, chunkBuffer, thisChunkSize);
        LastChunkStep(currentOffset, |src|);
        if err < 0 {
          return -1;
        }
        ghost var mem := spi.chip.mem;
        var thisChunkCmp := Memcmp(src[currentOffset..currentOffset + thisChunkSize], chunkBuffer[..thisChunkSize]);
        ChunkHolds(mem, offset, src, currentOffset, thisChunkSize, chunkBuffer[..thisChunkSize]);
        if thisChunkCmp != 0 {
          return thisChunkCmp;
        }
        n := n - thisChunkSize;
        currentOffset := currentOffset + thisChunkSize;
      }
      assert src[..|src|] == src;
      return 0;
    }

    /** alt_epcs_flash_erase_block. */
    method EraseBlock(blockOffset: int) returns (err: int)
      requires Valid() && IsInt(blockOffset)
      modifies spi
      ensures Valid() && err == if 0 <= blockOffset < geo.regionSize then 0 else -EIO
      ensures var c := old(spi.chip);
        spi.chip == if err == 0 then
                      c.(mem := Erase(c.mem, geo.blockSize, blockOffset), wel := false, jobs := c.jobs + 1,
                         erased := c.erased + [Base(BlockOf(blockOffset, geo.blockSize), geo.blockSize)])
                    else c
    {
      hide Sane, Seen, Base, BlockOf, Erase;
      SaneFacts(geo);
      err := TestAddress(blockOffset);
      if err >= 0 {
        SeenInside(blockOffset, geo.regionSize, geo.fourBytes);
        SectorErase(spi, blockOffset, geo.fourBytes);
      }
    }

    /** alt_epcs_flash_write: for every int offset and every source, the exact memory and the exact list of
        erased blocks afterwards.  The result is always 0: an offset outside the device does nothing, and data
        past the end is dropped. */
    method Write(offset: int, src: seq<Byte>) returns (err: int)
      requires Valid() && IsInt(offset)
      modifies spi
      ensures Valid() && err == 0 && SameDevice(old(spi.chip), spi.chip)
      ensures !(0 <= offset < geo.regionSize) ==> spi.chip == old(spi.chip)
      ensures 0 <= offset < geo.regionSize ==>
        && IsWritten(old(spi.chip).mem, spi.chip.mem, geo.blockSize, offset, src)
        && spi.chip.erased == old(spi.chip).erased
             + Erasures(old(spi.chip).mem, geo.blockSize, offset, src, geo.numberOfBlocks)
      ensures spi.chip.erased == old(spi.chip).erased ==> spi.chip.jobs == old(spi.chip).jobs
    {
      hide Sane, Base, IsWritten, Upto, Masked, Erase, Differs, Erasures, BlockOf, Cell;
      SaneFacts(geo);
      err := 0;
      if 0 <= offset < geo.regionSize {
        ghost var c, size := spi.chip, geo.blockSize;
        var at, srcAddr, currentOffset, j := offset, 0, 0, 0;
        BaseStep(0, size);
        UptoNone(c.mem, size, offset, src, 0);
        NoErasuresBefore(c.mem, size, offset, src, 0);
        while j < geo.numberOfBlocks
          invariant 0 <= j <= geo.numberOfBlocks && currentOffset == Base(j, size) && 0 <= srcAddr <= |src|
          invariant Valid() && SameDevice(c, spi.chip) && Upto(c.mem, spi.chip.mem, size, offset, src, currentOffset)
          invariant spi.chip.erased == c.erased + Erasures(c.mem, size, offset, src, j)
          invariant |spi.chip.erased| >= |c.erased| && (|spi.chip.erased| == |c.erased| ==> spi.chip.jobs == c.jobs)
          invariant at == offset + srcAddr
          invariant if currentOffset <= offset then srcAddr == 0 else at == currentOffset && srcAddr < |src|
          modifies spi
        {
          BaseStep(j, size);
          BaseMonotone(j + 1, geo.numberOfBlocks, size);
          if at >= currentOffset && at < currentOffset + geo.blockSize {
            var length := |src| - srcAddr;
            var dataToWrite := currentOffset + geo.blockSize - at;
            dataToWrite := if dataToWrite < length then dataToWrite else length;
            err := WriteOneBlock(j, currentOffset, at, src, srcAddr, dataToWrite, c);
            if length == dataToWrite || err != 0 {
              NoFurtherErasures(c.mem, size, offset, src, j + 1, geo.numberOfBlocks);
              UptoAll(c.mem, spi.chip.mem, size, offset, src, j + 1);
              return err;
            }
            at := currentOffset + geo.blockSize;
            srcAddr := srcAddr + dataToWrite;
          } else {
            UptoSkip(c.mem, spi.chip.mem, size, offset, src, j);
            NoErasuresBefore(c.mem, size, offset, src, j + 1);
            NoErasuresBefore(c.mem, size, offset, src, j);
          }
          currentOffset := currentOffset + geo.blockSize;
          j := j + 1;
        }
        UptoAll(c.mem, spi.chip.mem, size, offset, src, geo.numberOfBlocks);
      }
    }

    /** The part of the write that falls in block j: compared, and erased and written if it differs. */
    method WriteOneBlock(ghost j: nat, currentOffset: nat, at: nat, src: seq<Byte>, srcAddr: nat, dataToWrite: nat,
                         ghost c: Chip) returns (err: int)
      requires Valid() && SameDevice(c, spi.chip) && j < geo.numberOfBlocks && currentOffset == Base(j, geo.blockSize)
      requires srcAddr <= at && srcAddr <= |src|
      requires at == if at - srcAddr < currentOffset then currentOffset else at - srcAddr
      requires Upto(c.mem, spi.chip.mem, geo.blockSize, at - srcAddr, src, currentOffset)
      requires spi.chip.erased == c.erased + Erasures(c.mem, geo.blockSize, at - srcAddr, src, j)
      requires currentOffset <= at < currentOffset + geo.blockSize <= geo.regionSize
      requires var room := currentOffset + geo.blockSize - at; var left := |src| - srcAddr;
        dataToWrite == if room < left then room else left
      modifies spi
      ensures Valid() && err == 0 && SameDevice(c, spi.chip)
      ensures Upto(c.mem, spi.chip.mem, geo.blockSize, at - srcAddr, src, Base(j + 1, geo.blockSize))
      ensures spi.chip.erased == c.erased + Erasures(c.mem, geo.blockSize, at - srcAddr, src, j + 1)
      ensures var c0 := old(spi.chip);
        |spi.chip.erased| > |c0.erased| || (spi.chip.erased == c0.erased && spi.chip.jobs == c0.jobs)
    {
      hide Sane, Base, Upto, Masked, Erase, Differs, BlockOf, Cell, Holds, AndAll, LastChunk;
      SaneFacts(geo);
      LastChunkBelow(dataToWrite);
      ghost var mem1 := spi.chip.mem;
      var part := src[srcAddr..srcAddr + dataToWrite];
      var d := MemCmp(part, at);
      PartDiffers(c.mem, mem1, geo.blockSize, at - srcAddr, src, j, at, dataToWrite);
      InBlock(currentOffset, j, geo.blockSize);
      assert Erasures(c.mem, geo.blockSize, at - srcAddr, src, j + 1)
          == Erasures(c.mem, geo.blockSize, at - srcAddr, src, j)
           + if Holds(mem1, at, part) then [] else [currentOffset];
      err := 0;
      if d != 0 {
        err := EraseBlock(currentOffset);
        if err == 0 {
          ghost var blank := spi.chip.mem;
          err := WriteBlock(currentOffset, at, part);
          AndAllInside(blank, at, part);
        }
        UptoErasedBlock(c.mem, mem1, spi.chip.mem, geo.blockSize, at - srcAddr, src, j, at, dataToWrite);
      } else {
        HoldsNone(mem1, at, part);
        assert part == [] ==> part[..0] == part;
        UptoEqualBlock(c.mem, mem1, geo.blockSize, at - srcAddr, src, j);
      }
    }

    /** alt_epcs_flash_write_block: split into pages, so that no program command wraps within one: the bytes are
        ANDed in one by one from the offset on, wrapping at the device's end. */
    method WriteBlock(blockOffset: int, dataOffset: int, data: seq<Byte>) returns (err: int)
      requires Valid() && IsInt(dataOffset)
      modifies spi
      ensures Valid() && err == if 0 <= dataOffset < geo.regionSize then 0 else -EIO
      ensures err != 0 ==> spi.chip == old(spi.chip)
      ensures SameDevice(old(spi.chip), spi.chip) && spi.chip.erased == old(spi.chip).erased
      ensures err == 0 ==> spi.chip.mem == AndAll(old(spi.chip).mem, dataOffset, data)
    {
      hide Sane, NextPage, Program, And, AndAll, Seen, Wrapped;
      SaneFacts(geo);
      ghost var mem := spi.chip.mem;
      var offset, length, bufferOffset := dataOffset, |data|, 0;
      err := TestAddress(dataOffset);
      if err >= 0 {
        AndAllNone(mem, dataOffset, data);
        while length != 0
          invariant 0 <= length <= |data| && bufferOffset == |data| - length
          invariant offset >= dataOffset + bufferOffset && (length > 0 ==> offset == dataOffset + bufferOffset)
          invariant Valid() && SameDevice(old(spi.chip), spi.chip) && spi.chip.erased == old(spi.chip).erased
          invariant spi.chip.mem == AndAll(mem, dataOffset, data[..bufferOffset])
          modifies spi
          decreases length
        {
          NextPageFacts(offset);
          var nextPageStart := NextPage(offset, pageSize);
          var n := if length < nextPageStart - offset then length else nextPageStart - offset;
          ghost var before := spi.chip.mem;
          var part := data[bufferOffset..bufferOffset + n];
          var _ := WriteBuffer(spi, offset, part, geo.fourBytes);
          SeenWraps(offset, geo.regionSize, geo.fourBytes);
          PageAnds(before, offset, part);
          AndAllAppend(mem, dataOffset, data[..bufferOffset], part);
          assert data[..bufferOffset + n] == data[..bufferOffset] + part;
          length := length - n;
          bufferOffset := bufferOffset + n;
          offset := nextPageStart;
        }
        assert data[..|data|] == data;
      }
    }
  }

  // ----- the user-level write -----

  /** How far the write has got: every block below base is finished, everything from base on is untouched. */
  ghost predicate Upto(mem: seq<Byte>, mem': seq<Byte>, size: nat, off: nat, src: seq<Byte>, base: nat)
    requires size > 0
  {
    && |mem'| == |mem|
    && (forall a | 0 <= a < |mem| && a < base :: mem'[a] == WrittenAt(mem, size, off, src, a))
    && (forall a | base <= a < |mem| :: mem'[a] == mem[a])
  }

  lemma UptoNone(mem: seq<Byte>, size: nat, off: nat, src: seq<Byte>, b: nat)
    requires size > 0 && Base(b, size) <= off
    ensures Upto(mem, mem, size, off, src, Base(b, size))
  {
    hide Base, BlockOf;
    forall a | 0 <= a < |mem| && a < Base(b, size) ensures mem[a] == WrittenAt(mem, size, off, src, a) {
      BlockEnds(a, b, size);
    }
  }

  /** A lower address lies in a block that ends before the bound. */
  lemma BlockEnds(a: nat, b: nat, size: nat)
    requires size > 0 && a < Base(b, size)
    ensures Base(BlockOf(a, size), size) + size <= Base(b, size)
    ensures Base(BlockOf(a, size), size) <= a < Base(BlockOf(a, size), size) + size
  {
    hide Base, BlockOf;
    var k := BlockOf(a, size);
    InBlock(a, k, size);
    BaseStep(k, size);
    if k >= b {
      BaseMonotone(b, k, size);
    } else {
      BaseMonotone(k + 1, b, size);
    }
  }

  /** The same from above: an address past the bound lies in a block that starts there or later. */
  lemma BlockStarts(a: nat, b: nat, size: nat)
    requires size > 0 && Base(b, size) <= a
    ensures Base(b, size) <= Base(BlockOf(a, size), size) <= a
  {
    hide Base, BlockOf;
    var k := BlockOf(a, size);
    InBlock(a, k, size);
    BaseStep(k, size);
    if k < b {
      BaseMonotone(k + 1, b, size);
    } else {
      BaseMonotone(b, k, size);
    }
  }

  /** When the range ends in the blocks done, the rest of the device needs nothing. */
  lemma UptoAll(mem: seq<Byte>, mem': seq<Byte>, size: nat, off: nat, src: seq<Byte>, b: nat)
    requires size > 0 && Upto(mem, mem', size, off, src, Base(b, size))
    requires off + |src| <= Base(b, size) || |mem| <= Base(b, size)
    ensures IsWritten(mem, mem', size, off, src)
  {
    hide Base, BlockOf;
    forall a | 0 <= a < |mem| ensures mem'[a] == WrittenAt(mem, size, off, src, a) {
      if a >= Base(b, size) {
        BlockStarts(a, b, size);
      }
    }
  }

  /** One block that already holds its part of the data. */
  lemma UptoEqualBlock(mem: seq<Byte>, mem': seq<Byte>, size: nat, off: nat, src: seq<Byte>, b: nat)
    requires size > 0 && Upto(mem, mem', size, off, src, Base(b, size))
    requires !Differs(mem, Base(b, size), Base(b, size) + size, off, src)
    ensures Upto(mem, mem', size, off, src, Base(b + 1, size))
  {
    hide Base, BlockOf;
    BaseStep(b, size);
    forall a | 0 <= a < |mem| && a < Base(b + 1, size) ensures mem'[a] == WrittenAt(mem, size, off, src, a) {
      if a >= Base(b, size) {
        InBlock(a, b, size);
      }
    }
  }

  /** Comparing a block's part of the data with the device decides whether the block differs. */
  lemma PartDiffers(mem: seq<Byte>, mem': seq<Byte>, size: nat, off: nat, src: seq<Byte>, b: nat, o: nat, n: nat)
    requires size > 0 && Upto(mem, mem', size, off, src, Base(b, size)) && |mem| > 0
    requires Base(b, size) <= o && off <= o && (off < o ==> o == Base(b, size)) && o + n <= |mem|
    requires o + n == if off + |src| < Base(b, size) + size then off + |src| else Base(b, size) + size
    ensures Holds(mem', o, src[o - off..o - off + n]) <==> !Differs(mem, Base(b, size), Base(b, size) + size, off, src)
  {
    hide Base, BlockOf, Cell;
    var part := src[o - off..o - off + n];
    forall i | 0 <= i < n ensures Cell(mem', o + i) == mem[o + i] && part[i] == src[o + i - off] {
      CellInside(mem', o + i);
    }
    if Holds(mem', o, part) {
      forall a | Base(b, size) <= a < Base(b, size) + size && off <= a < off + |src| && a < |mem|
        ensures mem[a] == src[a - off]
      {
        assert part[a - o] == Cell(mem', o + (a - o));
      }
    }
  }

  /** The device, read from at on, shows these bytes. */
  ghost predicate Holds(mem: seq<Byte>, at: nat, bytes: seq<Byte>)
    requires |mem| > 0
  {
    forall i | 0 <= i < |bytes| :: bytes[i] == Cell(mem, at + i)
  }

  /** Where the last of the chunks that n bytes are compared in starts. */
  function LastChunk(n: nat): nat {
    if n == 0 then 0 else (n - 1) / CHUNK * CHUNK
  }

  lemma LastChunkStep(k: nat, n: nat)
    requires k < n && k % CHUNK == 0
    ensures var step := if n - k > CHUNK then CHUNK else n - k;
      LastChunk(k + step) == k && (step == n - k || (k + step) % CHUNK == 0)
    ensures k <= LastChunk(n)
  {
  }

  lemma LastChunkBelow(n: nat)
    ensures n > 0 ==> LastChunk(n) < n
  {
  }

  lemma HoldsNone(mem: seq<Byte>, at: nat, src: seq<Byte>)
    requires |mem| > 0
    ensures Holds(mem, at, src[..0])
  {
  }

  lemma ChunkHolds(mem: seq<Byte>, at: nat, src: seq<Byte>, k: nat, n: nat, chunk: seq<Byte>)
    requires |mem| > 0 && k + n <= |src| && Holds(mem, at, src[..k])
    requires |chunk| == n && forall i | 0 <= i < n :: chunk[i] == Cell(mem, at + k + i)
    ensures chunk == src[k..k + n] ==> Holds(mem, at, src[..k + n])
    ensures chunk != src[k..k + n] ==> !Holds(mem, at, src)
  {
    hide Cell;
    if chunk == src[k..k + n] {
      forall i | 0 <= i < k + n ensures src[i] == Cell(mem, at + i) {
        if i < k {
          assert src[..k][i] == src[i];
        } else {
          assert chunk[i - k] == src[i] && at + k + (i - k) == at + i;
        }
      }
    } else {
      var i :| 0 <= i < n && chunk[i] != src[k..k + n][i];
      assert src[k + i] != Cell(mem, at + (k + i));
    }
  }

  lemma CellInside(mem: seq<Byte>, a: nat)
    requires a < |mem|
    ensures Cell(mem, a) == mem[a]
  {
  }

  /** A block below the range. */
  lemma UptoSkip(mem: seq<Byte>, mem': seq<Byte>, size: nat, off: nat, src: seq<Byte>, b: nat)
    requires size > 0 && Upto(mem, mem', size, off, src, Base(b, size)) && Base(b, size) + size <= off
    ensures Upto(mem, mem', size, off, src, Base(b + 1, size))
  {
    hide Upto, Base;
    UptoEqualBlock(mem, mem', size, off, src, b);
  }

  /** One block erased and programmed with its part of the data, at o for n bytes. */
  lemma UptoErasedBlock(mem: seq<Byte>, mem1: seq<Byte>, mem2: seq<Byte>, size: nat, off: nat, src: seq<Byte>, b: nat,
                        o: nat, n: nat)
    requires size > 0 && Upto(mem, mem1, size, off, src, Base(b, size))
    requires Differs(mem, Base(b, size), Base(b, size) + size, off, src)
    requires o == (if off < Base(b, size) then Base(b, size) else off) && Base(b, size) <= o < Base(b, size) + size
    requires o - off <= |src|
    requires n == if off + |src| < Base(b, size) + size then off + |src| - o else Base(b, size) + size - o
    requires Masked(Erase(mem1, size, Base(b, size)), mem2, o, src[o - off..o - off + n])
    ensures Upto(mem, mem2, size, off, src, Base(b + 1, size))
  {
    hide Base, BlockOf, And;
    BaseStep(b, size);
    InBlock(Base(b, size), b, size);
    forall a | 0 <= a < |mem| && a < Base(b + 1, size) ensures mem2[a] == WrittenAt(mem, size, off, src, a) {
      InBlock(a, b, size);
      if off <= a < off + |src| && a >= Base(b, size) {
        AndOnes(src[a - off]);
      }
    }
    forall a | Base(b + 1, size) <= a < |mem| ensures mem2[a] == mem[a] {
      InBlock(a, b, size);
    }
  }

  /** (offset + pageSize) & ~(pageSize - 1), for a page size that is a power of two. */
  function NextPage(offset: nat, pageSize: nat): nat
    requires pageSize > 0
  {
    (offset + pageSize) / pageSize * pageSize
  }

  lemma NextPageFacts(offset: nat)
    ensures offset < NextPage(offset, PAGE) && offset % PAGE + (NextPage(offset, PAGE) - offset) == PAGE
  {
  }

  lemma SaneFacts(g: Geometry)
    requires Sane(g)
    ensures g.blockSize > 0 && Base(g.numberOfBlocks, g.blockSize) == g.regionSize
    ensures Fits(g.regionSize, g.fourBytes) && 0 < g.regionSize < 0x8000_0000
    ensures g.regionSize % PAGE == 0 && Field(g.fourBytes) % g.regionSize == 0
  {
  }

  /** Only the array, the latch and the history may differ. */
  ghost predicate SameDevice(c: Chip, c': Chip) {
    |c'.mem| == |c.mem| && c' == c.(mem := c'.mem, wel := c'.wel, jobs := c'.jobs, erased := c'.erased)
  }

  /** Exactly the range's bytes have been ANDed with the data. */
  ghost predicate Masked(mem: seq<Byte>, mem': seq<Byte>, off: nat, data: seq<Byte>) {
    && |mem'| == |mem|
    && forall a | 0 <= a < |mem| :: mem'[a] == if off <= a < off + |data| then And(mem[a], data[a - off]) else mem[a]
  }

  function Wrapped(a: nat, size: nat): (r: nat)
    requires size > 0
    ensures r < size
  {
    a % size
  }

  /** The data ANDed into the array byte by byte from off on, wrapping at the end. */
  ghost function AndAll(mem: seq<Byte>, off: nat, data: seq<Byte>): (r: seq<Byte>)
    requires |mem| > 0
    ensures |r| == |mem|
    decreases |data|
  {
    if data == [] then mem
    else
      var m := AndAll(mem, off, data[..|data| - 1]);
      var a := Wrapped(off + (|data| - 1), |mem|);
      m[a := And(m[a], data[|data| - 1])]
  }

  lemma AndAllNone(mem: seq<Byte>, off: nat, data: seq<Byte>)
    requires |mem| > 0
    ensures AndAll(mem, off, data[..0]) == mem
  {
  }

  lemma {:induction false} AndAllAppend(mem: seq<Byte>, off: nat, a: seq<Byte>, b: seq<Byte>)
    requires |mem| > 0
    ensures AndAll(AndAll(mem, off, a), off + |a|, b) == AndAll(mem, off, a + b)
    decreases |b|
  {
    hide And, Wrapped;
    if b == [] {
      assert a + b == a;
    } else {
      assert (a + b)[..|a + b| - 1] == a + b[..|b| - 1];
      AndAllAppend(mem, off, a, b[..|b| - 1]);
    }
  }

  /** n addresses from off on do not wrap, and start at at. */
  ghost predicate Straight(off: nat, at: nat, n: nat, size: nat)
    requires size > 0
  {
    at + n <= size && forall x | off <= x < off + n :: Wrapped(x, size) == at + (x - off)
  }

  /** Data that does not wrap is ANDed into exactly its own range. */
  lemma {:induction false} AndAllMasks(mem: seq<Byte>, off: nat, data: seq<Byte>, at: nat)
    requires |mem| > 0 && Straight(off, at, |data|, |mem|)
    ensures Masked(mem, AndAll(mem, off, data), at, data)
    decreases |data|
  {
    hide And, Wrapped;
    if data != [] {
      AndAllMasks(mem, off, data[..|data| - 1], at);
    }
  }

  lemma AndAllInside(mem: seq<Byte>, off: nat, data: seq<Byte>)
    requires |mem| > 0 && off + |data| <= |mem|
    ensures Masked(mem, AndAll(mem, off, data), off, data)
  {
    hide AndAll, Masked;
    forall x | off <= x < off + |data| ensures Wrapped(x, |mem|) == off + (x - off) {
      SmallMod(x, |mem|);
    }
    AndAllMasks(mem, off, data, off);
  }

  lemma MaskedOnce(mem: seq<Byte>, m1: seq<Byte>, m2: seq<Byte>, off: nat, data: seq<Byte>)
    requires Masked(mem, m1, off, data) && Masked(mem, m2, off, data)
    ensures m1 == m2
  {
  }

  /** A page program within one page of a device of whole pages. */
  lemma PageAnds(mem: seq<Byte>, off: nat, data: seq<Byte>)
    requires |mem| > 0 && |mem| % PAGE == 0 && off % PAGE + |data| <= PAGE
    ensures Program(mem, Wrapped(off, |mem|), data) == AndAll(mem, off, data)
  {
    hide AndAll, Masked, Program, Wrapped;
    var at := Wrapped(off, |mem|);
    PageWraps(off, |mem|, |data|);
    PageMasked(mem, at, data);
    AndAllMasks(mem, off, data, at);
    MaskedOnce(mem, Program(mem, at, data), AndAll(mem, off, data), at, data);
  }

  lemma PageMasked(mem: seq<Byte>, off: nat, data: seq<Byte>)
    requires off % PAGE + |data| <= PAGE && off + |data| <= |mem|
    ensures Masked(mem, Program(mem, off, data), off, data) && |Program(mem, off, data)| == |mem|
  {
    hide And, Program;
    ProgramStraight(mem, off, data);
  }

  /** Wrapping at a whole number of pages keeps the place in the page, and a page whole. */
  lemma PageWraps(off: nat, size: nat, n: nat)
    requires size > 0 && size % PAGE == 0 && off % PAGE + n <= PAGE
    ensures var at := Wrapped(off, size);
      at % PAGE == off % PAGE && Straight(off, at, n, size)
  {
    var q, at := off / size, Wrapped(off, size);
    var pages := size / PAGE;
    assert off == q * size + at;
    PagesIn(q, size, pages);
    SamePlace(off, at, q * pages, size, pages, n);
    hide Wrapped;
    forall x | off <= x < off + n ensures Wrapped(x, size) == at + (x - off) {
      Remainder(x, q, at + (x - off), size);
    }
  }

  lemma PagesIn(q: nat, size: nat, pages: nat)
    requires size == PAGE * pages
    ensures q * size == PAGE * (q * pages)
  {
  }

  lemma SamePlace(off: nat, at: nat, k: nat, size: nat, pages: nat, n: nat)
    requires off == PAGE * k + at && at < size && size == PAGE * pages && off % PAGE + n <= PAGE
    ensures at % PAGE == off % PAGE && at + n <= size
  {
  }

  lemma Remainder(a: nat, q: nat, r: nat, size: nat)
    requires size > 0 && a == q * size + r && r < size
    ensures Wrapped(a, size) == r
  {
    Quotient(a, q, size);
    assert a == a / size * size + a % size;
  }

  /** On a device whose size divides the address field, dropping high bits and wrapping is wrapping. */
  lemma SeenWraps(offset: nat, size: nat, four: bool)
    requires size > 0 && Field(four) % size == 0
    ensures Seen(offset, size, four) == Wrapped(offset, size)
  {
    var f := Field(four);
    var k, r := offset / f, offset % f;
    var m := f / size;
    assert f == m * size && offset == k * f + r;
    var q := r / size;
    assert r == q * size + r % size;
    assert k * (m * size) == (k * m) * size;
    assert offset == (k * m + q) * size + r % size;
    Remainder(offset, k * m + q, r % size, size);
  }

  lemma IdDigits(id: seq<Byte>)
    requires |id| == 3
    ensures Big(id) % 0x100 == Value(id[2]) && (Big(id) == 0x20BA18 <==> id == [0x20, 0xBA, 0x18])
  {
    BigThree(id);
  }
}
