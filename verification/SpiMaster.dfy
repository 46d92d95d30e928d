/** The SPI master core and the driver's transaction loop, with a flash chip on its bus. */
module SpiMaster {
  import opened Options
  import opened FlashChip

  function Zeros(n: nat): (s: seq<Byte>)
    ensures |s| == n
  {
    seq(n, _ => 0)
  }

  class Spi {
    var chip: Chip
    /** the byte being shifted, and the received byte not yet read */
    var shifting: Option<Byte>
    var rx: Option<Byte>
    /** status reads that may still go by before the core shows progress; any number at any time */
    var patience: nat

    ghost predicate Idle()
      reads this
    {
      Sound(chip) && shifting.None?
    }

    /** Reads the status register.  The core may finish the byte it is shifting at any moment, may accept a
        further byte meanwhile, and need not report an empty transmitter at once, but does not keep the driver
        waiting for ever. */
    method Status() returns (trdy: bool, rrdy: bool, tmt: bool)
      requires Sound(chip) && (shifting.Some? ==> rx.None?)
      modifies this
      ensures Sound(chip) && rrdy == rx.Some? && (tmt ==> shifting.None?)
      ensures old(shifting).Some? && shifting.None? ==>
        rx == Some(Reply(old(chip))) && chip == Clock(old(chip), old(shifting).value)
      ensures !(old(shifting).Some? && shifting.None?) ==>
        chip == old(chip) && shifting == old(shifting) && rx == old(rx)
      ensures (old(shifting).Some? && shifting.None?) || (shifting.None? && trdy && tmt) || patience < old(patience)
    {
      var eager: bool := *;
      trdy, tmt := *, false;
      if shifting.Some? && (eager || patience == 0) {
        rx := Some(Reply(chip));
        chip := Clock(chip, shifting.value);
        shifting := None;
        patience := *;
      } else if shifting.None? && (eager || patience == 0) {
        trdy, tmt := true, true;
      } else {
        patience := patience - 1;
      }
      rrdy := rx.Some?;
    }

    /** Writes TXDATA.  Nothing may be outstanding, or a byte would be lost. */
    method Transmit(b: Byte)
      requires shifting.None? && rx.None?
      modifies `shifting
      ensures shifting == Some(b)
    {
      shifting := Some(b);
    }

    /** Reads RXDATA; the register holds some value even when no byte has come in. */
    method Receive() returns (b: Byte)
      modifies `rx
      ensures rx == None && (old(rx).Some? ==> b == old(rx).value)
    {
      if rx.Some? {
        b := rx.value;
      } else {
        b := *;
      }
      rx := None;
    }

    /** What the chip answers while byte i is clocked in. */
    static ghost function Answer(c: Chip, all: seq<Byte>, i: nat): Byte
      requires Sound(c) && i <= |all|
    {
      Reply(Feed(c, all[..i]).0)
    }

    /** Of the bytes all, sent have been handed to the core and got have come back: at most one is outstanding,
        in the shift register or waiting to be read. */
    ghost predicate Outstanding(c: Chip, all: seq<Byte>, sent: nat, got: nat)
      reads this
    {
      && Sound(c) && Sound(chip) && got <= sent <= got + 1 && sent <= |all|
      && if sent == got then shifting.None? && rx.None? && chip == Feed(c, all[..got]).0
         else if shifting.Some? then shifting == Some(all[got]) && rx.None? && chip == Feed(c, all[..got]).0
         else rx == Some(Answer(c, all, got)) && chip == Feed(c, all[..sent]).0
    }

    ghost function Phase(sent: nat, got: nat): nat
      reads `shifting
    {
      if sent == got then 2 else if shifting.Some? then 1 else 0
    }

    /** A status read keeps the account and brings the driver nearer to something to do. */
    method Poll(ghost c: Chip, ghost all: seq<Byte>, ghost sent: nat, ghost got: nat) returns (trdy: bool, rrdy: bool)
      requires Outstanding(c, all, sent, got)
      modifies this
      ensures Outstanding(c, all, sent, got)
      ensures rrdy == rx.Some?
      ensures Phase(sent, got) < old(Phase(sent, got))
           || (Phase(sent, got) == old(Phase(sent, got)) && ((trdy && sent == got) || rrdy || patience < old(patience)))
    {
      hide Sound, Reply, Clock;
      if sent > got {
        FeedStep(c, all, got);
      }
      var tmt;
      trdy, rrdy, tmt := Status();
    }

    /** Polls until the driver may send or has something to read. */
    method AwaitReady(ghost c: Chip, ghost all: seq<Byte>, ghost sent: nat, ghost got: nat, credits: int)
      returns (trdy: bool, rrdy: bool)
      requires Outstanding(c, all, sent, got) && credits == 1 - (sent - got)
      modifies this
      ensures Outstanding(c, all, sent, got) && rrdy == rx.Some? && ((trdy && credits > 0) || rrdy)
    {
      hide Sound, Feed, Answer;
      trdy, rrdy := Poll(c, all, sent, got);
      while (!trdy || credits == 0) && !rrdy
        invariant Outstanding(c, all, sent, got) && rrdy == rx.Some?
        modifies this
        decreases if (trdy && credits > 0) || rrdy then 0 else 1, Phase(sent, got), patience
      {
        trdy, rrdy := Poll(c, all, sent, got);
      }
    }

    /** The clocking loop of alt_avalon_spi_command: with one credit, at most one byte is outstanding; exactly
        |write| + readLength bytes are clocked; dest receives the answers to the zeros. */
    method Transfer(write: seq<Byte>, readLength: nat, dest: array<Byte>)
      requires Idle() && rx.None? && |write| + readLength >= 1 && dest.Length >= readLength
      modifies this, dest
      ensures Idle() && rx.None? && chip == Feed(old(chip), write + Zeros(readLength)).0
      ensures forall i | 0 <= i < readLength :: dest[i] == Answer(old(chip), write + Zeros(readLength), |write| + i)
      ensures forall i | readLength <= i < dest.Length :: dest[i] == old(dest[i])
    {
      hide Sound, Reply, Clock, Feed, Answer;
      ghost var all := write + Zeros(readLength);
      ghost var c := chip;
      var writeData, readData := 0, 0;
      var writeZeros, readIgnore := readLength, |write|;
      var credits := 1;
      ghost var sent, got := 0, 0;
      FeedNone(c);
      assert all[..0] == [];
      while true
        invariant 0 <= writeData <= |write| && 0 <= writeZeros <= readLength
        invariant 0 <= readIgnore <= |write| && 0 <= readData <= readLength && (readIgnore > 0 ==> readData == 0)
        invariant writeZeros < readLength ==> writeData == |write|
        invariant sent == writeData + (readLength - writeZeros) && got == (|write| - readIgnore) + readData
        invariant got < |all| && credits == 1 - (sent - got) && Outstanding(c, all, sent, got)
        invariant forall i | 0 <= i < readData :: dest[i] == Answer(c, all, |write| + i)
        invariant forall i | readLength <= i < dest.Length :: dest[i] == old(dest[i])
        modifies this, dest
        decreases 2 * |all| - sent - got
      {
        var trdy, rrdy := AwaitReady(c, all, sent, got, credits);
        if trdy && credits > 0 {
          credits := credits - 1;
          if writeData < |write| {
            Transmit(write[writeData]);
            writeData := writeData + 1;
          } else if writeZeros > 0 {
            writeZeros := writeZeros - 1;
            Transmit(0);
          } else {
            assert false;
            credits := -1024;
          }
          sent := sent + 1;
        }
        if rrdy {
          var b := Receive();
          if readIgnore > 0 {
            readIgnore := readIgnore - 1;
          } else {
            dest[readData] := b;
            readData := readData + 1;
          }
          credits := credits + 1;
          got := got + 1;
          if readIgnore == 0 && readData == readLength {
            break;
          }
        }
      }
      assert all[..|all|] == all;
    }

    /** alt_avalon_spi_command: one chip-select transaction that clocks out the command and readLength zero bytes
        and returns what the chip answered to the zeros; left open when merge is set. */
    method Command(write: seq<Byte>, readLength: nat, dest: array<Byte>, merge: bool)
      requires Idle() && |write| + readLength >= 1 && dest.Length >= readLength
      modifies this, dest
      ensures Idle()
      ensures var r := Feed(Select(old(chip)), write + Zeros(readLength));
        && chip == (if merge then r.0 else Deselect(r.0))
        && dest[..readLength] == r.1[|write|..]
      ensures forall i | readLength <= i < dest.Length :: dest[i] == old(dest[i])
    {
      hide Sound, Reply, Clock, Feed, Select, Deselect, Answer;
      SelectSound(chip);
      chip := Select(chip);
      ghost var c := chip;
      var _ := Receive();
      Transfer(write, readLength, dest);
      AwaitTransmitted();
      ReadAnswers(c, write + Zeros(readLength), |write|);
      DeselectSound(chip);
      if !merge {
        chip := Deselect(chip);
      }
    }

    /** The first status reads of a command with nothing to write and nothing to read: the loop ends only after a byte
        has come back, and as none is ever sent none does, however many rounds there are. */
    method EmptyTransfer(rounds: nat) returns (ended: bool, credits: int)
      requires Idle() && rx.None?
      modifies this
      ensures !ended && Idle() && rx.None? && chip == old(chip)
      ensures credits == 1 || credits == -1024
    {
      ended, credits := false, 1;
      var n := 0;
      while n < rounds && !ended
        invariant !ended && Idle() && rx.None? && chip == old(chip)
        invariant credits == 1 || credits == -1024
        modifies this
      {
        var trdy, rrdy, tmt := Status();
        n := n + 1;
        if trdy && credits > 0 {
          credits := -1024;
        }
        if rrdy {
          assert false;
          ended := true;
        }
      }
    }

    /** Waits until the core has finished transmitting. */
    method AwaitTransmitted()
      requires Idle() && rx.None?
      modifies this
      ensures Idle() && rx.None? && chip == old(chip)
    {
      var trdy, rrdy, tmt := Status();
      while !tmt
        invariant Idle() && rx.None? && chip == old(chip)
        modifies this
        decreases if tmt then 0 else 1, patience
      {
        trdy, rrdy, tmt := Status();
      }
    }

    static lemma ReadAnswers(c: Chip, all: seq<Byte>, from: nat)
      requires Sound(c) && from <= |all|
      ensures forall i | from <= i < |all| :: Feed(c, all).1[i] == Answer(c, all, i)
    {
      forall i | from <= i < |all| ensures Feed(c, all).1[i] == Answer(c, all, i) {
        FeedReplies(c, all, i);
      }
    }

    static lemma DeselectSound(c: Chip)
      requires Sound(c)
      ensures Sound(Deselect(c))
    {
    }

    static lemma SelectSound(c: Chip)
      requires Sound(c)
      ensures Sound(Select(c))
    {
    }
  }
}
