/** The fast JTAG UART driver: an interrupt routine and its tasks around two ring buffers.  The interrupt may come
    between any two statements of a task that read or write what they share, and between any two bytes a task
    copies; so may the tasks on the other side, and readers that have given up the read lock and still have their
    re-enable to run. */
module JtagUart {
  import opened Rings

  const EIO: int := 5
  const EWOULDBLOCK: int := 11

  predicate IsPrefix(a: seq<char>, b: seq<char>) {
    |a| <= |b| && b[..|a|] == a
  }

  predicate IsSuffix(a: seq<char>, b: seq<char>) {
    |a| <= |b| && b[|b| - |a|..] == a
  }

  /** What a task and the interrupt routine share. */
  datatype View = View(rxOut: nat, txIn: nat, rxReturned: seq<char>, txAccepted: seq<char>,
                       readerOwes: bool, writerOwes: bool,
                       rxRing: seq<char>, txRing: seq<char>, rxPulled: seq<char>, txWritten: seq<char>)

  /** What interrupts and readers past the lock do between v and v': the receive queue grows at its end, the
      transmit queue shrinks at its front, and the tasks' own indices and histories stay put. */
  ghost predicate Interrupted(v: View, v': View) {
    && v'.rxOut == v.rxOut && v'.txIn == v.txIn
    && v'.rxReturned == v.rxReturned && v'.txAccepted == v.txAccepted
    && (v'.readerOwes ==> v.readerOwes) && v'.writerOwes == v.writerOwes
    && IsPrefix(v.rxRing, v'.rxRing) && IsSuffix(v'.txRing, v.txRing)
    && IsPrefix(v.rxPulled, v'.rxPulled) && IsPrefix(v.txWritten, v'.txWritten)
  }

  lemma InterruptedRefl(v: View)
    ensures Interrupted(v, v)
  {
  }

  /** The consequences, one by one. */
  lemma InterruptedFacts(v: View, v': View)
    requires Interrupted(v, v')
    ensures v'.rxOut == v.rxOut && v'.txIn == v.txIn && v'.rxReturned == v.rxReturned && v'.txAccepted == v.txAccepted
    ensures (v'.readerOwes ==> v.readerOwes) && v'.writerOwes == v.writerOwes
    ensures IsPrefix(v.rxRing, v'.rxRing) && |v.rxRing| <= |v'.rxRing|
    ensures IsSuffix(v'.txRing, v.txRing) && |v'.txRing| <= |v.txRing|
    ensures IsPrefix(v.rxPulled, v'.rxPulled) && |v.rxPulled| <= |v'.rxPulled| && |v.txWritten| <= |v'.txWritten|
  {
  }

  /** What a reader at the buffer relies on while others run: its index and history stay put, and its queue only
      grows at the end. */
  ghost predicate ReaderSafe(v: View, v': View) {
    && v'.rxOut == v.rxOut && v'.rxReturned == v.rxReturned && (v'.readerOwes ==> v.readerOwes)
    && IsPrefix(v.rxRing, v'.rxRing) && IsPrefix(v.rxPulled, v'.rxPulled)
    && IsPrefix(v.txAccepted, v'.txAccepted) && IsPrefix(v.txWritten, v'.txWritten)
  }

  /** What a writer at the buffer relies on: its index, history and debt stay put, and its queue only shrinks at
      the front. */
  ghost predicate WriterSafe(v: View, v': View) {
    && v'.txIn == v.txIn && v'.txAccepted == v.txAccepted && v'.writerOwes == v.writerOwes
    && IsSuffix(v'.txRing, v.txRing) && IsPrefix(v.txWritten, v'.txWritten)
    && IsPrefix(v.rxPulled, v'.rxPulled) && IsPrefix(v.rxReturned, v'.rxReturned)
  }

  lemma InterruptedSafe(v: View, v': View)
    requires Interrupted(v, v')
    ensures ReaderSafe(v, v') && WriterSafe(v, v')
  {
  }

  lemma ReaderRefl(v: View)
    ensures ReaderSafe(v, v)
  {
  }

  lemma ReaderTrans(u: View, v: View, w: View)
    requires ReaderSafe(u, v) && ReaderSafe(v, w)
    ensures ReaderSafe(u, w)
  {
  }

  lemma ReaderFacts(v: View, v': View)
    requires ReaderSafe(v, v')
    ensures v'.rxOut == v.rxOut && v'.rxReturned == v.rxReturned && (v'.readerOwes ==> v.readerOwes)
    ensures IsPrefix(v.rxRing, v'.rxRing) && |v.rxRing| <= |v'.rxRing|
    ensures IsPrefix(v.rxPulled, v'.rxPulled) && |v.rxPulled| <= |v'.rxPulled|
    ensures IsPrefix(v.txAccepted, v'.txAccepted) && IsPrefix(v.txWritten, v'.txWritten)
  {
  }

  lemma WriterRefl(v: View)
    ensures WriterSafe(v, v)
  {
  }

  lemma WriterTrans(u: View, v: View, w: View)
    requires WriterSafe(u, v) && WriterSafe(v, w)
    ensures WriterSafe(u, w)
  {
  }

  lemma WriterFacts(v: View, v': View)
    requires WriterSafe(v, v')
    ensures v'.txIn == v.txIn && v'.txAccepted == v.txAccepted && v'.writerOwes == v.writerOwes
    ensures IsSuffix(v'.txRing, v.txRing) && |v'.txRing| <= |v.txRing|
    ensures IsPrefix(v.txWritten, v'.txWritten) && |v.txWritten| <= |v'.txWritten|
    ensures IsPrefix(v.rxPulled, v'.rxPulled) && IsPrefix(v.rxReturned, v'.rxReturned)
  {
  }

  lemma PrefixTrans(a: seq<char>, b: seq<char>, c: seq<char>)
    requires IsPrefix(a, b) && IsPrefix(b, c)
    ensures IsPrefix(a, c)
  {
  }

  lemma SuffixTrans(a: seq<char>, b: seq<char>, c: seq<char>)
    requires IsSuffix(a, b) && IsSuffix(b, c)
    ensures IsSuffix(a, c)
  {
  }

  lemma PrefixLen(a: seq<char>, b: seq<char>)
    requires IsPrefix(a, b)
    ensures |a| <= |b|
  {
  }

  lemma Rejoin(a: seq<char>, p: nat, n: nat)
    requires p + n <= |a|
    ensures a[..p + n] == a[..p] + a[p..p + n] && (n == 0 ==> a[..p + n] == a[..p] + [])
  {
  }

  lemma Associate(a: seq<char>, b: seq<char>, c: seq<char>)
    ensures (a + b) + c == a + (b + c)
  {
  }

  lemma SplitSlice(a: seq<char>, i: nat, j: nat, k: nat)
    requires i <= j <= k <= |a|
    ensures a[i..k] == a[i..j] + a[j..k]
  {
  }

  lemma NextSlice(a: seq<char>, p: nat, i: nat)
    requires p + i < |a|
    ensures a[p..p + (i + 1)] == a[p..p + i] + [a[p + i]]
  {
  }

  lemma SliceIs(b: seq<char>, at: nat, q: seq<char>)
    requires at + |q| <= |b| && forall k | 0 <= k < |q| :: b[at + k] == q[k]
    ensures b[at..at + |q|] == q
  {
  }

  lemma PrefixPart(a: seq<char>, b: seq<char>, n: nat)
    requires IsPrefix(a, b) && n <= |a|
    ensures n <= |b| && a[..n] == b[..n]
  {
  }

  lemma InterruptedTrans(u: View, v: View, w: View)
    requires Interrupted(u, v) && Interrupted(v, w)
    ensures Interrupted(u, w)
  {
  }

  function Least(a: nat, b: nat): nat {
    if a <= b then a else b
  }

  /** m of the bytes w have moved to the end of the queue q and of pulled, and the others are left. */
  ghost predicate MovedBy(m: nat, q: seq<char>, w: seq<char>, pulled: seq<char>,
                          q': seq<char>, left: seq<char>, pulled': seq<char>)
  {
    m <= |w| && q' == q + w[..m] && pulled' == pulled + w[..m] && left == w[m..]
  }

  /** As many of the bytes w have moved as there was room for. */
  ghost predicate Moved(q: seq<char>, w: seq<char>, pulled: seq<char>,
                        q': seq<char>, left: seq<char>, pulled': seq<char>)
  {
    |q| < BUF_LEN && MovedBy(Least(BUF_LEN - 1 - |q|, |w|), q, w, pulled, q', left, pulled')
  }

  lemma MoveNone(q: seq<char>, w: seq<char>, pulled: seq<char>)
    ensures MovedBy(0, q, w + [], pulled, q, w, pulled)
  {
    assert w + [] == w && q + w[..0] == q && pulled + w[..0] == pulled;
  }

  /** More bytes come, and the first that is left moves. */
  lemma MoveOne(m: nat, q: seq<char>, w: seq<char>, more: seq<char>, pulled: seq<char>,
                q': seq<char>, left: seq<char>, pulled': seq<char>)
    requires MovedBy(m, q, w, pulled, q', left, pulled')
    ensures |q'| == |q| + m && MovedBy(m, q, w + more, pulled, q', left + more, pulled')
    ensures left + more != [] ==> var b := (left + more)[0];
      MovedBy(m + 1, q, w + more, pulled, q' + [b], (left + more)[1..], pulled' + [b])
  {
    var all := w + more;
    assert all[..m] == w[..m] && all[m..] == left + more;
    if left + more != [] {
      var b := (left + more)[0];
      assert all[..m + 1] == w[..m] + [b] && (left + more)[1..] == all[m + 1..];
      Associate(q, w[..m], [b]);
      Associate(pulled, w[..m], [b]);
    }
  }

  /** Having moved until nothing or no room was left is having moved as many as there was room for. */
  lemma MovedAll(m: nat, q: seq<char>, w: seq<char>, pulled: seq<char>,
                 q': seq<char>, left: seq<char>, pulled': seq<char>)
    requires MovedBy(m, q, w, pulled, q', left, pulled') && |q'| < BUF_LEN && (left == [] || |q'| == BUF_LEN - 1)
    ensures Moved(q, w, pulled, q', left, pulled') && |q'| == |q| + m && IsPrefix(q, q') && IsPrefix(pulled, pulled')
  {
  }

  lemma MovedAgain(q: seq<char>, w: seq<char>, pulled: seq<char>, q1: seq<char>, left1: seq<char>, pulled1: seq<char>,
                   more: seq<char>, q2: seq<char>, left2: seq<char>, pulled2: seq<char>)
    requires Moved(q, w, pulled, q1, left1, pulled1) && Moved(q1, left1 + more, pulled1, q2, left2, pulled2)
    ensures Moved(q, w + more, pulled, q2, left2, pulled2)
  {
    var m1 := Least(BUF_LEN - 1 - |q|, |w|);
    var m2 := Least(BUF_LEN - 1 - |q1|, |left1 + more|);
    assert Least(BUF_LEN - 1 - |q|, |w + more|) == m1 + m2;
    TwoParts(w, more, m1, m2);
    Associate(q, w[..m1], (w[m1..] + more)[..m2]);
    Associate(pulled, w[..m1], (w[m1..] + more)[..m2]);
  }

  lemma TwoParts(w: seq<char>, more: seq<char>, m1: nat, m2: nat)
    requires m1 <= |w| && m2 <= |w[m1..] + more|
    ensures m1 + m2 <= |w + more|
    ensures (w + more)[..m1 + m2] == w[..m1] + (w[m1..] + more)[..m2]
    ensures (w + more)[m1 + m2..] == (w[m1..] + more)[m2..]
  {
    var rest := w[m1..] + more;
    assert w + more == w[..m1] + rest;
    DropBoth(w[..m1], rest, m2);
  }

  lemma DropBoth(a: seq<char>, b: seq<char>, m: nat)
    requires m <= |b|
    ensures (a + b)[..|a| + m] == a + b[..m] && (a + b)[|a| + m..] == b[m..]
  {
  }

  /** Bytes are left only when there is no room. */
  lemma LeftIfFull(q: seq<char>, w: seq<char>, pulled: seq<char>, q': seq<char>, left: seq<char>, pulled': seq<char>)
    requires Moved(q, w, pulled, q', left, pulled')
    ensures |q| <= |q'| < BUF_LEN && (left != [] ==> |q'| == BUF_LEN - 1)
  {
  }

  /** The receive side after some rounds.  Without one that receives nothing has happened; after one, everything there
      was room for has moved, and the interrupt is off if bytes are left.  It is turned off only with the queue full. */
  ghost predicate Fed(moved: bool, q: seq<char>, fifo: seq<char>, came: seq<char>, pulled: seq<char>, re: bool,
                      q': seq<char>, fifo': seq<char>, pulled': seq<char>, re': bool)
  {
    && (re' == re || (!re' && |q'| == BUF_LEN - 1))
    && if moved then Moved(q, fifo + came, pulled, q', fifo', pulled') && (fifo' != [] ==> !re')
       else came == [] && q' == q && fifo' == fifo && pulled' == pulled
  }

  lemma FedNone(q: seq<char>, fifo: seq<char>, pulled: seq<char>, re: bool)
    ensures Fed(false, q, fifo, [], pulled, re, q, fifo, pulled, re)
  {
  }

  lemma FedAgain(moved: bool, q: seq<char>, fifo: seq<char>, came: seq<char>, pulled: seq<char>, re: bool,
                 q1: seq<char>, fifo1: seq<char>, pulled1: seq<char>, re1: bool,
                 more: seq<char>, q2: seq<char>, fifo2: seq<char>, pulled2: seq<char>, re2: bool)
    requires Fed(moved, q, fifo, came, pulled, re, q1, fifo1, pulled1, re1)
    requires Moved(q1, fifo1 + more, pulled1, q2, fifo2, pulled2)
    requires re2 == (re1 && !(|q2| == BUF_LEN - 1 && (fifo2 != [] || |q1| == BUF_LEN - 1)))
    ensures Fed(true, q, fifo, came + more, pulled, re, q2, fifo2, pulled2, re2)
  {
    LeftIfFull(q1, fifo1 + more, pulled1, q2, fifo2, pulled2);
    hide Moved;
    if moved {
      MovedAgain(q, fifo + came, pulled, q1, fifo1, pulled1, more, q2, fifo2, pulled2);
      Associate(fifo, came, more);
    } else {
      assert came + more == more;
    }
  }

  /** Of the queue q the first bytes have been written, as many as space allows. */
  ghost predicate Sent(q: seq<char>, written: seq<char>, space: nat, q': seq<char>, written': seq<char>) {
    var n := Least(space, |q|); written' == written + q[..n] && q' == q[n..]
  }

  lemma SentNone(q: seq<char>, written: seq<char>)
    ensures written + q[..0] == written && q[0..] == q
    ensures Sent(q, written, 0, q, written)
  {
  }

  lemma SentOne(q: seq<char>, written: seq<char>, n: nat)
    requires n < |q|
    ensures q[n..][1..] == q[n + 1..] && (written + q[..n]) + [q[n..][0]] == written + q[..n + 1]
  {
  }

  lemma SentParts(q: seq<char>, written: seq<char>, n: nat)
    requires n <= |q|
    ensures IsSuffix(q[n..], q) && IsPrefix(written, written + q[..n])
  {
  }

  lemma SentAgain(q: seq<char>, written: seq<char>, a: nat, q1: seq<char>, written1: seq<char>,
                  b: nat, q2: seq<char>, written2: seq<char>)
    requires Sent(q, written, a, q1, written1) && Sent(q1, written1, b, q2, written2)
    ensures Sent(q, written, a + b, q2, written2) && |q1| == |q| - Least(a, |q|)
  {
    var n, m := Least(a, |q|), Least(b, |q1|);
    assert Least(a + b, |q|) == n + m && q[n..][m..] == q[n + m..];
    assert q[..n + m] == q[..n] + q[n..][..m];
    Associate(written, q[..n], q[n..][..m]);
  }

  /** What the control register reports: which halves are pending, and the space in the transmit FIFO. */
  datatype Report = Report(ri: bool, wi: bool, wspace: nat)

  // Of the rounds up to the first that reports neither half:

  /** some round is to receive; */
  predicate Receives(reports: seq<Report>) {
    reports != [] && (reports[0].ri || (reports[0].wi && Receives(reports[1..])))
  }

  function SpaceOf(r: Report): nat {
    if r.wi then r.wspace else 0
  }

  /** the space they report in all; */
  function Spaces(reports: seq<Report>): nat {
    if reports == [] || !(reports[0].ri || reports[0].wi) then 0 else SpaceOf(reports[0]) + Spaces(reports[1..])
  }

  /** some round reports more space than there is left of n bytes. */
  predicate RunsDry(reports: seq<Report>, n: nat) {
    && reports != [] && (reports[0].ri || reports[0].wi)
    && (SpaceOf(reports[0]) > n || RunsDry(reports[1..], n - SpaceOf(reports[0])))
  }

  lemma RoundOf(reports: seq<Report>, i: nat, n: nat)
    requires i <= |reports|
    ensures if i < |reports| && (reports[i].ri || reports[i].wi) then
              && Spaces(reports[i..]) == SpaceOf(reports[i]) + Spaces(reports[i + 1..])
              && (Receives(reports[i..]) <==> reports[i].ri || Receives(reports[i + 1..]))
              && (RunsDry(reports[i..], n) <==>
                    SpaceOf(reports[i]) > n || RunsDry(reports[i + 1..], n - SpaceOf(reports[i])))
            else Spaces(reports[i..]) == 0 && !Receives(reports[i..]) && !RunsDry(reports[i..], n)
  {
    if i < |reports| {
      assert reports[i..][0] == reports[i] && reports[i..][1..] == reports[i + 1..];
    }
  }

  /** The transmit side when the rounds still to come are those in rest. */
  ghost predicate Drained(reports: seq<Report>, rest: seq<Report>, dry: bool,
                          q: seq<char>, written: seq<char>, we: bool, q': seq<char>, written': seq<char>, we': bool)
  {
    && Spaces(rest) <= Spaces(reports) && Sent(q, written, Spaces(reports) - Spaces(rest), q', written')
    && we' == (we && !dry) && (RunsDry(reports, |q|) <==> dry || RunsDry(rest, |q'|))
  }

  lemma DrainedNone(reports: seq<Report>, q: seq<char>, written: seq<char>, we: bool)
    ensures reports[0..] == reports && Drained(reports, reports, false, q, written, we, q, written, we)
  {
    SentNone(q, written);
  }

  lemma DrainedEnds(reports: seq<Report>, rest: seq<Report>, dry: bool,
                    q: seq<char>, written: seq<char>, we: bool, q': seq<char>, written': seq<char>, we': bool)
    requires Drained(reports, rest, dry, q, written, we, q', written', we')
    requires Spaces(rest) == 0 && !RunsDry(rest, |q'|)
    ensures Sent(q, written, Spaces(reports), q', written') && we' == (we && !RunsDry(reports, |q|))
  {
  }

  lemma DrainedAgain(reports: seq<Report>, i: nat, dry: bool, q: seq<char>, written: seq<char>, we: bool,
                     q1: seq<char>, written1: seq<char>, we1: bool, q2: seq<char>, written2: seq<char>, we2: bool)
    requires i < |reports| && (reports[i].ri || reports[i].wi)
    requires Drained(reports, reports[i..], dry, q, written, we, q1, written1, we1)
    requires Sent(q1, written1, SpaceOf(reports[i]), q2, written2) && we2 == (we1 && SpaceOf(reports[i]) <= |q1|)
    ensures Drained(reports, reports[i + 1..], dry || SpaceOf(reports[i]) > |q1|, q, written, we, q2, written2, we2)
  {
    hide Spaces, RunsDry;
    RoundOf(reports, i, |q1|);
    SentAgain(q, written, Spaces(reports) - Spaces(reports[i..]), q1, written1, SpaceOf(reports[i]), q2, written2);
  }

  class Uart {
    var rxIn: nat
    var rxOut: nat
    var txIn: nat
    var txOut: nat
    const rxBuf: array<char>
    const txBuf: array<char>
    /** the two bits of irq_enable */
    var re: bool
    var we: bool
    /** the device's receive FIFO, to which the host adds */
    var fifo: seq<char>

    /** bytes taken from the device's receive FIFO, and those of them that readers have removed */
    ghost var rxPulled: seq<char>
    ghost var rxReturned: seq<char>
    /** bytes writers have put in the buffer, and those of them given to the device */
    ghost var txAccepted: seq<char>
    ghost var txWritten: seq<char>
    /** some reader, or the writer, has yet to run the statement that enables its interrupt */
    ghost var readerOwes: bool
    ghost var writerOwes: bool

    ghost predicate Shape()
      reads this
    {
      && Indices(rxOut, rxIn) && Indices(txOut, txIn)
      && rxBuf.Length == BUF_LEN && txBuf.Length == BUF_LEN && rxBuf != txBuf
    }

    ghost function RxRing(): seq<char>
      requires Shape()
      reads this, rxBuf
    {
      Ring(rxBuf[..], rxOut, rxIn)
    }

    ghost function TxRing(): seq<char>
      requires Shape()
      reads this, txBuf
    {
      Ring(txBuf[..], txOut, txIn)
    }

    /** Nothing is lost, duplicated or reordered on either side. */
    ghost predicate Conserved()
      requires Shape()
      reads this, rxBuf, txBuf
    {
      rxPulled == rxReturned + RxRing() && txAccepted == txWritten + TxRing()
    }

    /** Neither side can be stuck with its interrupt off. */
    ghost predicate Armed()
      requires Shape()
      reads this, rxBuf, txBuf
    {
      (!re ==> RxRing() != [] || readerOwes) && (TxRing() != [] ==> we || writerOwes)
    }

    ghost predicate Valid()
      reads this, rxBuf, txBuf
    {
      Shape() && Conserved() && Armed()
    }

    /** altera_avalon_jtag_uart_init: receive interrupts on. */
    constructor ()
      ensures Valid() && fresh(rxBuf) && fresh(txBuf) && rxPulled == [] && txAccepted == []
      ensures !readerOwes && !writerOwes
    {
      rxBuf := new char[BUF_LEN];
      txBuf := new char[BUF_LEN];
      rxIn, rxOut, txIn, txOut := 0, 0, 0, 0;
      re, we, fifo := true, false, [];
      rxPulled, rxReturned, txAccepted, txWritten := [], [], [], [];
      readerOwes, writerOwes := false, false;
    }

    // ----- the device -----

    /** Reads the data register: a byte if there is one, and whether more are left.  Bytes the host has sent since the
        last read are there by now. */
    method ReadData() returns (valid: bool, byte: char, avail: bool, came: seq<char>)
      modifies `fifo, `rxPulled
      ensures valid <==> old(fifo) + came != []
      ensures fifo == if valid then (old(fifo) + came)[1..] else []
      ensures valid ==> byte == (old(fifo) + came)[0]
      ensures avail <==> fifo != []
      ensures rxPulled == if valid then old(rxPulled) + [byte] else old(rxPulled)
    {
      came, byte := *, *;
      fifo := fifo + came;
      valid := fifo != [];
      if valid {
        byte, fifo := fifo[0], fifo[1..];
        rxPulled := rxPulled + [byte];
      }
      avail := fifo != [];
    }

    method WriteData(byte: char)
      modifies `txWritten
      ensures txWritten == old(txWritten) + [byte]
    {
      txWritten := txWritten + [byte];
    }

    // ----- the interrupt routine -----

    ghost function Look(): View
      requires Shape()
      reads this, rxBuf, txBuf
    {
      View(rxOut, txIn, rxReturned, txAccepted, readerOwes, writerOwes, RxRing(), TxRing(), rxPulled, txWritten)
    }

    /** The read half: moves bytes from the FIFO to the buffer, in order, until there are none or no room, and turns
        the interrupt off when it had to leave bytes behind, as it supposes there are when the buffer was full to
        begin with. */
    method IrqReceive() returns (ghost came: seq<char>)
      requires Valid()
      modifies `rxIn, `re, `fifo, `rxPulled, rxBuf
      ensures Valid() && Interrupted(old(Look()), Look())
      ensures Moved(old(RxRing()), old(fifo) + came, old(rxPulled), RxRing(), fifo, rxPulled)
      ensures re == (old(re) && !(|RxRing()| == BUF_LEN - 1 && (fifo != [] || |old(RxRing())| == BUF_LEN - 1)))
    {
      hide Ring, IsPrefix, IsSuffix, Wrap, Moved, MovedBy, Conserved, Armed;
      came := [];
      var avail := true;
      var done := false;
      ghost var q, pulled, m := RxRing(), rxPulled, 0;
      ghost var unread := true;
      MoveNone(q, fifo, rxPulled);
      while !done
        invariant Valid() && re == old(re)
        invariant MovedBy(m, q, old(fifo) + came, pulled, RxRing(), fifo, rxPulled)
        invariant |RxRing()| == |q| + m && (avail <==> unread || fifo != [])
        invariant (unread ==> m == 0) && (!unread ==> |q| < BUF_LEN - 1)
        invariant done ==> |RxRing()| == BUF_LEN - 1 || (!unread && fifo == [])
        modifies `rxIn, `fifo, `rxPulled, rxBuf
        decreases !done, BUF_LEN - |RxRing()|
      {
        FullIffNextIsOut(rxOut, rxIn);
        var next := Wrap(rxIn + 1);
        if next == rxOut {
          done := true;
        } else {
          ghost var w, q1, left, pulled1 := old(fifo) + came, RxRing(), fifo, rxPulled;
          var valid, more;
          valid, avail, more := ReceiveOne();
          Associate(old(fifo), came, more);
          came, unread := came + more, false;
          MoveOne(m, q, w, more, pulled, q1, left, pulled1);
          if !valid {
            done := true;
          } else {
            m := m + 1;
          }
        }
      }
      MovedAll(m, q, old(fifo) + came, pulled, RxRing(), fifo, rxPulled);
      if avail {
        DisableReceive();
      }
      PrefixRefl(txWritten);
      SuffixRefl(TxRing());
    }

    method DisableReceive()
      requires Valid() && RxRing() != []
      modifies `re
      ensures Valid() && !re && RxRing() == old(RxRing()) && TxRing() == old(TxRing())
    {
      hide Ring;
      re := false;
    }

    /** Moves one byte, if there is one, from the FIFO to a buffer with room. */
    method ReceiveOne() returns (valid: bool, avail: bool, came: seq<char>)
      requires Valid() && Wrap(rxIn + 1) != rxOut
      modifies `rxIn, `fifo, `rxPulled, rxBuf
      ensures Valid() && (avail <==> fifo != []) && (valid <==> old(fifo) + came != [])
      ensures if valid then
                var b := (old(fifo) + came)[0];
                && RxRing() == old(RxRing()) + [b] && rxPulled == old(rxPulled) + [b] && fifo == (old(fifo) + came)[1..]
              else RxRing() == old(RxRing()) && rxPulled == old(rxPulled) && fifo == []
    {
      hide Ring, Wrap;
      var byte;
      valid, byte, avail, came := ReadData();
      if valid {
        Associate(rxReturned, RxRing(), [byte]);
        StoreReceived(byte);
      }
    }

    method StoreReceived(byte: char)
      requires Shape() && Wrap(rxIn + 1) != rxOut
      modifies `rxIn, rxBuf
      ensures Shape() && RxRing() == old(RxRing()) + [byte]
    {
      ghost var buf := rxBuf[..];
      FullIffNextIsOut(rxOut, rxIn);
      WritableFacts(rxOut, rxIn);
      hide Ring;
      rxBuf[rxIn] := byte;
      RingPut(buf, rxBuf[..], rxOut, rxIn, [byte]);
      rxIn := Wrap(rxIn + 1);
    }

    /** The write half: gives the device the next bytes of the queue, as many as it has space for, and turns the
        interrupt off exactly when space is left. */
    method IrqTransmit(wspace: nat)
      requires Valid()
      modifies `txOut, `we, `txWritten
      ensures Valid() && Interrupted(old(Look()), Look())
      ensures Sent(old(TxRing()), old(txWritten), wspace, TxRing(), txWritten)
      ensures we == (old(we) && wspace <= |old(TxRing())|)
    {
      hide Ring, IsPrefix, IsSuffix, Wrap;
      var space := wspace;
      ghost var q, written, n := TxRing(), txWritten, 0;
      SentNone(q, written);
      while space > 0 && txOut != txIn
        invariant Valid() && n <= |q| && space == wspace - n
        invariant txWritten == written + q[..n] && TxRing() == q[n..]
        modifies `txOut, `txWritten
        decreases space
      {
        SentOne(q, written, n);
        SendOne();
        space := space - 1;
        n := n + 1;
      }
      SentParts(q, written, n);
      if space > 0 {
        we := false;
      }
      PrefixRefl(rxPulled);
      PrefixRefl(RxRing());
    }

    method SendOne()
      requires Valid() && txOut != txIn
      modifies `txOut, `txWritten
      ensures Valid() && old(TxRing()) != [] && TxRing() == old(TxRing())[1..]
      ensures txWritten == old(txWritten) + [old(TxRing())[0]]
    {
      hide Ring, Wrap;
      TakeOne(txBuf[..], txOut, txIn);
      ghost var q := TxRing();
      assert q == [txBuf[txOut]] + q[1..];
      WriteData(txBuf[txOut]);
      txOut := Wrap(txOut + 1);
    }

    /** One round of the routine's loop: the halves the control register reports as pending. */
    method Round(r: Report) returns (ghost came: seq<char>)
      requires Valid()
      modifies `rxIn, `re, `fifo, `rxPulled, rxBuf, `txOut, `we, `txWritten
      ensures Valid() && Interrupted(old(Look()), Look())
      ensures Sent(old(TxRing()), old(txWritten), SpaceOf(r), TxRing(), txWritten)
      ensures we == (old(we) && SpaceOf(r) <= |old(TxRing())|)
      ensures if r.ri then Moved(old(RxRing()), old(fifo) + came, old(rxPulled), RxRing(), fifo, rxPulled)
              else came == [] && RxRing() == old(RxRing()) && rxPulled == old(rxPulled) && fifo == old(fifo)
      ensures re == (old(re) && !(r.ri && |RxRing()| == BUF_LEN - 1 && (fifo != [] || |old(RxRing())| == BUF_LEN - 1)))
    {
      hide Look, Interrupted, Conserved, Armed, Ring, Moved;
      came := [];
      ghost var v := Look();
      InterruptedRefl(v);
      if r.ri {
        came := IrqReceive();
      }
      ghost var v1 := Look();
      SentNone(TxRing(), txWritten);
      if r.wi {
        IrqTransmit(r.wspace);
        InterruptedTrans(v, v1, Look());
      }
    }

    /** altera_avalon_jtag_uart_irq, for whatever the control register reports from round to round: it sends the next
        bytes of the queue, as many as the reported space adds up to, and moves what has come if some round is to
        receive.  It turns an interrupt off exactly when that side has nothing to send, or no room left. */
    method Irq(reports: seq<Report>) returns (ghost came: seq<char>)
      requires Valid()
      modifies `rxIn, `re, `fifo, `rxPulled, rxBuf, `txOut, `we, `txWritten
      ensures Valid() && Interrupted(old(Look()), Look())
      ensures Sent(old(TxRing()), old(txWritten), Spaces(reports), TxRing(), txWritten)
      ensures we == (old(we) && !RunsDry(reports, |old(TxRing())|))
      ensures Fed(Receives(reports), old(RxRing()), old(fifo), came, old(rxPulled), old(re),
                  RxRing(), fifo, rxPulled, re)
    {
      hide Look, Interrupted, Conserved, Armed, Ring, Moved, Sent, Spaces, RunsDry, Receives, RingLen, Fed, Drained;
      ghost var v, q, written := Look(), TxRing(), txWritten;
      ghost var ring, w, pulled := RxRing(), fifo, rxPulled;
      InterruptedRefl(v);
      came := [];
      ghost var moved, dry := false, false;
      DrainedNone(reports, q, written, we);
      assert Fed(false, ring, w, [], pulled, re, ring, w, pulled, re) by {
        FedNone(ring, w, pulled, re);
      }
      var i := 0;
      while i < |reports| && (reports[i].ri || reports[i].wi)
        invariant 0 <= i <= |reports|
        invariant Valid() && Interrupted(v, Look())
        invariant Drained(reports, reports[i..], dry, q, written, old(we), TxRing(), txWritten, we)
        invariant Fed(moved, ring, w, came, pulled, old(re), RxRing(), fifo, rxPulled, re)
        invariant moved || Receives(reports[i..]) <==> Receives(reports)
        modifies `rxIn, `re, `fifo, `rxPulled, rxBuf, `txOut, `we, `txWritten
      {
        var r := reports[i];
        ghost var v1 := Look();
        ghost var q1, written1, we1 := TxRing(), txWritten, we;
        ghost var ring1, left1, pulled1, re1 := RxRing(), fifo, rxPulled, re;
        ghost var more := Round(r);
        RoundOf(reports, i, |q1|);
        DrainedAgain(reports, i, dry, q, written, old(we), q1, written1, we1, TxRing(), txWritten, we);
        InterruptedTrans(v, v1, Look());
        dry := dry || SpaceOf(r) > |q1|;
        if r.ri {
          FedAgain(moved, ring, w, came, pulled, old(re), ring1, left1, pulled1, re1,
                   more, RxRing(), fifo, rxPulled, re);
          moved, came := true, came + more;
        }
        i := i + 1;
      }
      RoundOf(reports, i, |TxRing()|);
      DrainedEnds(reports, reports[i..], dry, q, written, old(we), TxRing(), txWritten, we);
    }

    /** What may happen between two statements of a reader: any number of interrupts, of re-enables by readers that
        have released the lock, and of steps of a writer. */
    method PreemptReader()
      requires Valid()
      modifies `rxIn, `re, `fifo, `rxPulled, `readerOwes, rxBuf
      modifies `txIn, `txOut, `we, `txWritten, `txAccepted, `writerOwes, txBuf
      ensures Valid() && ReaderSafe(old(Look()), Look())
    {
      hide Look, Interrupted, ReaderSafe, WriterSafe, Conserved, Armed;
      ghost var v := Look();
      ReaderRefl(v);
      var rounds: nat := *;
      while rounds > 0
        invariant Valid() && ReaderSafe(v, Look())
        modifies `rxIn, `re, `fifo, `rxPulled, `readerOwes, rxBuf
        modifies `txIn, `txOut, `we, `txWritten, `txAccepted, `writerOwes, txBuf
        decreases rounds
      {
        var interrupt: bool, reader: bool := *, *;
        ghost var v1 := Look();
        if interrupt {
          var reports: seq<Report> := *;
          ghost var _ := Irq(reports);
          InterruptedSafe(v1, Look());
        } else if reader {
          EnableReceive();
          InterruptedSafe(v1, Look());
        } else {
          WriterStep();
        }
        ReaderTrans(v, v1, Look());
        rounds := rounds - 1;
      }
    }

    /** One step of a writer: it stores a byte where there is room, moves its index over what it has stored, or
        enables its interrupt. */
    method WriterStep()
      requires Valid()
      modifies `txIn, `we, `txAccepted, `writerOwes, txBuf
      ensures Valid() && ReaderSafe(old(Look()), Look())
    {
      hide Ring, Writable, RingLen, Conserved, Armed;
      PrefixRefl(RxRing());
      PrefixRefl(rxPulled);
      PrefixRefl(txWritten);
      PrefixRefl(txAccepted);
      WritableFacts(txOut, txIn);
      var store: bool, byte: char, i: nat, n: nat := *, *, *, *;
      if n <= Writable(txOut, txIn) && i < n {
        if store {
          StoreHidden(byte, i, n);
        } else {
          PrefixMore(txAccepted, txBuf[txIn..txIn + n]);
          Append(n);
        }
      } else {
        EnableTransmit();
      }
    }

    /** What may happen between two statements of a writer: the same, with the steps of a reader. */
    method PreemptWriter()
      requires Valid()
      modifies `rxIn, `rxOut, `re, `fifo, `rxPulled, `rxReturned, `readerOwes, rxBuf, `txOut, `we, `txWritten
      ensures Valid() && WriterSafe(old(Look()), Look())
    {
      hide Look, Interrupted, ReaderSafe, WriterSafe, Conserved, Armed;
      ghost var v := Look();
      WriterRefl(v);
      var rounds: nat := *;
      while rounds > 0
        invariant Valid() && WriterSafe(v, Look())
        modifies `rxIn, `rxOut, `re, `fifo, `rxPulled, `rxReturned, `readerOwes, rxBuf, `txOut, `we, `txWritten
        decreases rounds
      {
        var interrupt: bool, reader: bool := *, *;
        ghost var v1 := Look();
        if interrupt {
          var reports: seq<Report> := *;
          ghost var _ := Irq(reports);
          InterruptedSafe(v1, Look());
        } else if reader {
          EnableReceive();
          InterruptedSafe(v1, Look());
        } else {
          ReaderStep();
        }
        WriterTrans(v, v1, Look());
        rounds := rounds - 1;
      }
    }

    /** The one step of a reader that others notice before its re-enable: taking bytes off the queue. */
    method ReaderStep()
      requires Valid()
      modifies `rxOut, `rxReturned, `readerOwes
      ensures Valid() && WriterSafe(old(Look()), Look())
    {
      hide Ring, Readable, RingLen, Conserved, Armed;
      SuffixRefl(TxRing());
      PrefixRefl(rxPulled);
      PrefixRefl(txWritten);
      PrefixRefl(rxReturned);
      var n: nat := *;
      if 0 < n && n <= Readable(rxOut, rxIn) {
        ReadableFacts(rxOut, rxIn);
        PrefixMore(rxReturned, RxRing()[..n]);
        Remove(n);
      }
    }

    /** A reader's critical section, with interrupts disabled. */
    method EnableReceive()
      requires Valid()
      modifies `re, `readerOwes
      ensures Valid() && re && !readerOwes && Interrupted(old(Look()), Look())
    {
      hide Ring;
      PrefixRefl(RxRing());
      SuffixRefl(TxRing());
      PrefixRefl(rxPulled);
      PrefixRefl(txWritten);
      re := true;
      readerOwes := false;
    }

    // ----- the reader -----

    /** Copies n bytes from the queue's front; interrupts and other tasks may come before every byte. */
    method CopyOut(buffer: array<char>, ptr: nat, n: nat)
      requires Valid() && n <= Readable(rxOut, rxIn) && ptr + n <= buffer.Length && buffer != rxBuf && buffer != txBuf
      modifies `rxIn, `re, `fifo, `rxPulled, `readerOwes, rxBuf, buffer
      modifies `txIn, `txOut, `we, `txWritten, `txAccepted, `writerOwes, txBuf
      ensures Valid() && ReaderSafe(old(Look()), Look()) && n <= Readable(rxOut, rxIn)
      ensures n <= |old(RxRing())| && buffer[ptr..ptr + n] == old(RxRing())[..n]
      ensures buffer[..ptr] == old(buffer[..ptr]) && buffer[ptr + n..] == old(buffer[ptr + n..])
    {
      hide Conserved, Armed, Ring, Readable, IsSuffix, RingLen;
      ghost var v := Look();
      ReadableFacts(rxOut, rxIn);
      ReaderRefl(v);
      var i := 0;
      while i < n
        invariant 0 <= i <= n && Valid() && ReaderSafe(v, Look()) && n <= Readable(rxOut, rxIn)
        invariant forall k | 0 <= k < i :: buffer[ptr + k] == v.rxRing[k]
        invariant forall k | 0 <= k < buffer.Length && !(ptr <= k < ptr + i) :: buffer[k] == old(buffer[k])
        modifies `rxIn, `re, `fifo, `rxPulled, `readerOwes, rxBuf, buffer
        modifies `txIn, `txOut, `we, `txWritten, `txAccepted, `writerOwes, txBuf
      {
        ghost var v1, in1 := Look(), rxIn;
        PreemptReader();
        ReaderTrans(v, v1, Look());
        ReadableGrows(rxOut, in1, rxIn);
        RingAt(rxBuf[..], rxOut, rxIn, i);
        buffer[ptr + i] := rxBuf[rxOut + i];
        i := i + 1;
      }
      SliceIs(buffer[..], ptr, v.rxRing[..n]);
    }

    /** One pass of the inner loop of altera_avalon_jtag_uart_read: takes a contiguous part of the queue, or
        nothing if the queue was empty when looked at; in_ is the value of rx_in used. */
    method TakeChunk(buffer: array<char>, ptr: nat, space: nat) returns (n: nat, in_: nat, ghost taken: seq<char>)
      requires Valid() && 0 < space && ptr + space <= buffer.Length && buffer != rxBuf && buffer != txBuf
      modifies `rxIn, `rxOut, `re, `fifo, `rxPulled, `rxReturned, `readerOwes, rxBuf, buffer
      modifies `txIn, `txOut, `we, `txWritten, `txAccepted, `writerOwes, txBuf
      ensures Valid() && n <= space && rxReturned == old(rxReturned) + taken
      ensures buffer[..ptr + n] == old(buffer[..ptr]) + taken
      ensures buffer[ptr + n..] == old(buffer[ptr + n..])
      ensures n == 0 ==> old(RxRing()) == [] && in_ == rxOut && rxOut == old(rxOut)
      ensures (readerOwes ==> old(readerOwes) || n > 0)
      ensures IsPrefix(old(rxPulled), rxPulled) && IsPrefix(old(txAccepted), txAccepted)
      ensures IsPrefix(old(txWritten), txWritten)
    {
      hide Conserved, Armed, Ring, Readable, IsSuffix, IsPrefix, RingLen, Wrap, ReaderSafe;
      ghost var v := Look();
      n, in_ := Measure(space);
      ghost var v1 := Look();
      ReaderFacts(v, v1);
      if n != 0 {
        MoveOut(buffer, ptr, n);
        taken := buffer[ptr..ptr + n];
        Rejoin(buffer[..], ptr, n);
        PrefixTrans(v.rxPulled, v1.rxPulled, rxPulled);
        PrefixTrans(v.txAccepted, v1.txAccepted, txAccepted);
        PrefixTrans(v.txWritten, v1.txWritten, txWritten);
      } else {
        taken := [];
        Rejoin(buffer[..], ptr, 0);
      }
    }

    /** Copies n bytes and then takes them off the queue. */
    method MoveOut(buffer: array<char>, ptr: nat, n: nat)
      requires Valid() && 0 < n <= Readable(rxOut, rxIn) && ptr + n <= buffer.Length
      requires buffer != rxBuf && buffer != txBuf
      modifies `rxIn, `rxOut, `re, `fifo, `rxPulled, `rxReturned, `readerOwes, rxBuf, buffer
      modifies `txIn, `txOut, `we, `txWritten, `txAccepted, `writerOwes, txBuf
      ensures Valid() && rxReturned == old(rxReturned) + buffer[ptr..ptr + n]
      ensures buffer[..ptr] == old(buffer[..ptr]) && buffer[ptr + n..] == old(buffer[ptr + n..])
      ensures IsPrefix(old(rxPulled), rxPulled) && IsPrefix(old(txAccepted), txAccepted)
      ensures IsPrefix(old(txWritten), txWritten)
    {
      hide Conserved, Armed, Ring, Readable, IsSuffix, IsPrefix, RingLen, Wrap, ReaderSafe;
      ghost var v := Look();
      CopyOut(buffer, ptr, n);
      ghost var v1, in1 := Look(), rxIn;
      Balance();
      PreemptReader();
      Balance();
      ReaderTrans(v, v1, Look());
      ReaderFacts(v1, Look());
      ReaderFacts(v, Look());
      ReadableGrows(rxOut, in1, rxIn);
      PrefixPart(v.rxRing, RxRing(), n);
      Remove(n);
    }

    /** How much can be copied in one piece. */
    method Measure(space: nat) returns (n: nat, in_: nat)
      requires Valid() && space > 0
      modifies `rxIn, `re, `fifo, `rxPulled, `readerOwes, rxBuf
      modifies `txIn, `txOut, `we, `txWritten, `txAccepted, `writerOwes, txBuf
      ensures Valid() && ReaderSafe(old(Look()), Look())
      ensures n <= space && n <= Readable(rxOut, rxIn) && n <= |RxRing()|
      ensures n == 0 ==> old(RxRing()) == [] && in_ == rxOut
    {
      hide Conserved, Armed, Ring, Readable, IsSuffix, IsPrefix, RingLen, Wrap, ReaderSafe;
      ghost var v0 := Look();
      PreemptReader();
      in_ := rxIn;
      ghost var v1 := Look();
      Balance();
      PreemptReader();
      var out := rxOut;
      n := if in_ >= out then in_ - out else BUF_LEN - out;
      ReaderTrans(v0, v1, Look());
      ReaderFacts(v0, v1);
      ReaderFacts(v1, Look());
      StillReadable(v1, in_, n);
      if n > space {
        n := space;
      }
      ReadableFacts(rxOut, rxIn);
      Balance();
    }

    /** The inner loop: moves bytes out, in order, until the caller's buffer is full or the queue empty. */
    method TakeAvailable(buffer: array<char>, space: nat) returns (ptr: nat, in_: nat)
      requires Valid() && 0 < space <= buffer.Length && buffer != rxBuf && buffer != txBuf
      modifies `rxIn, `rxOut, `re, `fifo, `rxPulled, `rxReturned, `readerOwes, rxBuf, buffer
      modifies `txIn, `txOut, `we, `txWritten, `txAccepted, `writerOwes, txBuf
      ensures Valid() && ptr <= space && rxReturned == old(rxReturned) + buffer[..ptr]
      ensures ptr == space || ptr >= |old(RxRing())|
      ensures ptr == 0 ==> in_ == rxOut == old(rxOut) && old(RxRing()) == []
      ensures (readerOwes ==> old(readerOwes) || ptr > 0)
      ensures IsPrefix(old(rxPulled), rxPulled) && IsPrefix(old(txAccepted), txAccepted)
      ensures IsPrefix(old(txWritten), txWritten)
    {
      hide Conserved, Armed, Ring, Readable, IsSuffix, IsPrefix, RingLen, Wrap;
      ptr := 0;
      ghost var got := [];
      var left := space;
      PrefixRefl(rxPulled);
      PrefixRefl(txAccepted);
      PrefixRefl(txWritten);
      Balance();
      while true
        invariant 0 < left == space - ptr
        invariant Valid() && rxReturned == old(rxReturned) + got && buffer[..ptr] == got
        invariant ptr == 0 ==> rxOut == old(rxOut)
        invariant readerOwes ==> old(readerOwes) || ptr > 0
        invariant IsPrefix(old(rxPulled), rxPulled) && IsPrefix(old(txAccepted), txAccepted)
        invariant IsPrefix(old(txWritten), txWritten)
        modifies `rxIn, `rxOut, `re, `fifo, `rxPulled, `rxReturned, `readerOwes, rxBuf, buffer
        modifies `txIn, `txOut, `we, `txWritten, `txAccepted, `writerOwes, txBuf
        decreases left
      {
        ghost var pulled, accepted, written, taken := rxPulled, txAccepted, txWritten, [];
        PrefixLen(old(rxPulled), rxPulled);
        Balance();
        var n;
        n, in_, taken := TakeChunk(buffer, ptr, left);
        Associate(old(rxReturned), got, taken);
        got := got + taken;
        PrefixTrans(old(rxPulled), pulled, rxPulled);
        PrefixTrans(old(txAccepted), accepted, txAccepted);
        PrefixTrans(old(txWritten), written, txWritten);
        ptr := ptr + n;
        left := left - n;
        if n == 0 || left == 0 {
          break;
        }
      }
    }

    lemma StillReadable(v: View, in_: nat, n: nat)
      requires Shape() && Indices(rxOut, in_) && |v.rxRing| == RingLen(rxOut, in_) && IsPrefix(v.rxRing, RxRing())
      requires n == if in_ >= rxOut then in_ - rxOut else BUF_LEN - rxOut
      ensures n <= Readable(rxOut, rxIn) && (n == 0 ==> v.rxRing == [] && in_ == rxOut)
    {
      ReadableGrows(rxOut, in_, rxIn);
    }

    lemma Balance()
      requires Valid()
      ensures |rxPulled| == |rxReturned| + |RxRing()| && |txAccepted| == |txWritten| + |TxRing()|
      ensures |RxRing()| == RingLen(rxOut, rxIn) && |TxRing()| == RingLen(txOut, txIn)
    {
    }

    /** rx_out = (out + n) % BUF_LEN: the copied bytes leave the queue for good. */
    method Remove(n: nat)
      requires Valid() && 0 < n <= Readable(rxOut, rxIn)
      modifies `rxOut, `rxReturned, `readerOwes
      ensures Valid() && readerOwes && n <= |old(RxRing())|
      ensures rxReturned == old(rxReturned) + old(RxRing())[..n] && RxRing() == old(RxRing())[n..]
    {
      hide Ring, Readable, Wrap, RingLen;
      RingTake(rxBuf[..], rxOut, rxIn, n);
      ghost var q := RxRing();
      rxReturned := rxReturned + q[..n];
      assert q == q[..n] + q[n..];
      rxOut := Wrap(rxOut + n);
      readerOwes := true;
    }

    /** altera_avalon_jtag_uart_read: the bytes returned are the next ones of the stream, at least as many as were
        waiting (up to space); with none it fails, and it leaves the receive interrupt no worse than it found
        it. */
    method Read(buffer: array<char>, space: nat, nonblock: bool) returns (r: int)
      requires Valid() && space <= buffer.Length && buffer != rxBuf && buffer != txBuf
      modifies `rxIn, `rxOut, `re, `fifo, `rxPulled, `rxReturned, `readerOwes, rxBuf, buffer
      modifies `txIn, `txOut, `we, `txWritten, `txAccepted, `writerOwes, txBuf
      ensures Valid() && (readerOwes ==> old(readerOwes) && r < 0)
      ensures TxOn(old(Look()), Look())
      ensures space > 0 && old(RxRing()) != [] ==> r == space || r >= |old(RxRing())|
      ensures r < 0 ==> r == (if nonblock then -EWOULDBLOCK else -EIO) && rxReturned == old(rxReturned)
      ensures r >= 0 ==> 0 < r <= space && rxReturned == old(rxReturned) + buffer[..r]
    {
      hide Conserved, Armed, Ring, IsSuffix, IsPrefix, RingLen, ReaderSafe, TxOn;
      var ptr := 0;
      TxRefl(Look());
      ghost var first := true;
      while space > 0
        invariant Valid() && (readerOwes ==> old(readerOwes))
        invariant TxOn(old(Look()), Look())
        invariant rxReturned == old(rxReturned) && ptr == 0
        invariant if first then RxRing() == old(RxRing()) else old(RxRing()) == [] && RxRing() != []
        modifies `rxIn, `rxOut, `re, `fifo, `rxPulled, `rxReturned, `readerOwes, rxBuf, buffer
        modifies `txIn, `txOut, `we, `txWritten, `txAccepted, `writerOwes, txBuf
        decreases first
      {
        var in_;
        ghost var v0 := Look();
        ptr, in_ := TakeAvailable(buffer, space);
        TxTrans(old(Look()), v0, Look());
        if ptr != 0 {
          break;
        }
        if nonblock {
          break;
        }
        ghost var v := Look();
        PreemptReader();
        ReaderFacts(v, Look());
        TxTrans(old(Look()), v, Look());
        if in_ == rxIn {
          break;
        }
        first := false;
      }
      ghost var v := Look();
      ReaderLeaves(ptr != 0);
      TxTrans(old(Look()), v, Look());
      if ptr != 0 {
        return ptr;
      } else if nonblock {
        return -EWOULDBLOCK;
      } else {
        return -EIO;
      }
    }

    /** From the end of the copying to the return: the read lock is given up and, if anything was read, the
        interrupt turned on again; interrupts and other readers may come before and after. */
    method ReaderLeaves(any: bool)
      requires Valid()
      modifies `rxIn, `re, `fifo, `rxPulled, `readerOwes, rxBuf
      modifies `txIn, `txOut, `we, `txWritten, `txAccepted, `writerOwes, txBuf
      ensures Valid() && ReaderSafe(old(Look()), Look()) && (any ==> !readerOwes)
      ensures rxReturned == old(rxReturned)
      ensures IsPrefix(old(txAccepted), txAccepted) && IsPrefix(old(txWritten), txWritten)
      ensures readerOwes ==> old(readerOwes)
    {
      hide Conserved, Armed, Ring, IsSuffix, IsPrefix, RingLen, ReaderSafe;
      ghost var v := Look();
      PreemptReader();
      if any {
        ghost var v1 := Look();
        EnableReceive();
        InterruptedSafe(v1, Look());
        ReaderTrans(v, v1, Look());
        ghost var v2 := Look();
        PreemptReader();
        ReaderTrans(v, v2, Look());
        ReaderFacts(v2, Look());
      }
      ReaderFacts(v, Look());
    }

    // ----- the writer -----

    /** Copies n bytes behind the queue's end; interrupts may come before every byte, and none of them sees the
        bytes yet. */
    method CopyIn(data: seq<char>, ptr: nat, n: nat)
      requires Valid() && n <= Writable(txOut, txIn) && ptr + n <= |data|
      modifies `rxIn, `rxOut, `re, `fifo, `rxPulled, `rxReturned, `readerOwes, rxBuf, `txOut, `we, `txWritten, txBuf
      ensures Valid() && WriterSafe(old(Look()), Look()) && n <= Writable(txOut, txIn)
      ensures txIn + n <= BUF_LEN && txBuf[txIn..txIn + n] == data[ptr..ptr + n]
    {
      hide Conserved, Armed, Ring, IsSuffix, IsPrefix, RingLen, WriterSafe, Writable;
      ghost var v := Look();
      WritableFacts(txOut, txIn);
      WriterRefl(v);
      var i := 0;
      while i < n
        invariant 0 <= i <= n && Valid() && WriterSafe(v, Look()) && n <= Writable(txOut, txIn) && v.txIn == txIn
        invariant txBuf[txIn..txIn + i] == data[ptr..ptr + i]
        modifies `rxIn, `rxOut, `re, `fifo, `rxPulled, `rxReturned, `readerOwes, rxBuf, `txOut, `we, `txWritten, txBuf
      {
        NextSlice(data, ptr, i);
        ghost var v1 := Look();
        CopyInOne(data[ptr + i], i, n);
        WriterTrans(v, v1, Look());
        i := i + 1;
      }
      WriterFacts(v, Look());
    }

    /** The copy, and interrupts after its last byte: still none of the bytes is part of the queue. */
    method CopyInWhole(data: seq<char>, ptr: nat, n: nat)
      requires Valid() && n <= Writable(txOut, txIn) && ptr + n <= |data|
      modifies `rxIn, `rxOut, `re, `fifo, `rxPulled, `rxReturned, `readerOwes, rxBuf, `txOut, `we, `txWritten, txBuf
      ensures Valid() && WriterSafe(old(Look()), Look()) && n <= Writable(txOut, txIn)
      ensures txIn + n <= BUF_LEN && txBuf[txIn..txIn + n] == data[ptr..ptr + n]
    {
      hide Conserved, Armed, Ring, IsSuffix, IsPrefix, RingLen, WriterSafe, Writable;
      ghost var v := Look();
      CopyIn(data, ptr, n);
      ghost var v1, out1 := Look(), txOut;
      Balance();
      PreemptWriter();
      Balance();
      WriterTrans(v, v1, Look());
      WriterFacts(v1, Look());
      WritableGrows(out1, txOut, txIn);
    }

    /** Stores one byte in a free cell, after any number of interrupts. */
    method CopyInOne(byte: char, i: nat, ghost n: nat)
      requires Valid() && i < n <= Writable(txOut, txIn) && txIn + n <= BUF_LEN
      modifies `rxIn, `rxOut, `re, `fifo, `rxPulled, `rxReturned, `readerOwes, rxBuf, `txOut, `we, `txWritten, txBuf
      ensures Valid() && WriterSafe(old(Look()), Look()) && n <= Writable(txOut, txIn)
      ensures txBuf[txIn..txIn + (i + 1)] == old(txBuf[txIn..txIn + i]) + [byte]
    {
      hide Conserved, Armed, Ring, IsSuffix, IsPrefix, RingLen, WriterSafe, Writable;
      ghost var v, out, old1 := Look(), txOut, txBuf[txIn..txIn + i];
      Balance();
      PreemptWriter();
      Balance();
      WriterFacts(v, Look());
      WritableGrows(out, txOut, txIn);
      StoreHidden(byte, i, n);
    }

    method StoreHidden(byte: char, i: nat, ghost n: nat)
      requires Valid() && i < n <= Writable(txOut, txIn) && txIn + n <= BUF_LEN
      modifies txBuf
      ensures Valid() && Look() == old(Look())
      ensures txBuf[txIn..txIn + (i + 1)] == old(txBuf[txIn..txIn + i]) + [byte]
    {
      hide Ring, Writable;
      ghost var buf := txBuf[..];
      txBuf[txIn + i] := byte;
      RingIgnoresFree(buf, txBuf[..], txOut, txIn, n);
    }

    /** tx_in = (in + n) % BUF_LEN: the copied bytes join the queue. */
    method Append(n: nat)
      requires Valid() && 0 < n <= Writable(txOut, txIn) && txIn + n <= BUF_LEN
      modifies `txIn, `txAccepted, `writerOwes
      ensures Valid() && writerOwes && txIn != txOut
      ensures txAccepted == old(txAccepted) + txBuf[old(txIn)..old(txIn) + n]
      ensures TxRing() == old(TxRing()) + txBuf[old(txIn)..old(txIn) + n]
    {
      hide Ring, Writable, Wrap, RingLen;
      ghost var data := txBuf[txIn..txIn + n];
      RingPut(txBuf[..], txBuf[..], txOut, txIn, data);
      FillingKeepsApart(txOut, txIn, n);
      txAccepted := txAccepted + data;
      txIn := Wrap(txIn + n);
      writerOwes := true;
    }

    /** How much can be stored in one piece; out is the value of tx_out used. */
    method Room(count: nat) returns (n: nat, out: nat)
      requires Valid() && count > 0
      modifies `rxIn, `rxOut, `re, `fifo, `rxPulled, `rxReturned, `readerOwes, rxBuf, `txOut, `we, `txWritten
      ensures Valid() && WriterSafe(old(Look()), Look())
      ensures n <= count && n <= Writable(txOut, txIn)
      ensures n == 0 ==> |old(TxRing())| == BUF_LEN - 1 && out < BUF_LEN && RingLen(out, txIn) == BUF_LEN - 1
    {
      hide Conserved, Armed, Ring, Writable, IsSuffix, IsPrefix, RingLen, Wrap, WriterSafe;
      ghost var v0 := Look();
      var in_ := txIn;
      PreemptWriter();
      out := txOut;
      ghost var v1 := Look();
      Balance();
      PreemptWriter();
      Balance();
      WriterTrans(v0, v1, Look());
      WriterFacts(v0, v1);
      WriterFacts(v1, Look());
      n := if in_ < out then out - 1 - in_ else if out > 0 then BUF_LEN - in_ else BUF_LEN - 1 - in_;
      StillWritable(out, in_, n);
      if n > count {
        n := count;
      }
    }

    lemma StillWritable(out: nat, in_: nat, n: nat)
      requires Valid() && Indices(out, in_) && in_ == txIn && |TxRing()| <= RingLen(out, in_)
      requires n == if in_ < out then out - 1 - in_ else if out > 0 then BUF_LEN - in_ else BUF_LEN - 1 - in_
      ensures n <= Writable(txOut, txIn) && (n == 0 ==> RingLen(out, in_) == BUF_LEN - 1)
    {
      hide Ring;
      Balance();
      WritableFacts(out, in_);
      WritableGrows(out, txOut, in_);
    }

    /** One pass of the inner loop of altera_avalon_jtag_uart_write: accepts a contiguous part of the data, or
        nothing if the buffer was full when looked at. */
    method PutChunk(data: seq<char>, ptr: nat) returns (n: nat, out: nat)
      requires Valid() && ptr < |data|
      modifies `rxIn, `rxOut, `re, `fifo, `rxPulled, `rxReturned, `readerOwes, rxBuf
      modifies `txIn, `txOut, `we, `txWritten, `txAccepted, `writerOwes, txBuf
      ensures Valid() && n <= |data| - ptr && txAccepted == old(txAccepted) + data[ptr..ptr + n]
      ensures writerOwes == (old(writerOwes) || n > 0)
      ensures n == 0 ==> |old(TxRing())| == BUF_LEN - 1 && out < BUF_LEN && RingLen(out, txIn) == BUF_LEN - 1
      ensures Untouched(old(Look()), Look())
    {
      hide Conserved, Armed, Ring, Writable, IsSuffix, IsPrefix, RingLen, Wrap, WriterSafe, Untouched;
      ghost var v0 := Look();
      n, out := Room(|data| - ptr);
      if n != 0 {
        ghost var v1 := Look();
        CopyInWhole(data, ptr, n);
        WriterTrans(v0, v1, Look());
        WriterFacts(v0, Look());
        WriterUntouched(v0, Look());
        ghost var v2 := Look();
        Append(n);
        UntouchedSame(v0, v2, Look());
      } else {
        WriterFacts(v0, Look());
        WriterUntouched(v0, Look());
        assert data[ptr..ptr] == [];
      }
    }

    /** The inner loop: accepts data until it is used up or the buffer is full. */
    method PutAvailable(data: seq<char>, start: nat) returns (ptr: nat, out: nat)
      requires Valid() && start <= |data|
      modifies `rxIn, `rxOut, `re, `fifo, `rxPulled, `rxReturned, `readerOwes, rxBuf
      modifies `txIn, `txOut, `we, `txWritten, `txAccepted, `writerOwes, txBuf
      ensures Valid() && start <= ptr <= |data| && txAccepted == old(txAccepted) + data[start..ptr]
      ensures Untouched(old(Look()), Look())
      ensures ptr < |data| ==> out < BUF_LEN && RingLen(out, txIn) == BUF_LEN - 1
      ensures ptr < |data| ==> ptr - start >= BUF_LEN - 1 - |old(TxRing())|
    {
      hide Conserved, Armed, Ring, IsSuffix, IsPrefix, RingLen, Wrap, Untouched;
      ptr, out := start, 0;
      UntouchedRefl(Look());
      ghost var done := [];
      assert data[start..start] == [];
      Balance();
      while ptr < |data|
        invariant Valid() && start <= ptr <= |data| && txAccepted == old(txAccepted) + done && done == data[start..ptr]
        invariant Untouched(old(Look()), Look())
        modifies `rxIn, `rxOut, `re, `fifo, `rxPulled, `rxReturned, `readerOwes, rxBuf
        modifies `txIn, `txOut, `we, `txWritten, `txAccepted, `writerOwes, txBuf
        decreases |data| - ptr
      {
        ghost var v := Look();
        Balance();
        UntouchedFacts(old(Look()), v);
        var n;
        n, out := PutChunk(data, ptr);
        UntouchedTrans(old(Look()), v, Look());
        SplitSlice(data, start, ptr, ptr + n);
        Associate(old(txAccepted), done, data[ptr..ptr + n]);
        done := done + data[ptr..ptr + n];
        ptr := ptr + n;
        if n == 0 {
          break;
        }
      }
    }

    /** The writer's critical section, with interrupts disabled. */
    method EnableTransmit()
      requires Valid()
      modifies `we, `writerOwes
      ensures Valid() && we && !writerOwes && Look() == old(Look()).(writerOwes := false)
    {
      hide Ring;
      we := true;
      writerOwes := false;
    }

    /** Fills the buffer and kicks the interrupt routine. */
    method PutRound(data: seq<char>, start: nat) returns (ptr: nat, out: nat)
      requires Valid() && start <= |data|
      modifies `rxIn, `rxOut, `re, `fifo, `rxPulled, `rxReturned, `readerOwes, rxBuf
      modifies `txIn, `txOut, `we, `txWritten, `txAccepted, `writerOwes, txBuf
      ensures Valid() && start <= ptr <= |data| && txAccepted == old(txAccepted) + data[start..ptr]
      ensures !writerOwes && Untouched(old(Look()), Look())
      ensures ptr < |data| ==> out < BUF_LEN && RingLen(out, txIn) == BUF_LEN - 1
      ensures ptr < |data| ==> ptr - start >= BUF_LEN - 1 - |old(TxRing())|
      ensures ptr == start ==> |TxRing()| <= |old(TxRing())|
    {
      hide Conserved, Armed, Ring, IsSuffix, IsPrefix, RingLen, Wrap, Untouched;
      Balance();
      ghost var v := Look();
      ptr, out := PutAvailable(data, start);
      ghost var v1 := Look();
      Kick();
      UntouchedTrans(v, v1, Look());
      UntouchedFacts(v, Look());
      Balance();
    }

    /** The enable, with interrupts before and after it. */
    method Kick()
      requires Valid()
      modifies `rxIn, `rxOut, `re, `fifo, `rxPulled, `rxReturned, `readerOwes, rxBuf
      modifies `txOut, `we, `txWritten, `writerOwes
      ensures Valid() && !writerOwes && Untouched(old(Look()), Look())
    {
      hide Look, Conserved, Armed, Ring, IsSuffix, IsPrefix, RingLen, Untouched;
      ghost var v := Look();
      Interlude();
      ghost var v1 := Look();
      EnableTransmit();
      UntouchedSame(v, v1, Look());
      ghost var v2 := Look();
      Interlude();
      UntouchedTrans(v, v2, Look());
    }

    method Interlude()
      requires Valid()
      modifies `rxIn, `rxOut, `re, `fifo, `rxPulled, `rxReturned, `readerOwes, rxBuf, `txOut, `we, `txWritten
      ensures Valid() && writerOwes == old(writerOwes) && Untouched(old(Look()), Look())
    {
      hide Conserved, Armed, Ring, IsSuffix, IsPrefix, RingLen, WriterSafe, Untouched;
      ghost var v := Look();
      PreemptWriter();
      WriterFacts(v, Look());
      WriterUntouched(v, Look());
    }

    /** altera_avalon_jtag_uart_write: the bytes accepted are a prefix of the data whose length is the result, at
        least as long as there was room for; with none it fails. */
    method Write(data: seq<char>, nonblock: bool) returns (r: int)
      requires Valid()
      modifies `rxIn, `rxOut, `re, `fifo, `rxPulled, `rxReturned, `readerOwes, rxBuf
      modifies `txIn, `txOut, `we, `txWritten, `txAccepted, `writerOwes, txBuf
      ensures Valid() && !writerOwes && Untouched(old(Look()), Look())
      ensures r < 0 ==> r == (if nonblock then -EWOULDBLOCK else -EIO) && txAccepted == old(txAccepted)
      ensures r >= 0 ==> 0 < r <= |data| && txAccepted == old(txAccepted) + data[..r]
      ensures var k := if r < 0 then 0 else r; k == |data| || k >= BUF_LEN - 1 - |old(TxRing())|
    {
      hide Conserved, Armed, Ring, IsSuffix, IsPrefix, RingLen, Wrap, Untouched, WriterSafe;
      var ptr, out := 0, 0;
      UntouchedRefl(Look());
      assert data[..0] == [];
      while true
        invariant Valid() && Untouched(old(Look()), Look())
        invariant 0 <= ptr <= |data| && txAccepted == old(txAccepted) + data[..ptr]
        invariant ptr == 0 ==> |TxRing()| <= |old(TxRing())|
        invariant ptr > 0 ==> ptr < |data| && ptr >= BUF_LEN - 1 - |old(TxRing())|
        modifies `rxIn, `rxOut, `re, `fifo, `rxPulled, `rxReturned, `readerOwes, rxBuf
        modifies `txIn, `txOut, `we, `txWritten, `txAccepted, `writerOwes, txBuf
        decreases 2 * (|data| - ptr) + if |TxRing()| == BUF_LEN - 1 then 1 else 0
      {
        ghost var v, p := Look(), ptr;
        Balance();
        ptr, out := PutRound(data, ptr);
        UntouchedTrans(old(Look()), v, Look());
        SplitSlice(data, 0, p, ptr);
        Associate(old(txAccepted), data[..p], data[p..ptr]);
        if ptr == |data| {
          break;
        }
        if nonblock {
          break;
        }
        ghost var v1 := Look();
        PreemptWriter();
        WriterFacts(v1, Look());
        WriterUntouched(v1, Look());
        UntouchedTrans(old(Look()), v1, Look());
        if out == txOut {
          break;
        }
        Balance();
        FullOnce(out, txOut, txIn);
      }
      if ptr != 0 {
        return ptr;
      } else if nonblock {
        return -EWOULDBLOCK;
      } else {
        return -EIO;
      }
    }
  }

  /** What a reader leaves of the other side: only interrupts and writers have moved it on. */
  ghost predicate TxOn(v: View, v': View) {
    IsPrefix(v.txAccepted, v'.txAccepted) && IsPrefix(v.txWritten, v'.txWritten)
  }

  lemma TxRefl(v: View)
    ensures TxOn(v, v)
  {
  }

  lemma TxTrans(u: View, v: View, w: View)
    requires TxOn(u, v) && IsPrefix(v.txAccepted, w.txAccepted) && IsPrefix(v.txWritten, w.txWritten)
    ensures TxOn(u, w)
  {
  }

  /** What a writer leaves of the other side: only interrupts and readers have moved it on. */
  ghost predicate Untouched(v: View, v': View) {
    IsPrefix(v.rxReturned, v'.rxReturned) && IsPrefix(v.rxPulled, v'.rxPulled) && IsPrefix(v.txWritten, v'.txWritten)
  }

  lemma UntouchedRefl(v: View)
    ensures Untouched(v, v)
  {
  }

  lemma UntouchedTrans(u: View, v: View, w: View)
    requires Untouched(u, v) && Untouched(v, w)
    ensures Untouched(u, w)
  {
  }

  lemma UntouchedFacts(v: View, v': View)
    requires Untouched(v, v')
    ensures |v.txWritten| <= |v'.txWritten|
  {
  }

  lemma WriterUntouched(v: View, v': View)
    requires WriterSafe(v, v')
    ensures Untouched(v, v')
  {
  }

  /** A step of the writer's own. */
  lemma UntouchedSame(u: View, v: View, w: View)
    requires Untouched(u, v) && w.rxReturned == v.rxReturned && w.rxPulled == v.rxPulled && w.txWritten == v.txWritten
    ensures Untouched(u, w)
  {
  }

  /** The front byte, and the queue without it. */
  lemma TakeOne(buf: seq<char>, out: nat, in_: nat)
    requires |buf| == BUF_LEN && Indices(out, in_) && out != in_
    ensures Wrap(out + 1) < BUF_LEN
    ensures Ring(buf, out, in_) == [buf[out]] + Ring(buf, Wrap(out + 1), in_)
    ensures Ring(buf, Wrap(out + 1), in_) == Ring(buf, out, in_)[1..]
  {
    hide Ring, Wrap;
    ReadableFacts(out, in_);
    RingTake(buf, out, in_, 1);
    RingAt(buf, out, in_, 0);
  }

  lemma SuffixTail(a: seq<char>, b: seq<char>)
    requires IsSuffix(a, b)
    ensures a != [] ==> IsSuffix(a[1..], b)
  {
  }

  lemma SuffixRefl(a: seq<char>)
    ensures IsSuffix(a, a)
  {
  }

  lemma PrefixRefl(a: seq<char>)
    ensures IsPrefix(a, a)
  {
  }

  lemma PrefixMore(a: seq<char>, b: seq<char>)
    ensures IsPrefix(a, a + b)
  {
  }

  lemma PrefixAppend(a: seq<char>, b: seq<char>, c: char)
    requires IsPrefix(a, b)
    ensures IsPrefix(a, b + [c])
  {
  }
}
