/** Bluetooth framing: byte-stuffed packets out, a start/end state machine in, and the packet buffer between. */
module Framing {
  import opened Options

  newtype Octet = x: int | 0 <= x < 256

  const START: Octet := 2
  const END: Octet := 3
  const ESCAPE: Octet := 4
  const BUF_SIZE: nat := 256
  const QUEUE_LENGTH: nat := 10

  predicate Special(b: Octet) {
    b == START || b == END || b == ESCAPE
  }

  function Stuff(p: seq<Octet>): seq<Octet> {
    if p == [] then []
    else Stuff(p[..|p| - 1]) + if Special(p[|p| - 1]) then [ESCAPE, p[|p| - 1]] else [p[|p| - 1]]
  }

  function Frame(p: seq<Octet>): seq<Octet> {
    [START] + Stuff(p) + [END]
  }

  function Frames(ps: seq<seq<Octet>>): seq<Octet> {
    if ps == [] then [] else Frames(ps[..|ps| - 1]) + Frame(ps[|ps| - 1])
  }

  // ----- a decoder that undoes the stuffing -----

  /** Between frames, inside one, or inside one after an escape. */
  datatype Decoder = Between(out: seq<seq<Octet>>) | Inside(out: seq<seq<Octet>>, body: seq<Octet>, escaped: bool)

  function Feed(d: Decoder, b: Octet): Decoder {
    if d.Inside? && d.escaped then Inside(d.out, d.body + [b], false)
    else if b == START then Inside(d.out, [], false)
    else if d.Between? then d
    else if b == END then Between(d.out + [d.body])
    else if b == ESCAPE then Inside(d.out, d.body, true)
    else Inside(d.out, d.body + [b], false)
  }

  function Decode(d: Decoder, s: seq<Octet>): Decoder {
    if s == [] then d else Feed(Decode(d, s[..|s| - 1]), s[|s| - 1])
  }

  lemma {:induction false} DecodeAppend(d: Decoder, a: seq<Octet>, b: seq<Octet>)
    ensures Decode(d, a + b) == Decode(Decode(d, a), b)
    decreases |b|
  {
    if b == [] {
      assert a + b == a;
    } else {
      assert (a + b)[..|a + b| - 1] == a + b[..|b| - 1];
      DecodeAppend(d, a, b[..|b| - 1]);
    }
  }

  lemma DecodeOne(d: Decoder, b: Octet)
    ensures Decode(d, [b]) == Feed(d, b)
  {
    assert [b][..0] == [];
  }

  lemma DecodeNone(d: Decoder)
    ensures Decode(d, []) == d
  {
  }

  lemma {:induction false} DecodeStuffed(out: seq<seq<Octet>>, p: seq<Octet>)
    ensures Decode(Inside(out, [], false), Stuff(p)) == Inside(out, p, false)
    decreases |p|
  {
    hide Decode;
    DecodeNone(Inside(out, [], false));
    if p != [] {
      var init, b := p[..|p| - 1], p[|p| - 1];
      var d := Inside(out, [], false);
      DecodeStuffed(out, init);
      assert init + [b] == p;
      if Special(b) {
        DecodeAppend(d, Stuff(init), [ESCAPE, b]);
        DecodeAppend(Inside(out, init, false), [ESCAPE], [b]);
        assert [ESCAPE] + [b] == [ESCAPE, b];
        DecodeOne(Inside(out, init, false), ESCAPE);
        DecodeOne(Inside(out, init, true), b);
      } else {
        DecodeAppend(d, Stuff(init), [b]);
        DecodeOne(Inside(out, init, false), b);
      }
    }
  }

  lemma DecodeFrame(out: seq<seq<Octet>>, p: seq<Octet>)
    ensures Decode(Between(out), Frame(p)) == Between(out + [p])
  {
    hide Feed, Stuff;
    var d := Between(out);
    DecodeAppend(d, [START] + Stuff(p), [END]);
    DecodeAppend(d, [START], Stuff(p));
    DecodeOne(d, START);
    FeedMarks(out, p);
    DecodeStuffed(out, p);
    DecodeOne(Inside(out, p, false), END);
  }

  lemma FeedMarks(out: seq<seq<Octet>>, p: seq<Octet>)
    ensures Feed(Between(out), START) == Inside(out, [], false)
    ensures Feed(Inside(out, p, false), END) == Between(out + [p])
  {
  }

  /** Any list of payloads, whatever bytes they hold, is recovered from the concatenation of its frames. */
  lemma {:induction false} FramesDecode(ps: seq<seq<Octet>>)
    ensures Decode(Between([]), Frames(ps)) == Between(ps)
    decreases |ps|
  {
    if ps != [] {
      var init, p := ps[..|ps| - 1], ps[|ps| - 1];
      FramesDecode(init);
      DecodeAppend(Between([]), Frames(init), Frame(p));
      DecodeFrame(init, p);
      assert init + [p] == ps;
    }
  }

  // ----- what receiveTask makes of a stream -----

  /** The bytes since the last START, if no END came after it. */
  function Body(s: seq<Octet>): Option<seq<Octet>> {
    if s == [] then None
    else if s[|s| - 1] == START then Some([])
    else if s[|s| - 1] == END then None
    else
      var b := Body(s[..|s| - 1]);
      if b.Some? then Some(b.value + [s[|s| - 1]]) else None
  }

  /** Each END after a START passes on the bytes between. */
  function Packets(s: seq<Octet>): seq<seq<Octet>> {
    if s == [] then []
    else
      var b := Body(s[..|s| - 1]);
      Packets(s[..|s| - 1]) + if s[|s| - 1] == END && b.Some? then [b.value] else []
  }

  predicate Unmarked(p: seq<Octet>) {
    forall i | 0 <= i < |p| :: p[i] != START && p[i] != END
  }

  predicate Plain(p: seq<Octet>) {
    forall i | 0 <= i < |p| :: !Special(p[i])
  }

  lemma {:induction false} BodyUnmarked(s: seq<Octet>)
    ensures Body(s).Some? ==> Unmarked(Body(s).value)
    ensures forall i | 0 <= i < |Packets(s)| :: Unmarked(Packets(s)[i])
    decreases |s|
  {
    if s != [] {
      BodyUnmarked(s[..|s| - 1]);
    }
  }

  /** Inside a frame unmarked bytes only lengthen the body. */
  lemma {:induction false} RunOn(s: seq<Octet>, p: seq<Octet>)
    requires Unmarked(p) && Body(s).Some?
    ensures Body(s + p) == Some(Body(s).value + p) && Packets(s + p) == Packets(s)
    decreases |p|
  {
    if p == [] {
      assert s + p == s && Body(s).value + p == Body(s).value;
    } else {
      var init := p[..|p| - 1];
      RunOn(s, init);
      assert (s + p)[..|s + p| - 1] == s + init;
      assert Body(s).value + init + [p[|p| - 1]] == Body(s).value + p;
    }
  }

  /** A frame whose stuffed payload has no mark passes on exactly that stuffed payload. */
  lemma PacketOf(s: seq<Octet>, p: seq<Octet>)
    requires Unmarked(p)
    ensures Packets(s + [START] + p + [END]) == Packets(s) + [p] && Body(s + [START] + p + [END]) == None
  {
    var s1 := s + [START];
    assert s1[..|s|] == s;
    assert Body(s1) == Some([]) && Packets(s1) == Packets(s) + [];
    RunOn(s1, p);
    var s2 := s1 + p + [END];
    assert s2[..|s2| - 1] == s1 + p;
    assert [] + p == p;
  }

  lemma {:induction false} StuffPlain(p: seq<Octet>)
    ensures Plain(p) ==> Stuff(p) == p
    ensures |Stuff(p)| >= |p| && (|Stuff(p)| == |p| ==> Plain(p))
    ensures Unmarked(p) ==> Unmarked(Stuff(p))
    decreases |p|
  {
    if p != [] {
      StuffPlain(p[..|p| - 1]);
      assert p[..|p| - 1] + [p[|p| - 1]] == p;
    }
  }

  /** A payload sent as a frame arrives unchanged if and only if it contains none of the bytes 2, 3 and 4: the
      receiver does not undo the stuffing. */
  lemma ArrivesIffPlain(p: seq<Octet>)
    ensures Frame(p)[0] == 2 && Frame(p)[|Frame(p)| - 1] == 3
    ensures Packets(Frame(p)) == [p] <==> forall i | 0 <= i < |p| :: !(2 <= p[i] <= 4)
  {
    StuffPlain(p);
    BodyUnmarked(Frame(p));
    assert [] + Frame(p) == Frame(p) && Packets([]) == [];
    if Packets(Frame(p)) == [p] {
      assert Unmarked(Packets(Frame(p))[0]);
      Delivered([], p);
    }
    if Plain(p) {
      Delivered([], p);
    }
  }

  lemma Delivered(s: seq<Octet>, p: seq<Octet>)
    requires Unmarked(p)
    ensures Packets(s + Frame(p)) == Packets(s) + [Stuff(p)]
  {
    hide Packets, Body, Stuff;
    StuffPlain(p);
    PacketOf(s, Stuff(p));
    assert s + Frame(p) == s + [START] + Stuff(p) + [END];
  }

  /** Sending then receiving is the identity on any list of plain payloads. */
  lemma {:induction false} PlainFramesArrive(ps: seq<seq<Octet>>)
    requires forall i | 0 <= i < |ps| :: Plain(ps[i])
    ensures Packets(Frames(ps)) == ps
    decreases |ps|
  {
    if ps != [] {
      var init, p := ps[..|ps| - 1], ps[|ps| - 1];
      PlainFramesArrive(init);
      StuffPlain(p);
      Delivered(Frames(init), p);
      assert init + [p] == ps;
    }
  }

  /** The next byte belongs in a frame whose body already fills the receiver's buffer. */
  ghost predicate Spills(s: seq<Octet>, b: Octet) {
    Body(s).Some? && |Body(s).value| == BUF_SIZE && b != START && b != END
  }

  /** Somewhere in the stream, taken after before, a frame's body outgrows the buffer. */
  ghost predicate Overflows(before: seq<Octet>, stream: seq<Octet>) {
    exists k :: 0 <= k < |stream| && Spills(before + stream[..k], stream[k])
  }

  lemma SpillsIn(s: seq<Octet>, k: nat)
    requires k < |s| && Spills(s[..k], s[k])
    ensures Overflows([], s)
  {
    assert [] + s[..k] == s[..k];
  }

  /** What is open k bytes into a frame that follows s. */
  lemma BodyWithin(s: seq<Octet>, p: seq<Octet>, k: nat)
    requires Unmarked(p) && k <= |p|
    ensures Body(s + [START] + p[..k]) == Some(p[..k])
  {
    assert (s + [START])[..|s|] == s;
    RunOn(s + [START], p[..k]);
    assert [] + p[..k] == p[..k];
  }

  /** A plain frame after s overflows the buffer exactly if the payload does not fit. */
  lemma FrameSpillsIff(s: seq<Octet>, p: seq<Octet>)
    requires Plain(p) && Body(s).None?
    ensures Overflows([], s + Frame(p)) <==> Overflows([], s) || |p| > BUF_SIZE
    ensures Body(s + Frame(p)).None?
  {
    hide Body, Stuff, Packets;
    StuffPlain(p);
    PacketOf(s, p);
    var f := s + [START] + p + [END];
    assert s + Frame(p) == f;
    if |p| > BUF_SIZE {
      BodyWithin(s, p, BUF_SIZE);
      var k := |s| + 1 + BUF_SIZE;
      assert f[..k] == s + [START] + p[..BUF_SIZE] && f[k] == p[BUF_SIZE];
      SpillsIn(f, k);
    }
    if k :| 0 <= k < |s| && Spills([] + s[..k], s[k]) {
      assert [] + s[..k] == f[..k] && f[k] == s[k];
      SpillsIn(f, k);
    }
    if k :| 0 <= k < |f| && Spills([] + f[..k], f[k]) {
      assert [] + f[..k] == f[..k];
      SpillOrigin(s, p, k);
    }
  }

  /** Where in s and the frame after it a byte can spill. */
  lemma SpillOrigin(s: seq<Octet>, p: seq<Octet>, k: nat)
    requires Plain(p) && Body(s).None?
    requires var f := s + [START] + p + [END]; k < |f| && Spills(f[..k], f[k])
    ensures Overflows([], s) || |p| > BUF_SIZE
  {
    hide Body;
    var f := s + [START] + p + [END];
    if k < |s| {
      assert f[..k] == s[..k];
      SpillsIn(s, k);
    } else if k > |s| {
      assert f[..k] == s + [START] + p[..k - |s| - 1];
      BodyWithin(s, p, k - |s| - 1);
    }
  }

  /** A list of plain payloads overflows the receiver's buffer exactly if one of them is longer than the buffer. */
  lemma {:induction false} PlainFramesFitIff(ps: seq<seq<Octet>>)
    requires forall i | 0 <= i < |ps| :: Plain(ps[i])
    ensures Overflows([], Frames(ps)) <==> exists i :: 0 <= i < |ps| && |ps[i]| > BUF_SIZE
    ensures Body(Frames(ps)).None?
    decreases |ps|
  {
    hide Overflows, Frame;
    if ps != [] {
      var init, p := ps[..|ps| - 1], ps[|ps| - 1];
      PlainFramesFitIff(init);
      FrameSpillsIff(Frames(init), p);
    } else {
      NoSpill();
    }
  }

  lemma NoSpill()
    ensures !Overflows([], [])
  {
  }

  // ----- the program -----

  class PacketBuffer {
    const myBuf: array<Octet>
    var myStart: nat
    var myEnd: nat
    var myLen: nat
    var isStarted: bool
    /** a byte has been stored behind myBuf */
    var overrun: bool

    ghost predicate Valid()
      reads this
    {
      myBuf.Length == BUF_SIZE && myStart == 0 && myEnd == myLen <= BUF_SIZE
    }

    ghost function Contents(): (s: seq<Octet>)
      requires Valid()
      reads this, myBuf
    {
      myBuf[..myLen]
    }

    /** init. */
    constructor ()
      ensures Valid() && fresh(myBuf) && Contents() == [] && !isStarted && !overrun
    {
      myBuf := new Octet[BUF_SIZE](_ => 0);
      myStart, myEnd, myLen, isStarted, overrun := 0, 0, 0, false, false;
    }

    method Clear()
      requires Valid()
      modifies `myStart, `myEnd, `myLen
      ensures Valid() && Contents() == []
    {
      myLen := 0;
      myStart, myEnd := 0, 0;
    }

    /** pushChar.  Its test for a full buffer never succeeds here, since the start index stays 0: one byte more
        than the buffer holds is stored behind it, after which nothing is known. */
    method PushChar(c: Octet) returns (ok: bool)
      requires Valid() && !overrun
      modifies `myEnd, `myLen, `overrun, myBuf
      ensures ok && (overrun <==> old(myLen) == BUF_SIZE)
      ensures !overrun ==> Valid() && Contents() == old(Contents()) + [c]
    {
      if myStart == myEnd && myLen > 0 {
        return false;
      }
      if myEnd < myBuf.Length {
        myBuf[myEnd] := c;
      } else {
        overrun := true;
      }
      myEnd := myEnd + 1;
      myLen := myLen + 1;
      return true;
    }

    /** mRead. */
    method Read(outBuf: array<Octet>) returns (n: nat)
      requires Valid() && outBuf.Length >= myLen && outBuf != myBuf
      modifies outBuf
      ensures n == myLen && outBuf[..n] == Contents() && outBuf[n..] == old(outBuf[n..])
    {
      var i := 0;
      while i < myLen
        invariant 0 <= i <= myLen && outBuf[..i] == myBuf[..i] && outBuf[i..] == old(outBuf[i..])
      {
        var index := (myStart + i) % BUF_SIZE;
        outBuf[i] := myBuf[index];
        i := i + 1;
      }
      return myLen;
    }
  }

  datatype LenBuffer = LenBuffer(buf: seq<Octet>, len: nat)

  /** The two tasks and what they have exchanged with the Bluetooth module and the rest of the program. */
  class Link {
    var packetId: nat
    var wire: seq<Octet>
    const pb: PacketBuffer
    var receiveQueue: seq<LenBuffer>
    /** every packet receiveTask has posted, whether the queue had room or not */
    ghost var posts: seq<LenBuffer>
    /** every byte receiveTask has taken from its queue without error */
    ghost var received: seq<Octet>

    constructor ()
      ensures Valid() && !pb.overrun && fresh(pb) && fresh(pb.myBuf) && wire == [] && received == [] && packetId == 4
      ensures receiveQueue == [] && posts == []
    {
      pb := new PacketBuffer();
      packetId, wire, receiveQueue, posts, received := 4, [], [], [], [];
    }

    /** The packet buffer holds the bytes since the last START, and every completed packet has been posted. */
    ghost predicate Valid()
      reads this, pb, pb.myBuf
    {
      && pb.Valid() && |receiveQueue| <= QUEUE_LENGTH
      && (if pb.isStarted then Body(received) == Some(pb.Contents()) else Body(received) == None)
      && |posts| == |Packets(received)|
      && forall i | 0 <= i < |posts| :: Carries(posts[i], Packets(received)[i])
    }

    static ghost predicate Carries(b: LenBuffer, p: seq<Octet>) {
      b.len == |p| <= |b.buf| == BUF_SIZE && b.buf[..b.len] == p
    }

    /** send. */
    method Send(buf: array<Octet>, len: nat)
      requires len <= buf.Length
      modifies `wire
      ensures wire == old(wire) + Frame(buf[..len])
    {
      var nextByte := 0;
      wire := wire + [START];
      while nextByte < len
        invariant 0 <= nextByte <= len && wire == old(wire) + ([START] + Stuff(buf[..nextByte]))
        modifies `wire
      {
        var byte := buf[nextByte];
        assert buf[..nextByte + 1] == buf[..nextByte] + [byte];
        nextByte := nextByte + 1;
        if byte == START || byte == END || byte == ESCAPE {
          wire := wire + [ESCAPE];
        }
        wire := wire + [byte];
      }
      wire := wire + [END];
    }

    /** One round of sendTask: the payload is moved up to make room for its id and length, and sent three
        times. */
    method SendPacket(buf: array<Octet>, len: nat)
      requires len + 2 <= buf.Length && packetId < 256
      modifies `wire, `packetId, buf
      ensures packetId == (old(packetId) + 1) % 256
      ensures var d := [old(packetId) as Octet, (len % 256) as Octet] + old(buf[..len]);
        wire == old(wire) + Frames([d, d, d])
    {
      hide Frame, Frames;
      ghost var payload := buf[..len];
      forall i | 0 <= i < len {
        buf[i + 2] := buf[i];
      }
      buf[0] := packetId as Octet;
      packetId := (packetId + 1) % 256;
      buf[1] := (len % 256) as Octet;
      ghost var d := buf[..len + 2];
      assert d == [buf[0], buf[1]] + payload;
      Send(buf, len + 2);
      Send(buf, len + 2);
      Send(buf, len + 2);
      ThreeFrames(d);
      ThreeAppends(old(wire), Frame(d));
    }

    static lemma ThreeAppends(w: seq<Octet>, f: seq<Octet>)
      ensures w + f + f + f == w + (f + f + f)
    {
    }

    static lemma ThreeFrames(d: seq<Octet>)
      ensures Frames([d, d, d]) == Frame(d) + Frame(d) + Frame(d)
    {
      hide Frame;
      var one, two, three := [d], [d, d], [d, d, d];
      assert one[..0] == [] && two[..1] == one && three[..2] == two;
      assert Frames(one) == [] + Frame(d) == Frame(d);
      assert Frames(two) == Frames(one) + Frame(d);
    }

    /** One round of receiveTask: a byte is stored behind the buffer exactly if it spills. */
    method Receive(byte: Octet, error: bool)
      requires Valid() && !pb.overrun
      modifies `posts, `receiveQueue, `received, pb, pb.myBuf
      ensures pb.overrun <==> !error && Spills(old(received), byte)
      ensures !pb.overrun ==> Valid() && received == if error then old(received) else old(received) + [byte]
      ensures PostedSince(old(posts), old(receiveQueue)) && |receiveQueue| <= QUEUE_LENGTH
    {
      NothingPosted();
      if error {
        return;
      }
      received := received + [byte];
      assert received[..|received| - 1] == old(received);
      if byte == START {
        pb.Clear();
        pb.isStarted := true;
      } else if byte == END {
        if pb.isStarted {
          var buf := new Octet[BUF_SIZE](_ => 0);
          var len := pb.Read(buf);
          pb.isStarted := false;
          Post(LenBuffer(buf[..], len));
        }
      } else {
        if pb.isStarted {
          var _ := pb.PushChar(byte);
        }
      }
    }

    /** OSQPost on the receive queue, whose failure is ignored. */
    method Post(packet: LenBuffer)
      modifies `posts, `receiveQueue
      requires |receiveQueue| <= QUEUE_LENGTH
      ensures posts == old(posts) + [packet] && PostedSince(old(posts), old(receiveQueue))
      ensures |receiveQueue| <= QUEUE_LENGTH
    {
      posts := posts + [packet];
      assert posts[|posts| - 1..] == [packet];
      assert (receiveQueue + [packet])[..|receiveQueue|] == receiveQueue;
      if |receiveQueue| < QUEUE_LENGTH {
        receiveQueue := receiveQueue + [packet];
      }
    }

    /** Since the log and the queue were these, packets have been posted; the queue has them behind what it held, in
        order, either all of them or the first until there were ten. */
    ghost predicate PostedSince(log: seq<LenBuffer>, queue: seq<LenBuffer>)
      reads `posts, `receiveQueue
    {
      && IsPrefix(log, posts) && IsPrefix(queue, receiveQueue) && IsPrefix(receiveQueue, queue + posts[|log|..])
      && (receiveQueue == queue + posts[|log|..] || |receiveQueue| == QUEUE_LENGTH)
    }

    static ghost predicate IsPrefix(a: seq<LenBuffer>, b: seq<LenBuffer>) {
      |a| <= |b| && b[..|a|] == a
    }

    lemma NothingPosted()
      ensures PostedSince(posts, receiveQueue)
    {
      assert receiveQueue + posts[|posts|..] == receiveQueue;
    }

    /** Posts after posts: log0 and queue0 first, then log1 and queue1. */
    lemma PostedOn(log0: seq<LenBuffer>, queue0: seq<LenBuffer>, log1: seq<LenBuffer>, queue1: seq<LenBuffer>)
      requires IsPrefix(log0, log1) && IsPrefix(queue0, queue1) && IsPrefix(queue1, queue0 + log1[|log0|..])
      requires queue1 == queue0 + log1[|log0|..] || |queue1| == QUEUE_LENGTH
      requires PostedSince(log1, queue1) && |receiveQueue| <= QUEUE_LENGTH
      ensures PostedSince(log0, queue0)
    {
      var a, b := log1[|log0|..], posts[|log1|..];
      assert posts == log1 + b && posts[|log0|..] == a + b;
      assert posts[..|log0|] == log1[..|log0|];
      assert queue0 + (a + b) == (queue0 + a) + b;
      if queue1 != queue0 + a {
        assert receiveQueue == queue1;
      }
    }

    /** One round, with the posts counted from an earlier log and queue. */
    method ReceiveNext(byte: Octet, ghost log: seq<LenBuffer>, ghost queue: seq<LenBuffer>)
      requires Valid() && !pb.overrun && PostedSince(log, queue)
      modifies `posts, `receiveQueue, `received, pb, pb.myBuf
      ensures pb.overrun <==> Spills(old(received), byte)
      ensures !pb.overrun ==> Valid() && received == old(received) + [byte]
      ensures PostedSince(log, queue)
    {
      hide Packets, Spills;
      ghost var log1, queue1 := posts, receiveQueue;
      Receive(byte, false);
      PostedOn(log, queue, log1, queue1);
    }

    /** receiveTask over any stream, up to the first store behind the buffer: there is one exactly if a frame's
        body outgrows the buffer, and otherwise every packet of the stream has been posted. */
    method ReceiveStream(stream: seq<Octet>)
      requires Valid() && !pb.overrun
      modifies `posts, `receiveQueue, `received, pb, pb.myBuf
      ensures pb.overrun <==> Overflows(old(received), stream)
      ensures !pb.overrun ==> Valid() && received == old(received) + stream
      ensures PostedSince(old(posts), old(receiveQueue))
    {
      hide Packets, Spills, PostedSince, IsPrefix;
      ghost var before, log, queue := received, posts, receiveQueue;
      NothingPosted();
      var i := 0;
      while i < |stream| && !pb.overrun
        invariant 0 <= i <= |stream|
        invariant !pb.overrun ==> Valid() && received == before + stream[..i]
        invariant PostedSince(log, queue)
        invariant pb.overrun <==> exists k :: 0 <= k < i && Spills(before + stream[..k], stream[k])
        modifies `posts, `receiveQueue, `received, pb, pb.myBuf
      {
        assert before + stream[..i + 1] == received + [stream[i]];
        ReceiveNext(stream[i], log, queue);
        i := i + 1;
      }
      assert stream[..|stream|] == stream;
    }
  }

  lemma NoPackets()
    ensures Packets([]) == []
  {
  }

  /** Send on one side and receiveTask on the other, for any list of plain payloads: the receiver's buffer overflows
      exactly if a payload is longer than it, and otherwise exactly the payloads are posted, of which the queue keeps
      those it has room for. */
  method SendAndReceive(sender: Link, receiver: Link, ps: seq<seq<Octet>>)
    requires sender != receiver && sender.wire == [] && forall i | 0 <= i < |ps| :: Plain(ps[i])
    requires receiver.Valid() && !receiver.pb.overrun && receiver.received == []
    modifies sender`wire, receiver`posts, receiver`receiveQueue, receiver`received, receiver.pb, receiver.pb.myBuf
    ensures receiver.pb.overrun <==> exists i :: 0 <= i < |ps| && |ps[i]| > BUF_SIZE
    ensures !receiver.pb.overrun ==>
      && |receiver.posts| == |ps| && (forall i | 0 <= i < |ps| :: Link.Carries(receiver.posts[i], ps[i]))
      && receiver.PostedSince([], old(receiver.receiveQueue))
      && (old(receiver.receiveQueue) == [] && |ps| <= 10 ==>
            |receiver.receiveQueue| == |ps|
            && forall i | 0 <= i < |ps| :: Link.Carries(receiver.receiveQueue[i], ps[i]))
  {
    hide Frame, Packets, Overflows, Body;
    NoPackets();
    var n := 0;
    while n < |ps|
      invariant 0 <= n <= |ps| && sender.wire == Frames(ps[..n])
      modifies sender`wire
    {
      var buf := new Octet[|ps[n]|](i requires 0 <= i < |ps[n]| => ps[n][i]);
      assert buf[..|ps[n]|] == ps[n] && ps[..n + 1][..n] == ps[..n];
      sender.Send(buf, |ps[n]|);
      n := n + 1;
    }
    assert ps[..|ps|] == ps;
    PlainFramesFitIff(ps);
    PlainFramesArrive(ps);
    receiver.ReceiveStream(sender.wire);
    assert [] + Frames(ps) == Frames(ps);
  }
}
