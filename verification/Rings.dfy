/** A circular buffer that one side fills and the other empties, seen as the queue of bytes it holds. */
module Rings {
  const BUF_LEN: nat := 2048

  function Wrap(n: nat): nat {
    n % BUF_LEN
  }

  predicate Indices(out: nat, in_: nat) {
    out < BUF_LEN && in_ < BUF_LEN
  }

  /** The bytes from out up to in, the indices wrapping at the end of the buffer. */
  function Ring(buf: seq<char>, out: nat, in_: nat): (q: seq<char>)
    requires |buf| == BUF_LEN && Indices(out, in_)
    ensures |q| == RingLen(out, in_)
  {
    if out <= in_ then buf[out..in_] else buf[out..] + buf[..in_]
  }

  function RingLen(out: nat, in_: nat): (n: nat)
    requires Indices(out, in_)
    ensures n < BUF_LEN && (n == 0 <==> out == in_)
  {
    if out <= in_ then in_ - out else BUF_LEN - out + in_
  }

  /** How many bytes can be taken, or put, without the index wrapping. */
  function Readable(out: nat, in_: nat): nat
    requires Indices(out, in_)
  {
    if in_ >= out then in_ - out else BUF_LEN - out
  }

  function Writable(out: nat, in_: nat): nat
    requires Indices(out, in_)
  {
    if in_ < out then out - 1 - in_ else if out > 0 then BUF_LEN - in_ else BUF_LEN - 1 - in_
  }

  lemma ReadableFacts(out: nat, in_: nat)
    requires Indices(out, in_)
    ensures out + Readable(out, in_) <= BUF_LEN && Readable(out, in_) <= RingLen(out, in_)
    ensures Readable(out, in_) == 0 <==> out == in_
  {
  }

  lemma WritableFacts(out: nat, in_: nat)
    requires Indices(out, in_)
    ensures in_ + Writable(out, in_) <= BUF_LEN && Writable(out, in_) + RingLen(out, in_) <= BUF_LEN - 1
    ensures Writable(out, in_) == 0 <==> RingLen(out, in_) == BUF_LEN - 1
  {
  }

  /** Byte k of the queue while it does not wrap. */
  lemma RingAt(buf: seq<char>, out: nat, in_: nat, k: nat)
    requires |buf| == BUF_LEN && Indices(out, in_) && k < Readable(out, in_)
    ensures k < |Ring(buf, out, in_)| && Ring(buf, out, in_)[k] == buf[out + k]
  {
  }

  /** Taking n bytes from the front moves the out index. */
  lemma RingTake(buf: seq<char>, out: nat, in_: nat, n: nat)
    requires |buf| == BUF_LEN && Indices(out, in_) && n <= Readable(out, in_)
    ensures Wrap(out + n) < BUF_LEN && n <= RingLen(out, in_)
    ensures Ring(buf, Wrap(out + n), in_) == Ring(buf, out, in_)[n..]
  {
    if out <= in_ {
      assert Wrap(out + n) == out + n;
      assert buf[out..in_][n..] == buf[out + n..in_];
    } else {
      var q := buf[out..] + buf[..in_];
      assert q[n..] == buf[out + n..] + buf[..in_];
      if out + n < BUF_LEN {
        assert Wrap(out + n) == out + n;
      } else {
        assert Wrap(out + n) == 0 && buf[out + n..] == [];
      }
    }
  }

  /** buf' is buf with data stored from index at on. */
  ghost predicate Stored(buf: seq<char>, buf': seq<char>, at: nat, data: seq<char>) {
    && |buf'| == |buf| && at + |data| <= |buf|
    && forall k | 0 <= k < |buf| :: buf'[k] == if at <= k < at + |data| then data[k - at] else buf[k]
  }

  lemma StoredSlices(buf: seq<char>, buf': seq<char>, at: nat, data: seq<char>, from: nat)
    requires Stored(buf, buf', at, data)
    ensures from <= at ==> buf'[from..at + |data|] == buf[from..at] + data
    ensures at + |data| <= from <= |buf| ==> buf'[from..] == buf[from..]
  {
  }

  lemma WrapSum(n: nat)
    requires n <= BUF_LEN
    ensures Wrap(n) == if n == BUF_LEN then 0 else n
  {
  }

  /** Putting n bytes after the end and then moving the in index appends exactly those bytes. */
  lemma RingPut(buf: seq<char>, buf': seq<char>, out: nat, in_: nat, data: seq<char>)
    requires |buf| == |buf'| == BUF_LEN && Indices(out, in_)
    requires |data| <= Writable(out, in_) && Stored(buf, buf', in_, data)
    ensures Wrap(in_ + |data|) < BUF_LEN
    ensures Ring(buf', out, Wrap(in_ + |data|)) == Ring(buf, out, in_) + data
  {
    hide Wrap, Stored;
    WrapSum(in_ + |data|);
    StoredSlices(buf, buf', in_, data, out);
    StoredSlices(buf, buf', in_, data, 0);
    if in_ < out {
      assert buf'[..in_ + |data|] == buf[..in_] + data;
    } else if in_ + |data| == BUF_LEN {
      assert buf'[out..] == buf'[out..in_ + |data|];
    }
  }

  /** The test both sides use for a full buffer. */
  lemma FullIffNextIsOut(out: nat, in_: nat)
    requires Indices(out, in_)
    ensures Wrap(in_ + 1) == out <==> RingLen(out, in_) == BUF_LEN - 1
    ensures Wrap(in_ + 1) < BUF_LEN
  {
  }

  /** A producer that fills the buffer never brings the indices together. */
  lemma FillingKeepsApart(out: nat, in_: nat, n: nat)
    requires Indices(out, in_) && 0 < n <= Writable(out, in_)
    ensures Wrap(in_ + n) < BUF_LEN && Wrap(in_ + n) != out && RingLen(out, Wrap(in_ + n)) == RingLen(out, in_) + n
  {
  }

  /** Cells the producer may be writing are no part of the queue. */
  lemma RingIgnoresFree(buf: seq<char>, buf': seq<char>, out: nat, in_: nat, n: nat)
    requires |buf| == |buf'| == BUF_LEN && Indices(out, in_) && n <= Writable(out, in_)
    requires forall k | 0 <= k < BUF_LEN && !(in_ <= k < in_ + n) :: buf'[k] == buf[k]
    ensures Ring(buf', out, in_) == Ring(buf, out, in_)
  {
  }

  /** The out index moves only within the room it had: what was writable stays so. */
  lemma WritableGrows(out: nat, out': nat, in_: nat)
    requires Indices(out, in_) && Indices(out', in_) && RingLen(out', in_) <= RingLen(out, in_)
    ensures Writable(out, in_) <= Writable(out', in_)
  {
  }

  /** What was readable stays so while the queue grows. */
  lemma ReadableGrows(out: nat, in_: nat, in': nat)
    requires Indices(out, in_) && Indices(out, in') && RingLen(out, in_) <= RingLen(out, in')
    ensures Readable(out, in_) <= Readable(out, in')
  {
  }

  /** Only one out index makes the buffer full. */
  lemma FullOnce(out: nat, out': nat, in_: nat)
    requires Indices(out, in_) && Indices(out', in_) && out != out' && RingLen(out, in_) == BUF_LEN - 1
    ensures RingLen(out', in_) < BUF_LEN - 1
  {
  }
}
