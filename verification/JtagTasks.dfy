/** The interrupt-enable bookkeeping of the JTAG UART with any number of reading and writing tasks, which hold the
    read or write lock only around the buffer accesses: neither side can be stuck with its interrupt off. */
module JtagTasks {
  const ROOM: nat := 2047

  /** A reader: Copying holds read_lock, moved says whether it has taken bytes; Owing has released the lock with
      bytes in hand and not yet run its re-enable.  A writer: Copying holds write_lock, moved says whether it
      has stored bytes since it last ran its enable. */
  datatype Phase = Idle | Copying(moved: bool) | Owing

  datatype Sys = Sys(rx: nat, tx: nat, re: bool, we: bool, readers: map<nat, Phase>, writers: map<nat, Phase>)

  datatype Label =
    | RLock(t: nat) | RTake(t: nat, n: nat) | RUnlock(t: nat) | REnable(t: nat)
    | WLock(t: nat) | WPut(t: nat, n: nat) | WEnable(t: nat) | WUnlock(t: nat)
    | IsrRx(k: nat, avail: bool) | IsrTx(space: nat)

  predicate Free(tasks: map<nat, Phase>) {
    forall t :: t in tasks ==> !tasks[t].Copying?
  }

  /** IsrRx: the loop stores k bytes and ends because the buffer is full or because no byte was there; in the
      second case nothing is available.  IsrTx: the device has room for space bytes. */
  predicate Enabled(s: Sys, l: Label) {
    match l
    case RLock(t) => t in s.readers && s.readers[t] == Idle && Free(s.readers)
    case RTake(t, n) => t in s.readers && s.readers[t].Copying? && 0 < n <= s.rx
    case RUnlock(t) => t in s.readers && s.readers[t].Copying?
    case REnable(t) => t in s.readers && s.readers[t] == Owing
    case WLock(t) => t in s.writers && s.writers[t] == Idle && Free(s.writers)
    case WPut(t, n) => t in s.writers && s.writers[t].Copying? && 0 < n <= ROOM - s.tx
    case WEnable(t) => t in s.writers && s.writers[t].Copying?
    case WUnlock(t) => t in s.writers && s.writers[t] == Copying(false)
    case IsrRx(k, avail) => s.rx + k <= ROOM && (avail ==> s.rx + k == ROOM)
    case IsrTx(_) => true
  }

  function Next(s: Sys, l: Label): Sys
    requires Enabled(s, l)
  {
    match l
    case RLock(t) => s.(readers := s.readers[t := Copying(false)])
    case RTake(t, n) => s.(rx := s.rx - n, readers := s.readers[t := Copying(true)])
    case RUnlock(t) => s.(readers := s.readers[t := if s.readers[t].moved then Owing else Idle])
    case REnable(t) => s.(re := true, readers := s.readers[t := Idle])
    case WLock(t) => s.(writers := s.writers[t := Copying(false)])
    case WPut(t, n) => s.(tx := s.tx + n, writers := s.writers[t := Copying(true)])
    case WEnable(t) => s.(we := true, writers := s.writers[t := Copying(false)])
    case WUnlock(t) => s.(writers := s.writers[t := Idle])
    case IsrRx(k, avail) => s.(rx := s.rx + k, re := s.re && !avail)
    case IsrTx(space) => s.(tx := if space < s.tx then s.tx - space else 0, we := s.we && space <= s.tx)
  }

  predicate Owes(p: Phase) {
    p == Owing || p == Copying(true)
  }

  ghost predicate Inv(s: Sys) {
    && s.rx <= ROOM && s.tx <= ROOM
    && (!s.re ==> s.rx > 0 || exists t :: t in s.readers && Owes(s.readers[t]))
    && (s.tx > 0 ==> s.we || exists t :: t in s.writers && Owes(s.writers[t]))
  }

  ghost predicate Runs(s: Sys, ls: seq<Label>)
    decreases |ls|
  {
    ls != [] ==> Enabled(s, ls[0]) && Runs(Next(s, ls[0]), ls[1..])
  }

  ghost function Exec(s: Sys, ls: seq<Label>): Sys
    requires Runs(s, ls)
    decreases |ls|
  {
    if ls == [] then s else Exec(Next(s, ls[0]), ls[1..])
  }

  /** altera_avalon_jtag_uart_init. */
  ghost predicate Start(s: Sys) {
    && s.rx == 0 && s.tx == 0 && s.re && !s.we
    && (forall t :: t in s.readers ==> s.readers[t] == Idle) && (forall t :: t in s.writers ==> s.writers[t] == Idle)
  }

  /** Whoever owed before still owes, unless the step is its own enable. */
  lemma DebtKept(s: Sys, l: Label)
    requires Enabled(s, l)
    ensures (exists t :: t in s.readers && Owes(s.readers[t])) && !l.REnable? ==>
              exists t :: t in Next(s, l).readers && Owes(Next(s, l).readers[t])
    ensures (exists t :: t in s.writers && Owes(s.writers[t])) && !l.WEnable? ==>
              exists t :: t in Next(s, l).writers && Owes(Next(s, l).writers[t])
  {
    var s' := Next(s, l);
    if t :| t in s.readers && Owes(s.readers[t]) && !l.REnable? {
      assert Owes(s'.readers[t]);
    }
    if t :| t in s.writers && Owes(s.writers[t]) && !l.WEnable? {
      assert Owes(s'.writers[t]);
    }
  }

  lemma StepKeepsInv(s: Sys, l: Label)
    requires Inv(s) && Enabled(s, l)
    ensures Inv(Next(s, l))
  {
    DebtKept(s, l);
    if l.RTake? {
      assert Owes(Next(s, l).readers[l.t]);
    }
    if l.WPut? {
      assert Owes(Next(s, l).writers[l.t]);
    }
  }

  lemma {:induction false} RunKeepsInv(s: Sys, ls: seq<Label>)
    requires Inv(s) && Runs(s, ls)
    ensures Inv(Exec(s, ls)) && Exec(s, ls).readers.Keys == s.readers.Keys && Exec(s, ls).writers.Keys == s.writers.Keys
    decreases |ls|
  {
    if ls != [] {
      StepKeepsInv(s, ls[0]);
      RunKeepsInv(Next(s, ls[0]), ls[1..]);
    }
  }

  /** However readers, writers and interrupts interleave, when every task is between calls the receive interrupt
      is off only if there are bytes for the next reader (whose call turns it on again), and bytes waiting to
      go out have the transmit interrupt on. */
  lemma NeverStuck(s: Sys, ls: seq<Label>)
    requires Start(s) && Runs(s, ls)
    ensures var r := Exec(s, ls);
      && ((forall t :: t in r.readers ==> r.readers[t] == Idle) && r.rx == 0 ==> r.re)
      && ((forall t :: t in r.writers ==> r.writers[t] == Idle) && r.tx > 0 ==> r.we)
  {
    RunKeepsInv(s, ls);
  }

  /** At most one reader and one writer are at the buffers at a time. */
  ghost predicate Exclusive(tasks: map<nat, Phase>) {
    forall t, u :: t in tasks && u in tasks && tasks[t].Copying? && tasks[u].Copying? ==> t == u
  }

  lemma {:induction false} BuffersExclusive(s: Sys, ls: seq<Label>)
    requires Exclusive(s.readers) && Exclusive(s.writers) && Runs(s, ls)
    ensures Exclusive(Exec(s, ls).readers) && Exclusive(Exec(s, ls).writers)
    decreases |ls|
  {
    if ls != [] {
      BuffersExclusive(Next(s, ls[0]), ls[1..]);
    }
  }
}
