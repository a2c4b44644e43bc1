/** The polled I2C controller of `hal_i2c_controller`, over an arbitrary trace of what its
    registers read. Register writes go to a log; delays and fences are left out. */
module Controller {
  import opened Bits

  const MAX_TRANSFER := 4
  const FIFO_ENTRIES := 4

  datatype Result =
    | Okay | InvalidArgument | NotInitialized | Busy | AddressNack | DataNack | ArbitrationLost
    | SclLowTimeout | SdaLow | Timeout | RxUnderflow | IoError

  /** The bits of MSR, and what MBMON and MFIFOSR show; `txFree` counts free entries. */
  datatype Status = Status(busy: bool, error: bool, addressNack: bool, dataNack: bool, arbitrationLost: bool)
  datatype Lines = Lines(scl: bool, sda: bool)
  datatype Fifo = Fifo(received: nat, txFree: nat)

  /** What a read of each register returns, by how many reads came before it. */
  datatype Trace = Trace(status: nat -> Status, timeoutA: nat -> bool, lines: nat -> Lines, fifo: nat -> Fifo,
                         data: nat -> byte)

  /** The register writes. */
  datatype Action =
    | ControlZero                     // MCTR = 0
    | ClearEvents                     // ICLR
    | FlushOn                         // MFIFOCTL, both flushes
    | FlushOff                        // MFIFOCTL = 0
    | Put(value: byte)                // MTXDATA
    | Address(target: nat, read: bool)    // MSA
    | Start(control: nat)             // MCTR
    | AddStop                         // MCTR |= STOP

  // ---- the control word ----

  const BURSTRUN := 1
  const START := 2
  const STOP := 4
  const READ_ON_TX_EMPTY := 32

  /** The word that starts a burst. */
  function Control(length: byte, readAfterWrite: bool): nat {
    var w := BitOr(BitOr(BitOr(ShiftLeft32(length, 16), BURSTRUN), START), STOP);
    if readAfterWrite then BitOr(w, READ_ON_TX_EMPTY) else w
  }

  /** Its fields do not run into each other: the length is in the upper half, and bits 0, 1 and
      2 ask for the burst with START and STOP, bit 5 for the read after the write. */
  lemma {:induction false} ControlFields(length: byte, readAfterWrite: bool)
    ensures Control(length, readAfterWrite) == 0x1_0000 * length + (if readAfterWrite then 39 else 7)
  {
    var w := W16 * length;
    LowBitsClear(w, length);
    StartsBurst(length);
    SetsStart(w + 1);
    SetsStop(w + 3);
    SetsRead(w + 7);
  }

  lemma {:induction false} LowBitsClear(w: nat, length: byte)
    requires w == W16 * length
    ensures (w + 1) / 2 % 2 == 0 && (w + 3) / 4 % 2 == 0 && (w + 7) / 32 % 2 == 0
  {
    assert (w + 1) / 2 == 32768 * length;
    assert (w + 3) / 4 == 16384 * length;
    assert (w + 7) / 32 == 2048 * length;
  }

  lemma {:induction false} StartsBurst(length: byte)
    ensures BitOr(ShiftLeft32(length, 16), BURSTRUN) == W16 * length + BURSTRUN
  {
    Pow2Values();
    assert ShiftLeft32(length, 16) == W16 * length;
    OrSetsBit(W16 * length, 0);
  }

  lemma {:induction false} SetsStart(w: nat)
    requires w / 2 % 2 == 0
    ensures BitOr(w, START) == w + START
  {
    assert Pow2(1) == 2;
    OrSetsBit(w, 1);
  }

  lemma {:induction false} SetsStop(w: nat)
    requires w / 4 % 2 == 0
    ensures BitOr(w, STOP) == w + STOP
  {
    assert Pow2(2) == 4;
    OrSetsBit(w, 2);
  }

  lemma {:induction false} SetsRead(w: nat)
    requires w / 32 % 2 == 0
    ensures BitOr(w, READ_ON_TX_EMPTY) == w + READ_ON_TX_EMPTY
  {
    assert Pow2(3) == 8 && Pow2(5) == 4 * Pow2(3);
    OrSetsBit(w, 5);
  }

  // ---- what a status and a wait mean ----

  function StatusResult(s: Status): Result {
    if s.arbitrationLost then ArbitrationLost
    else if s.addressNack then AddressNack
    else if s.dataNack then DataNack
    else if s.error then IoError
    else Okay
  }

  /** The status and the SCL-low flag of poll i of a wait that begins at read t. */
  function PollStatus(trace: Trace, t: nat, i: nat): Status { trace.status(t + 2 * i) }

  function PollTimeout(trace: Trace, t: nat, i: nat): bool { trace.timeoutA(t + 2 * i + 1) }

  /** Some error bit of a status is set. */
  predicate Faulty(s: Status) { s.arbitrationLost || s.addressNack || s.dataNack || s.error }

  /** r is the error a status reports: lost arbitration goes before a NACK of the address, that
      before a NACK of data, and that before the general error bit. */
  predicate Names(s: Status, r: Result) {
    && (r == ArbitrationLost <==> s.arbitrationLost)
    && (r == AddressNack <==> s.addressNack && !s.arbitrationLost)
    && (r == DataNack <==> s.dataNack && !s.addressNack && !s.arbitrationLost)
    && (r == IoError <==> s.error && !s.dataNack && !s.addressNack && !s.arbitrationLost)
    && (r == Okay <==> !Faulty(s))
  }

  /** What the first n polls amount to: an SCL-low timeout if any of them saw one, else the
      error of the first faulty status, else nothing. */
  ghost predicate Verdict(trace: Trace, t: nat, n: nat, r: Result) {
    if exists i :: 0 <= i < n && PollTimeout(trace, t, i) then r == SclLowTimeout
    else if exists i :: 0 <= i < n && Faulty(PollStatus(trace, t, i)) then
      exists i :: 0 <= i < n && Faulty(PollStatus(trace, t, i)) && Names(PollStatus(trace, t, i), r)
                  && forall j :: 0 <= j < i ==> !Faulty(PollStatus(trace, t, j))
    else r == Okay
  }

  /** How a wait of up to `limit` polls from read t ends: at poll k, the first that is not
      busy, with the verdict of the polls so far, or with a timeout if none is idle. */
  ghost predicate WaitEnds(trace: Trace, t: nat, limit: nat, k: nat, r: Result) {
    && k <= limit && (forall i :: 0 <= i < k ==> PollStatus(trace, t, i).busy)
    && if k < limit then !PollStatus(trace, t, k).busy && Verdict(trace, t, k + 1, r) else r == Timeout
  }

  lemma {:induction false} NoVerdictYet(trace: Trace, t: nat)
    ensures Verdict(trace, t, 0, Okay)
  {
  }

  /** One more poll. */
  lemma {:induction false} VerdictNext(trace: Trace, t: nat, n: nat, r: Result, next: Result)
    requires Verdict(trace, t, n, r)
    requires if PollTimeout(trace, t, n) then next == SclLowTimeout
             else if r == Okay then Names(PollStatus(trace, t, n), next)
             else next == r
    ensures Verdict(trace, t, n + 1, next)
  {
    if PollTimeout(trace, t, n) {
    } else if exists i :: 0 <= i < n && PollTimeout(trace, t, i) {
      var i :| 0 <= i < n && PollTimeout(trace, t, i);
      assert 0 <= i < n + 1;
    } else if r == Okay {
      assert forall i :: 0 <= i < n ==> !Faulty(PollStatus(trace, t, i));
      assert Faulty(PollStatus(trace, t, n)) ==> Names(PollStatus(trace, t, n), next);
    }
  }

  /** What a finished wait returns, from the bits alone. If poll i, up to the idle one, is the
      first with an error bit set and none of them saw SCL low, it is the error by precedence;
      it is OK exactly when none of them shows anything. */
  lemma {:induction false} ResultFromBits(trace: Trace, t: nat, limit: nat, k: nat, r: Result, i: nat)
    requires WaitEnds(trace, t, limit, k, r) && i <= k < limit
    requires forall j :: 0 <= j <= k ==> !PollTimeout(trace, t, j)
    requires forall j :: 0 <= j < i ==> !Faulty(PollStatus(trace, t, j))
    ensures var s := PollStatus(trace, t, i);
            s.arbitrationLost || s.addressNack || s.dataNack || s.error ==>
              r == if s.arbitrationLost then ArbitrationLost
                   else if s.addressNack then AddressNack
                   else if s.dataNack then DataNack
                   else IoError
    ensures r == Okay <==> forall j :: 0 <= j <= k ==> !Faulty(PollStatus(trace, t, j))
  {
    if Faulty(PollStatus(trace, t, i)) {
      assert 0 <= i < k + 1;
    }
  }

  /** Timeouts go before everything else. */
  lemma {:induction false} TimeoutsComeFirst(trace: Trace, t: nat, limit: nat, k: nat, r: Result)
    requires WaitEnds(trace, t, limit, k, r)
    ensures r == Timeout <==> forall i :: 0 <= i < limit ==> PollStatus(trace, t, i).busy
    ensures r == SclLowTimeout <==> k < limit && exists i :: 0 <= i <= k && PollTimeout(trace, t, i)
  {
    if k < limit && exists i :: 0 <= i <= k && PollTimeout(trace, t, i) {
      var i :| 0 <= i <= k && PollTimeout(trace, t, i);
      assert 0 <= i < k + 1;
    }
    assert k < limit ==> !PollStatus(trace, t, k).busy;
  }

  // ---- the driver ----

  predicate Flushed(f: Fifo) { f.received == 0 && f.txFree == 4 }

  /** One of n reads of the FIFO status from read t on shows both FIFOs empty. */
  ghost predicate FlushSeen(trace: Trace, t: nat, n: nat) { exists u :: t <= u < t + n && Flushed(trace.fifo(u)) }

  /** A flush that begins at read t ends before read `next`: after the first read that shows
      both FIFOs empty, or after all of them. */
  ghost predicate FlushEnds(trace: Trace, t: nat, limit: nat, ok: bool, next: nat) {
    if ok then
      t < next <= t + limit && Flushed(trace.fifo(next - 1))
      && forall u :: t <= u < next - 1 ==> !Flushed(trace.fifo(u))
    else next == t + limit && !FlushSeen(trace, t, limit)
  }

  /** What the checks before a transfer return, and the read after them, if they begin at read
      t: SCL low, SDA low, a busy bus and a failed flush, in this order. */
  ghost predicate PrepareEnds(trace: Trace, t: nat, limit: nat, r: Result, next: nat) {
    if !trace.lines(t).scl then r == SclLowTimeout && next == t + 1
    else if !trace.lines(t).sda then r == SdaLow && next == t + 1
    else if trace.status(t + 1).busy then r == Busy && next == t + 2
    else (r == Okay || r == Timeout) && FlushEnds(trace, t + 2, limit, r == Okay, next)
  }

  /** The writes of checks that pass. */
  const PREPARED := [ControlZero, ClearEvents, FlushOn, FlushOff]

  // ---- what follows a START ----

  /** How many of the first n polls saw SCL low. */
  function SclLows(trace: Trace, t: nat, n: nat): nat {
    if n == 0 then 0 else SclLows(trace, t, n - 1) + if PollTimeout(trace, t, n - 1) then 1 else 0
  }

  function Clears(n: nat): seq<Action> { seq(n, _ => ClearEvents) }

  /** A wait clears the events of each poll that saw SCL low, and asks for a STOP if it times
      out. */
  function WaitActions(trace: Trace, t: nat, limit: nat, k: nat): seq<Action> {
    Clears(SclLows(trace, t, if k < limit then k + 1 else limit)) + if k < limit then [] else [AddStop]
  }

  /** The status a wait leaves behind: that of its last poll. */
  function LastSeen(before: Status, trace: Trace, t: nat, limit: nat, k: nat): Status {
    if limit == 0 then before else PollStatus(trace, t, if k < limit then k else limit - 1)
  }

  /** A failed transfer is followed by a flush. */
  function AfterStart(trace: Trace, t: nat, limit: nat, k: nat, r: Result): seq<Action> {
    WaitActions(trace, t, limit, k) + if r == Okay then [] else [FlushOn, FlushOff]
  }

  function Puts(data: Bytes): seq<Action> { seq(|data|, i requires 0 <= i < |data| => Put(data[i])) }

  /** How far a transaction got. Refused: the checks ended before read `next`. Ran: `before` are
      the actions up to and including the START, the wait began at read t and ended at poll k,
      and `after` is what followed. */
  datatype Bus =
    | Untouched
    | Refused(next: nat)
    | Ran(before: seq<Action>, t: nat, k: nat, after: seq<Action>)

  /** What every transaction that begins at read `start` reports about itself. */
  ghost predicate Reports(b: Bus, r: Result, trace: Trace, start: nat, limit: nat, log: seq<Action>, was: seq<Action>,
                          initialized: bool, valid: bool) {
    match b
    case Untouched =>
      log == was && !(initialized && valid) && r == if initialized then InvalidArgument else NotInitialized
    case Refused(next) =>
      && initialized && valid && log == was + (if r == Timeout then PREPARED else [])
      && r != Okay && PrepareEnds(trace, start, limit, r, next)
    case Ran(before, t, k, after) =>
      && initialized && valid && log == was + before + after && after == AfterStart(trace, t, limit, k, r)
      && PrepareEnds(trace, start, limit, Okay, t) && WaitEnds(trace, t, limit, k, r)
  }

  /** What a read returns and leaves in the caller's buffer, when the transfer itself ended
      with `wait`: the bytes received, in order, or the buffer as it was. */
  ghost predicate Collected(trace: Trace, t: nat, wait: Result, r: Result, length: nat, was: Bytes, now: Bytes)
    requires length <= |was|
  {
    if wait == Okay && trace.fifo(t).received >= length then
      r == Okay && now == seq(length, i requires 0 <= i < length => trace.data(t + 1 + i)) + was[length..]
    else now == was && r == if wait == Okay then RxUnderflow else wait
  }

  /** The two writes that start a transfer. */
  function Command(address: nat, read: bool, length: byte, readAfterWrite: bool): seq<Action> {
    [Address(address, read), Start(0x1_0000 * length + (if readAfterWrite then 39 else 7))]
  }

  lemma {:induction false} Append(a: seq<Action>, b: seq<Action>, c: seq<Action>)
    ensures a + b + c == a + (b + c)
  {
  }

  lemma {:induction false} Regroup(a: seq<Action>, b: seq<Action>, c: seq<Action>, d: seq<Action>, e: seq<Action>)
    ensures a + b + c + d + e == a + (b + c + d) + e
  {
  }

  class Controller {
    const pollLimit: nat
    const trace: Trace
    var initialized: bool
    var now: nat
    var lastStatus: Status
    var log: seq<Action>
    ghost var polls: nat        // turns of all polling loops
    ghost var free: nat         // free transmit FIFO entries, by the last flush

    constructor (trace: Trace, pollLimit: nat)
      requires pollLimit != 0
      ensures this.trace == trace && this.pollLimit == pollLimit && !initialized && log == []
    {
      this.trace, this.pollLimit := trace, pollLimit;
      initialized, now, lastStatus, log := false, 0, Status(false, false, false, false, false), [];
      polls, free := 0, 0;
    }

    /** `hal_i2c_controller_init`, without the register setup; `valid` is the verdict of the
        configuration check. */
    method Init(valid: bool) returns (ok: bool)
      modifies this`initialized, this`lastStatus
      ensures ok == (!old(initialized) && valid) && initialized == (old(initialized) || ok)
    {
      if initialized || !valid {
        return false;
      }
      lastStatus := Status(false, false, false, false, false);
      initialized := true;
      return true;
    }

    /** `hal_i2c_controller_flush_fifos`. */
    method FlushFifos() returns (ok: bool)
      modifies this`now, this`log, this`polls, this`free
      ensures log == old(log) + [FlushOn, FlushOff]
      ensures polls <= old(polls) + pollLimit
      ensures ok ==> free == FIFO_ENTRIES
      ensures FlushEnds(trace, old(now), pollLimit, ok, now)
    {
      log, free := log + [FlushOn], 0;
      for index := 0 to pollLimit
        invariant now == old(now) + index && polls == old(polls) + index && log == old(log) + [FlushOn]
        invariant !FlushSeen(trace, old(now), index)
      {
        var status := trace.fifo(now);
        now, polls := now + 1, polls + 1;
        if status.received == 0 && status.txFree == FIFO_ENTRIES {
          log, free := log + [FlushOff], FIFO_ENTRIES;
          return true;
        }
      }
      log := log + [FlushOff];
      return false;
    }

    /** One turn of the loop that waits for completion. */
    method Poll(before: Result, ghost t: nat, ghost index: nat) returns (r: Result)
      requires now == t + 2 * index && Verdict(trace, t, index, before)
      modifies this`now, this`lastStatus, this`log
      ensures now == t + 2 * (index + 1) && Verdict(trace, t, index + 1, r)
      ensures lastStatus == PollStatus(trace, t, index)
      ensures log == old(log) + if PollTimeout(trace, t, index) then [ClearEvents] else []
    {
      hide Verdict;
      var status := trace.status(now);
      var timeout := trace.timeoutA(now + 1);
      now, lastStatus := now + 2, status;
      var statusResult := StatusResult(status);
      r := before;
      if timeout {
        log := log + [ClearEvents];
        r := SclLowTimeout;
      } else if r == Okay && statusResult != Okay {
        r := statusResult;
      }
      VerdictNext(trace, t, index, before, r);
    }

    /** `hal_i2c_controller_wait_for_completion`. For every trace it returns at the first poll
        that is not busy, and asks for a STOP if there is none. */
    method WaitForCompletion() returns (r: Result, ghost k: nat)
      modifies this`now, this`lastStatus, this`log, this`polls
      ensures WaitEnds(trace, old(now), pollLimit, k, r)
      ensures polls <= old(polls) + pollLimit
      ensures log == old(log) + WaitActions(trace, old(now), pollLimit, k)
      ensures k < pollLimit ==> now == old(now) + 2 * (k + 1)
      ensures lastStatus == LastSeen(old(lastStatus), trace, old(now), pollLimit, k)
    {
      hide Verdict;
      r := Okay;
      ghost var t := now;
      NoVerdictYet(trace, t);
      for index := 0 to pollLimit
        invariant now == t + 2 * index && polls == old(polls) + index
        invariant forall i :: 0 <= i < index ==> PollStatus(trace, t, i).busy
        invariant lastStatus == if index == 0 then old(lastStatus) else PollStatus(trace, t, index - 1)
        invariant Verdict(trace, t, index, r) && log == old(log) + Clears(SclLows(trace, t, index))
      {
        polls := polls + 1;
        r := Poll(r, t, index);
        if !lastStatus.busy {
          return r, index;
        }
      }
      log := log + [AddStop];
      k, r := pollLimit, Timeout;
    }

    /** `hal_i2c_controller_prepare`. */
    method Prepare() returns (r: Result)
      modifies this`now, this`lastStatus, this`log, this`polls, this`free
      ensures log == old(log) + if r == Okay || r == Timeout then PREPARED else []
      ensures polls <= old(polls) + pollLimit
      ensures r == Okay ==> free == FIFO_ENTRIES
      ensures PrepareEnds(trace, old(now), pollLimit, r, now)
    {
      var lines := trace.lines(now);
      now := now + 1;
      if !lines.scl {
        return SclLowTimeout;
      }
      if !lines.sda {
        return SdaLow;
      }
      lastStatus := trace.status(now);
      now := now + 1;
      if lastStatus.busy {
        return Busy;
      }
      log := log + [ControlZero];
      log := log + [ClearEvents];
      var ok := FlushFifos();
      assert log == old(log) + PREPARED;
      r := if ok then Okay else Timeout;
    }

    /** `hal_i2c_controller_preload_write`: never more bytes than the flushed FIFO has room for. */
    method Preload(data: Bytes)
      requires |data| <= free
      modifies this`log, this`free
      ensures log == old(log) + Puts(data) && free == old(free) - |data|
    {
      for index := 0 to |data|
        invariant log == old(log) + Puts(data[..index]) && free == old(free) - index
      {
        assert free > 0;
        log, free := log + [Put(data[index])], free - 1;
        assert Puts(data[..index + 1]) == Puts(data[..index]) + [Put(data[index])];
      }
      assert data[..|data|] == data;
    }

    /** The end that the three transactions share: address, START, the wait, and a flush if
        the transfer failed. */
    method Burst(address: nat, read: bool, length: byte, readAfterWrite: bool)
      returns (r: Result, ghost k: nat)
      modifies this`now, this`lastStatus, this`log, this`polls, this`free
      ensures log == old(log) + Command(address, read, length, readAfterWrite)
                     + AfterStart(trace, old(now), pollLimit, k, r)
      ensures polls <= old(polls) + 2 * pollLimit
      ensures WaitEnds(trace, old(now), pollLimit, k, r)
      ensures r == Okay ==> k < pollLimit && now == old(now) + 2 * (k + 1)
      ensures lastStatus == LastSeen(old(lastStatus), trace, old(now), pollLimit, k)
    {
      hide Control, Verdict, WaitActions;
      ControlFields(length, readAfterWrite);
      log := log + [Address(address, read)];
      log := log + [Start(Control(length, readAfterWrite))];
      assert log == old(log) + Command(address, read, length, readAfterWrite);
      r, k := WaitForCompletion();
      if r != Okay {
        var flushed := FlushFifos();
      }
    }

    /** `hal_i2c_controller_write`. */
    method Write(address: byte, data: Bytes) returns (r: Result, ghost b: Bus)
      modifies this
      ensures initialized == old(initialized) && polls <= old(polls) + 3 * pollLimit
      ensures Reports(b, r, trace, old(now), pollLimit, log, old(log), initialized,
                      address <= 0x7f && 1 <= |data| <= 4)
      ensures b.Ran? ==> b.before == PREPARED + Puts(data) + Command(address, false, |data|, false)
      ensures b.Ran? && pollLimit != 0 ==> lastStatus == LastSeen(lastStatus, trace, b.t, pollLimit, b.k)
    {
      hide Control, AfterStart, PrepareEnds, WaitEnds, Puts;
      if !initialized {
        return NotInitialized, Untouched;
      }
      if address > 0x7f || |data| == 0 || |data| > MAX_TRANSFER {
        return InvalidArgument, Untouched;
      }
      r := Prepare();
      b := Refused(now);
      if r != Okay {
        return;
      }
      Preload(data);
      ghost var t := now;
      ghost var k;
      r, k := Burst(address, false, |data|, false);
      b := Ran(PREPARED + Puts(data) + Command(address, false, |data|, false), t, k,
               AfterStart(trace, t, pollLimit, k, r));
      Regroup(old(log), PREPARED, Puts(data), Command(address, false, |data|, false), b.after);
    }

    /** `hal_i2c_controller_read_fifo`: fills the first bytes of the buffer, or nothing. */
    method ReadFifo(data: array<byte>, length: nat) returns (ok: bool)
      requires length <= data.Length
      modifies data, this`now
      ensures ok <==> trace.fifo(old(now)).received >= length
      ensures !ok ==> data[..] == old(data[..])
      ensures ok ==> data[length..] == old(data[length..])
      ensures ok ==> forall i :: 0 <= i < length ==> data[i] == trace.data(old(now) + 1 + i)
    {
      var available := trace.fifo(now).received;
      now := now + 1;
      if available < length {
        return false;
      }
      for index := 0 to length
        invariant now == old(now) + 1 + index
        invariant data[length..] == old(data[length..])
        invariant forall i :: 0 <= i < index ==> data[i] == trace.data(old(now) + 1 + i)
      {
        data[index] := trace.data(now);
        now := now + 1;
      }
      return true;
    }

    /** The end of the two transactions that read. */
    method Collect(wait: Result, data: array<byte>, length: nat) returns (r: Result)
      requires length <= data.Length
      modifies data, this`now
      ensures Collected(trace, old(now), wait, r, length, old(data[..]), data[..])
    {
      if wait != Okay {
        return wait;
      }
      var ok := ReadFifo(data, length);
      r := if ok then Okay else RxUnderflow;
    }

    /** `hal_i2c_controller_read`. */
    method Read(address: byte, data: array<byte>, length: byte)
      returns (r: Result, ghost b: Bus, ghost wait: Result, ghost t: nat)
      requires length <= data.Length
      modifies this, data
      ensures initialized == old(initialized) && polls <= old(polls) + 3 * pollLimit
      ensures Reports(b, wait, trace, old(now), pollLimit, log, old(log), initialized,
                      address <= 0x7f && 1 <= length <= 4)
      ensures b.Ran? ==> b.before == PREPARED + Command(address, true, length, false)
      ensures wait == Okay ==> b.Ran? && t == b.t + 2 * (b.k + 1)
      ensures Collected(trace, t, wait, r, length, old(data[..]), data[..])
    {
      hide Control, AfterStart, PrepareEnds, WaitEnds;
      t := now;
      if !initialized {
        return NotInitialized, Untouched, NotInitialized, t;
      }
      if address > 0x7f || length == 0 || length > MAX_TRANSFER {
        return InvalidArgument, Untouched, InvalidArgument, t;
      }
      r := Prepare();
      b, wait := Refused(now), r;
      if r != Okay {
        return;
      }
      ghost var from := now;
      ghost var k;
      r, k := Burst(address, true, length, false);
      b := Ran(PREPARED + Command(address, true, length, false), from, k, AfterStart(trace, from, pollLimit, k, r));
      wait := r;
      Append(old(log), PREPARED, Command(address, true, length, false));
      t := now;
      r := Collect(r, data, length);
    }

    /** `hal_i2c_controller_write_read`. */
    method WriteRead(address: byte, written: Bytes, data: array<byte>, length: byte)
      returns (r: Result, ghost b: Bus, ghost wait: Result, ghost t: nat)
      requires length <= data.Length
      modifies this, data
      ensures initialized == old(initialized) && polls <= old(polls) + 3 * pollLimit
      ensures Reports(b, wait, trace, old(now), pollLimit, log, old(log), initialized,
                      address <= 0x7f && 1 <= |written| <= 4 && 1 <= length <= 4)
      ensures b.Ran? ==> b.before == PREPARED + Puts(written) + Command(address, true, length, true)
      ensures wait == Okay ==> b.Ran? && t == b.t + 2 * (b.k + 1)
      ensures Collected(trace, t, wait, r, length, old(data[..]), data[..])
    {
      hide Control, AfterStart, PrepareEnds, WaitEnds, Puts;
      t := now;
      if !initialized {
        return NotInitialized, Untouched, NotInitialized, t;
      }
      if address > 0x7f || |written| == 0 || length == 0 || |written| > MAX_TRANSFER || length > MAX_TRANSFER {
        return InvalidArgument, Untouched, InvalidArgument, t;
      }
      r := Prepare();
      b, wait := Refused(now), r;
      if r != Okay {
        return;
      }
      Preload(written);
      ghost var from := now;
      ghost var k;
      r, k := Burst(address, true, length, true);
      b := Ran(PREPARED + Puts(written) + Command(address, true, length, true), from, k,
               AfterStart(trace, from, pollLimit, k, r));
      wait := r;
      Regroup(old(log), PREPARED, Puts(written), Command(address, true, length, true), b.after);
      t := now;
      r := Collect(r, data, length);
    }
  }

  // ---- over whole runs ----

  function Starts(log: seq<Action>): nat {
    if log == [] then 0 else (if log[|log| - 1].Start? then 1 else 0) + Starts(log[..|log| - 1])
  }

  /** Bit STOP of a control word. */
  predicate AsksForStop(control: nat) { control / 4 % 2 == 1 }

  ghost predicate EveryStartStops(log: seq<Action>) {
    forall i :: 0 <= i < |log| && log[i].Start? ==> AsksForStop(log[i].control)
  }

  lemma {:induction false} QuietStarts(log: seq<Action>, more: seq<Action>)
    requires forall i :: 0 <= i < |more| ==> !more[i].Start?
    ensures Starts(log + more) == Starts(log)
    decreases |more|
  {
    if more == [] {
      assert log + more == log;
    } else {
      QuietStarts(log, more[..|more| - 1]);
      assert (log + more)[..|log + more| - 1] == log + more[..|more| - 1];
    }
  }

  /** Each transaction issues at most one START, exactly one if it got past its checks, and
      every START on the bus carries a STOP. */
  lemma {:induction false} OneStartEach(b: Bus, r: Result, trace: Trace, start: nat, limit: nat, log: seq<Action>,
                                        was: seq<Action>, initialized: bool, valid: bool, data: Bytes, target: nat,
                                        read: bool, length: byte, after: bool)
    requires Reports(b, r, trace, start, limit, log, was, initialized, valid) && EveryStartStops(was)
    requires b.Ran? ==> b.before == PREPARED + Puts(data) + Command(target, read, length, after)
    ensures Starts(log) == Starts(was) + (if b.Ran? then 1 else 0)
    ensures EveryStartStops(log)
  {
    match b
    case Untouched =>
    case Refused(_) => NoStart(was, if r == Timeout then PREPARED else []);
    case Ran(before, t, k, rest) =>
      RanStarts(was, data, target, read, length, after, rest);
  }

  lemma {:induction false} RanStarts(was: seq<Action>, data: Bytes, target: nat, read: bool, length: byte, after: bool,
                                     rest: seq<Action>)
    requires EveryStartStops(was) && forall i :: 0 <= i < |rest| ==> !rest[i].Start?
    ensures var log := was + (PREPARED + Puts(data) + Command(target, read, length, after)) + rest;
            Starts(log) == Starts(was) + 1 && EveryStartStops(log)
  {
    var quiet := PREPARED + Puts(data) + [Address(target, read)];
    var start := Command(target, read, length, after)[1];
    assert was + (PREPARED + Puts(data) + Command(target, read, length, after)) + rest == was + quiet + [start] + rest;
    NoStart(was, quiet);
    OneMoreStart(was + quiet, start.control, length, after);
    NoStart(was + quiet + [start], rest);
  }

  lemma {:induction false} OneMoreStart(log: seq<Action>, control: nat, length: byte, after: bool)
    requires EveryStartStops(log) && control == 0x1_0000 * length + (if after then 39 else 7)
    ensures var more := log + [Start(control)]; Starts(more) == Starts(log) + 1 && EveryStartStops(more)
  {
    StartsNext(log, Start(control));
    assert control / 4 == 16384 * length + (if after then 9 else 1);
    StopsAppend(log, [Start(control)]);
  }

  lemma {:induction false} NoStart(log: seq<Action>, more: seq<Action>)
    requires EveryStartStops(log) && forall i :: 0 <= i < |more| ==> !more[i].Start?
    ensures Starts(log + more) == Starts(log) && EveryStartStops(log + more)
  {
    QuietStarts(log, more);
    StopsAppend(log, more);
  }

  lemma {:induction false} StartsNext(log: seq<Action>, a: Action)
    ensures Starts(log + [a]) == Starts(log) + (if a.Start? then 1 else 0)
  {
    assert (log + [a])[..|log|] == log;
  }

  lemma {:induction false} StopsAppend(log: seq<Action>, more: seq<Action>)
    requires EveryStartStops(log) && EveryStartStops(more)
    ensures EveryStartStops(log + more)
  {
  }
}
