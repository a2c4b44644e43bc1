/** `lib_regmap_snapshot_t` in the form of the source: two byte arrays and an atomic word,
    with the publisher's copy interrupted between any two of its shared accesses. The
    ghost field `machine` follows the step machine, one step per shared access. */
module Snapshot {
  import opened Bits
  import opened Options
  import opened SnapshotWord
  import opened Atomics
  import M = SnapshotMachine

  /** A reader's latch variable. */
  datatype Latch = Free | Latched(buffer: Buffer)

  /** What an interrupt may do with a snapshot it preempts. */
  datatype Call = Enter(reader: nat, fails: nat) | Leave(reader: nat)

  datatype Turn = TurnedAway | In(buffer: Buffer) | Again(observed: uint32)

  class Snapshot {
    const length: nat
    const zero: array<byte>
    const one: array<byte>
    const state: Word
    var rejected: uint32
    var latches: seq<Latch>
    ghost var states: seq<M.State>
    ghost var events: seq<M.Event>

    /** The machine state the execution has reached. */
    ghost function Now(): M.State
      reads this
      requires states != []
    {
      states[|states| - 1]
    }

    /** The execution so far is a run of the step machine, and memory shows its last state. */
    ghost predicate Valid()
      reads this, zero, one, state
    {
      && zero != one && zero.Length == one.Length == length > 0
      && M.IsRun(states, events)
      && Shows(Now())
    }

    ghost predicate Shows(s: M.State)
      reads this, zero, one, state
    {
      && s.word == state.value && s.rejected == rejected
      && s.buffers == [zero[..], one[..]]
      && LatchesAgree(latches, s.readers)
    }

    ghost method Log(e: M.Event)
      requires M.IsRun(states, events) && M.WellFormed(Now()) && M.Enabled(Now(), e)
      modifies this`states, this`events
      ensures M.IsRun(states, events)
      ensures old(states) < states && old(events) < events
      ensures |events| == |old(events)| + 1 && events[|old(events)|] == e
      ensures Now() == M.Next(old(Now()), e)
    {
      M.RunContinues(states, events, e);
      states := states + [M.Next(Now(), e)];
      events := events + [e];
    }

    ghost method LogEnterLoad(r: nat)
      requires M.IsRun(states, events) && r < |Now().readers| && Now().readers[r].Outside?
      modifies this`states, this`events
      ensures M.IsRun(states, events) && old(states) < states && old(events) < events
      ensures r < |old(Now()).readers| && Now() == M.Peeked(old(Now()), r)
    {
      M.RunWellFormed(states, events, |events|);
      Log(M.EnterLoad(r));
    }

    ghost method LogEnterSwap(start: M.State, r: nat, spurious: bool)
      requires M.IsRun(states, events)
      requires r < |start.readers| && start.readers[r].Outside? && Now() == M.Peeked(start, r)
      modifies this`states, this`events
      ensures M.IsRun(states, events) && old(states) < states && old(events) < events
      ensures start.versions != []
      ensures Now() == if ReaderCount(start.word, ActiveBit(start.word)) == READER_MASK then start
                       else if spurious then M.Peeked(start, r)
                       else M.Entered(start, r)
    {
      M.RunWellFormed(states, events, |events|);
      M.EnterSwapOutcome(start, r, spurious);
      Log(M.EnterSwap(r, spurious));
    }

    /** The stores of `lib_regmap_snapshot_init`; the two buffers must be different storage. */
    constructor (core: Core, bufferZero: array<byte>, bufferOne: array<byte>, initial: Bytes, readers: nat)
      requires bufferZero != bufferOne && bufferZero.Length == bufferOne.Length == |initial| > 0
      modifies bufferZero, bufferOne
      ensures Valid() && fresh(state) && zero == bufferZero && one == bufferOne && state.core == core
      ensures states == [M.Initial(initial, readers)] && length == |initial|
    {
      length, zero, one := |initial|, bufferZero, bufferOne;
      state := new Word(core, 0);
      rejected, latches := 0, seq(readers, _ => Free);
      states, events := [M.Initial(initial, readers)], [];
      new;
      for index := 0 to |initial|
        invariant bufferZero[..index] == initial[..index] && bufferOne[..index] == initial[..index]
        modifies bufferZero, bufferOne
      {
        bufferZero[index] := initial[index];
        bufferOne[index] := initial[index];
      }
      assert zero[..] == initial && one[..] == initial;
      M.RunStarts(initial, readers);
    }

    /** `lib_regmap_snapshot_init`: refuses a length of zero, and fills with zeros when no data
        is given. */
    static method Init(core: Core, bufferZero: array<byte>, bufferOne: array<byte>, data: Option<Bytes>, readers: nat)
      returns (s: Snapshot?)
      requires bufferZero != bufferOne && bufferZero.Length == bufferOne.Length
      requires data.Some? ==> |data.value| == bufferZero.Length
      modifies bufferZero, bufferOne
      ensures s == null <==> bufferZero.Length == 0
      ensures s != null ==> s.Valid() && fresh(s) && fresh(s.state) && s.state.core == core
      ensures s != null ==> s.zero == bufferZero && s.one == bufferOne && s.length == bufferZero.Length
      ensures s != null ==> s.states == [M.Initial(Filling(data, bufferZero.Length), readers)]
      ensures s != null ==> forall i :: 0 <= i < bufferZero.Length ==>
                bufferZero[i] == bufferOne[i] == if data.Some? then data.value[i] else 0
    {
      if bufferZero.Length == 0 {
        return null;
      }
      s := new Snapshot(core, bufferZero, bufferOne, Filling(data, bufferZero.Length), readers);
    }

    /** One turn of the loop in `lib_regmap_snapshot_acquire`, with `local` up to date. */
    method TryToEnter(ghost start: M.State, r: nat, local: uint32, spurious: bool) returns (t: Turn)
      requires zero != one && zero.Length == one.Length == length > 0
      requires M.IsRun(states, events) && Shows(start) && r < |latches| && latches[r] == Free
      requires Now() == M.Peeked(start, r) && local == start.word
      modifies state, state.core, this`latches, this`states, this`events
      ensures M.IsRun(states, events) && old(states) < states && old(events) < events
      ensures state.core.masked == old(state.core.masked)
      ensures t.TurnedAway? <==> ReaderCount(local, ActiveBit(local)) == READER_MASK
      ensures t.Again? ==> spurious && t.observed == local
      ensures t.In? ==> t.buffer == ActiveBit(local) && start.versions != []
      ensures match t
              case TurnedAway => Now() == start && Shows(start) && latches == old(latches)
              case Again(_) => Now() == M.Peeked(start, r) && Shows(start) && latches == old(latches)
              case In(b) => Now() == M.Entered(start, r) && Shows(Now()) && latches == old(latches)[r := Latched(b)]
    {
      assert LatchAgrees(latches[r], start.readers[r]);
      var active := ActiveBit(local);
      LogEnterSwap(start, r, spurious);
      if ReaderCount(local, active) == READER_MASK {
        return TurnedAway;
      }
      var exchanged, observed := state.CompareExchange(local, Acquired(local), spurious);
      if exchanged {
        LatchTaken(latches, start.readers, r, Latched(active), M.Holding(active, |start.versions| - 1));
        latches := latches[r := Latched(active)];
        return In(active);
      }
      return Again(observed);
    }

    /** `lib_regmap_snapshot_acquire` by reader r, not preempted. `fails` is how often the
        weak compare-and-swap fails without a reason. */
    method Acquire(r: nat, fails: nat) returns (ok: bool, buffer: Buffer)
      requires Valid() && r < |latches| && latches[r] == Free
      modifies state, state.core, this`latches, this`states, this`events
      ensures Valid() && state.core.masked == old(state.core.masked)
      ensures old(states) < states && old(events) < events
      ensures ok == (ReaderCount(old(state.value), ActiveBit(old(state.value))) != READER_MASK)
      ensures ok ==> buffer == ActiveBit(old(state.value)) && latches == old(latches)[r := Latched(buffer)]
      ensures ok ==> old(Now()).versions != [] && Now() == M.Entered(old(Now()), r)
      ensures !ok ==> latches == old(latches) && Now() == old(Now())
    {
      ghost var start := Now();
      assert LatchAgrees(latches[r], start.readers[r]);
      var local, left := state.value, fails;
      LogEnterLoad(r);
      while true
        invariant M.IsRun(states, events) && old(states) < states && old(events) < events
        invariant Now() == M.Peeked(start, r) && Shows(start) && latches == old(latches)
        invariant local == start.word && state.core.masked == old(state.core.masked)
        decreases left
      {
        var turn := TryToEnter(start, r, local, left > 0);
        match turn {
          case TurnedAway => return false, 0;
          case In(b) => return true, b;
          case Again(observed) => local, left := observed, left - 1;
        }
      }
    }

    /** `lib_regmap_snapshot_release` of the buffer reader r holds. */
    method Release(r: nat)
      requires Valid() && r < |latches| && latches[r].Latched?
      modifies state, state.core, this`latches, this`states, this`events
      ensures Valid() && state.core.masked == old(state.core.masked)
      ensures old(states) < states && old(events) < events
      ensures latches == old(latches)[r := Free]
      ensures r < |old(Now()).readers| && old(Now()).readers[r].Holding? && Now() == M.Left(old(Now()), r)
    {
      M.RunWellFormed(states, events, |events|);
      assert LatchAgrees(latches[r], Now().readers[r]);
      var previous := state.FetchSub(ShiftLeft32(1, ReaderShift(latches[r].buffer)));
      Log(M.Release(r));
      latches := latches[r := Free];
    }

    /** A byte of a latched buffer is a byte of the version current at the acquire. */
    method ReadByte(r: nat, index: nat) returns (value: byte)
      requires Valid() && r < |latches| && latches[r].Latched? && index < length
      ensures var s := Now();
              && r < |s.readers| && s.readers[r].Holding? && s.readers[r].version < |s.versions|
              && index < |s.versions[s.readers[r].version]|
              && value == s.versions[s.readers[r].version][index]
    {
      ghost var s := Now();
      M.RunInv(states, events, |events|);
      assert LatchAgrees(latches[r], s.readers[r]);
      assert M.HolderIsSafe(s, s.readers[r]);
      value := if latches[r].buffer == 0 then zero[index] else one[index];
      assert value == s.buffers[latches[r].buffer][index];
    }

    /** Interrupts that arrive between two accesses of the publisher. Each call runs to
        completion; one its reader is in no position to make is dropped. */
    method Preempt(calls: seq<Call>)
      requires Valid()
      modifies state, state.core, this`latches, this`states, this`events
      ensures Valid() && state.core.masked == old(state.core.masked)
      ensures old(states) <= states && old(events) <= events
      ensures Now() == old(Now()).(word := Now().word, readers := Now().readers)
      ensures calls == [] ==> Now() == old(Now())
    {
      for i := 0 to |calls|
        invariant Valid() && state.core.masked == old(state.core.masked)
        invariant old(states) <= states && old(events) <= events
        invariant Now() == old(Now()).(word := Now().word, readers := Now().readers)
        invariant i == 0 ==> Now() == old(Now())
      {
        var r := calls[i].reader;
        if r < |latches| {
          if calls[i].Enter? && latches[r].Free? {
            var ok, buffer := Acquire(r, calls[i].fails);
          } else if calls[i].Leave? && latches[r].Latched? {
            Release(r);
          }
        }
      }
    }

    /** One byte of the publisher's copy. */
    method StoreByte(data: Bytes, target: Buffer, index: nat)
      requires Valid() && index < length == |data|
      requires Now().publisher.Copying? && Now().publisher == M.Copying(data, Now().publisher.local, target, index)
      modifies zero, one, this`states, this`events
      ensures Valid() && old(states) < states && old(events) < events
      ensures Now() == old(Now()).(buffers := Now().buffers, publisher := old(Now()).publisher.(next := index + 1))
    {
      M.RunWellFormed(states, events, |events|);
      ghost var s := Now();
      if target == 0 {
        zero[index] := data[index];
        assert zero[..] == s.buffers[0][index := data[index]];
      } else {
        one[index] := data[index];
        assert one[..] == s.buffers[1][index := data[index]];
      }
      Log(M.Store);
    }

    method Copy(data: Bytes, local: uint32, target: Buffer, isr: seq<seq<Call>>)
      requires Valid() && |data| == length && Now().publisher == M.Copying(data, local, target, 0)
      modifies zero, one, state, state.core, this`latches, this`states, this`events
      ensures Valid() && state.core.masked == old(state.core.masked)
      ensures old(states) <= states && old(events) <= events
      ensures Now().publisher == M.Copying(data, local, target, length)
      ensures Now().versions == old(Now()).versions && Now().rejected == old(Now()).rejected
    {
      for index := 0 to length
        invariant Valid() && state.core.masked == old(state.core.masked)
        invariant old(states) <= states && old(events) <= events
        invariant Now().publisher == M.Copying(data, local, target, index)
        invariant Now().versions == old(Now()).versions && Now().rejected == old(Now()).rejected
      {
        Preempt(At(isr, index));
        StoreByte(data, target, index);
      }
    }

    /** One compare-and-swap of the publisher. */
    method TryToSwap(data: Bytes, local: uint32, target: Buffer, spurious: bool)
      returns (exchanged: bool, observed: uint32)
      requires Valid() && |data| == length && Now().publisher == M.Copying(data, local, target, length)
      modifies state, state.core, this`states, this`events
      ensures Valid() && state.core.masked == old(state.core.masked)
      ensures old(states) < states && old(events) < events
      ensures exchanged == (old(state.value) == local && !spurious)
      ensures observed == if exchanged then local else state.value
      ensures exchanged ==> Now() == old(Now()).(word := Now().word, publisher := M.Resting,
                                                 versions := old(Now()).versions + [data])
      ensures !exchanged ==> Now() == old(Now()).(publisher := M.Copying(data, observed, target, length))
      ensures !exchanged ==> state.value == old(state.value)
      ensures InactiveBit(local) == target
    {
      M.RunWellFormed(states, events, |events|);
      M.TargetIsInactive(states, events);
      exchanged, observed := state.CompareExchange(local, Flipped(local), spurious);
      Log(M.Swap(spurious));
    }

    /** The loop that ends `lib_regmap_snapshot_publish`. `fails` is how often the weak
        compare-and-swap fails without a reason. */
    method SwapLoop(data: Bytes, loaded: uint32, target: Buffer, isr: seq<seq<Call>>, fails: nat)
      requires Valid() && |data| == length && Now().publisher == M.Copying(data, loaded, target, length)
      modifies state, state.core, this`latches, this`states, this`events
      ensures Valid() && state.core.masked == old(state.core.masked)
      ensures old(states) <= states && old(events) <= events
      ensures Now().publisher == M.Resting && Now().rejected == old(Now()).rejected
      ensures Now().versions == old(Now()).versions + [data]
    {
      var local, turn, left := loaded, 0, fails;
      while true
        invariant Valid() && state.core.masked == old(state.core.masked)
        invariant old(states) <= states && old(events) <= events
        invariant Now().publisher == M.Copying(data, local, target, length)
        invariant Now().versions == old(Now()).versions && Now().rejected == old(Now()).rejected
        decreases if turn < |isr| then |isr| - turn else 0, left, if local == state.value then 0 else 1
      {
        if InactiveBit(local) != target {
          // The refusal after the active bit changed: no run gets here.
          M.TargetIsInactive(states, events);
          assert false;
        }
        Preempt(At(isr, turn));
        var exchanged, observed := TryToSwap(data, local, target, left > 0);
        if exchanged {
          return;
        }
        local := observed;
        turn := turn + 1;
        if left > 0 { left := left - 1; }
      }
    }

    method Refuse()
      requires Valid() && Now().publisher.Loaded?
      requires ReaderCount(Now().publisher.local, InactiveBit(Now().publisher.local)) != 0
      modifies this`rejected, this`states, this`events
      ensures Valid() && old(states) < states && old(events) < events
      ensures Now() == M.Refused(old(Now()))
    {
      M.RunWellFormed(states, events, |events|);
      Log(M.Check);
      rejected := Add32(rejected, 1);
    }

    /** `lib_regmap_snapshot_publish`, preempted by isr.before, by isr.copy[i] before byte i
        and by isr.swap[i] before attempt i. A publish of the wrong length does nothing. Any
        other is refused exactly when the version before the current one is held where
        `loadedAt` says the word was loaded; a refusal counts, and a success makes `data`
        the current version in one step. */
    method Publish(data: Bytes, isr: Schedule, fails: nat) returns (ok: bool, ghost loadedAt: nat)
      requires Valid() && Now().publisher == M.Resting
      modifies zero, one, state, state.core, this`rejected, this`latches, this`states, this`events
      ensures Valid() && Now().publisher == M.Resting
      ensures state.core.masked == old(state.core.masked)
      ensures old(states) <= states && old(events) <= events
      ensures |data| != length ==> !ok && Now() == old(Now())
      ensures ok ==> Now().versions == old(Now()).versions + [data] && rejected == old(rejected)
      ensures !ok ==> Now().versions == old(Now()).versions
      ensures !ok && |data| == length ==> rejected == Add32(old(rejected), 1)
      ensures |data| == length ==>
                |old(events)| <= loadedAt < |events| && events[loadedAt] == M.Load(data)
                && states[loadedAt].versions != [] && ok == !M.PreviousIsHeld(states[loadedAt])
    {
      loadedAt := 0;
      if |data| != length {
        return false, 0;
      }
      Preempt(isr.before);
      var local;
      local, loadedAt := LoadWord(data);
      var target := InactiveBit(local);
      Preempt(isr.check);
      if ReaderCount(local, target) != 0 {
        Refuse();
        return false, loadedAt;
      }
      PassCheck();
      Copy(data, local, target, isr.copy);
      SwapLoop(data, local, target, isr.swap, fails);
      return true, loadedAt;
    }

    method LoadWord(data: Bytes) returns (local: uint32, ghost loadedAt: nat)
      requires Valid() && Now().publisher == M.Resting && |data| == length
      modifies this`states, this`events
      ensures Valid() && old(states) < states && old(events) < events
      ensures Now() == old(Now()).(publisher := M.Loaded(data, local))
      ensures loadedAt == |old(events)| && events[loadedAt] == M.Load(data)
      ensures states[loadedAt] == old(Now()) && states[loadedAt].versions != []
      ensures ReaderCount(local, InactiveBit(local)) != 0 <==> M.PreviousIsHeld(states[loadedAt])
    {
      loadedAt := |events|;
      M.LoadSeesInRun(states, events, loadedAt);
      M.RunWellFormed(states, events, loadedAt);
      local := state.value;
      Log(M.Load(data));
    }

    ghost method PassCheck()
      requires Valid() && Now().publisher.Loaded?
      requires ReaderCount(Now().publisher.local, InactiveBit(Now().publisher.local)) == 0
      modifies this`states, this`events
      ensures Valid() && old(states) < states && old(events) < events
      ensures var p := old(Now()).publisher;
              Now() == old(Now()).(publisher := M.Copying(p.data, p.local, InactiveBit(p.local), 0))
    {
      M.RunWellFormed(states, events, |events|);
      Log(M.Check);
    }
  }

  /** The interrupts that arrive during one publish, by the access they precede. */
  datatype Schedule = Schedule(before: seq<Call>, check: seq<Call>, copy: seq<seq<Call>>, swap: seq<seq<Call>>)

  /** The data given, or zeros. */
  function Filling(data: Option<Bytes>, n: nat): Bytes { if data.Some? then data.value else seq(n, _ => 0) }

  function At(isr: seq<seq<Call>>, i: nat): seq<Call> { if i < |isr| then isr[i] else [] }

  ghost predicate LatchesAgree(latches: seq<Latch>, readers: seq<M.Reader>) {
    |latches| == |readers| && forall r :: 0 <= r < |latches| ==> LatchAgrees(latches[r], readers[r])
  }

  lemma {:induction false} LatchTaken(latches: seq<Latch>, readers: seq<M.Reader>, r: nat,
                                      latch: Latch, reader: M.Reader)
    requires LatchesAgree(latches, readers) && r < |latches| && LatchAgrees(latch, reader)
    ensures LatchesAgree(latches[r := latch], readers[r := reader])
  {
  }

  ghost predicate LatchAgrees(latch: Latch, reader: M.Reader) {
    match latch
    case Free => reader.Outside?
    case Latched(b) => reader.Holds(b)
  }
}
