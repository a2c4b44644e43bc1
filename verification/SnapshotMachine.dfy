/** The snapshot protocol as a step machine: one publisher and any number of readers share
    two buffers and the packed word. Every step is one shared access or one test of a local
    copy, so a run is an arbitrary interleaving, down to single byte stores. */
module SnapshotMachine {
  import opened Bits
  import opened SnapshotWord

  /** Where the publisher is; `local` is its copy of the word. */
  datatype Publisher =
    | Resting
    | Loaded(data: Bytes, local: uint32)
    | Copying(data: Bytes, local: uint32, target: Buffer, next: nat)

  /** Where a reader is. A holder remembers the number of the version that was current when
      its compare-and-swap succeeded; nothing else in the machine looks at it. */
  datatype Reader =
    | Outside
    | Entering(local: uint32)
    | Holding(buffer: Buffer, version: nat)
  {
    predicate Holds(b: Buffer) { Holding? && buffer == b }
  }

  datatype State = State(word: uint32, buffers: seq<Bytes>, rejected: uint32,
                         publisher: Publisher, readers: seq<Reader>, versions: seq<Bytes>)

  datatype Event =
    | Load(data: Bytes)                  // publisher loads the word
    | Check                              // and tests the count of the inactive buffer
    | Store                              // one byte of the copy
    | Swap(spurious: bool)               // one turn of the compare-and-swap loop
    | EnterLoad(reader: nat)             // reader loads the word
    | EnterSwap(reader: nat, spurious: bool)
    | Read(reader: nat, index: nat)
    | Release(reader: nat)

  predicate WellFormed(s: State) {
    && |s.buffers| == 2 && |s.buffers[0]| == |s.buffers[1]| > 0
    && (s.publisher.Loaded? || s.publisher.Copying? ==> |s.publisher.data| == |s.buffers[0]|)
    && (s.publisher.Copying? ==> s.publisher.next <= |s.buffers[0]|)
    && s.versions != []
    && (forall v :: 0 <= v < |s.versions| ==> |s.versions[v]| == |s.buffers[0]|)
  }

  predicate Enabled(s: State, e: Event)
    requires WellFormed(s)
  {
    match e
    case Load(data) => s.publisher.Resting? && |data| == |s.buffers[0]|
    case Check => s.publisher.Loaded?
    case Store => s.publisher.Copying? && s.publisher.next < |s.buffers[0]|
    case Swap(_) => s.publisher.Copying? && s.publisher.next == |s.buffers[0]|
    case EnterLoad(r) => r < |s.readers| && s.readers[r].Outside?
    case EnterSwap(r, _) => r < |s.readers| && s.readers[r].Entering?
    case Read(r, i) => r < |s.readers| && s.readers[r].Holding? && i < |s.buffers[0]|
    case Release(r) => r < |s.readers| && s.readers[r].Holding?
  }

  function Refused(s: State): State {
    s.(rejected := Add32(s.rejected, 1), publisher := Resting)
  }

  function Next(s: State, e: Event): (n: State)
    requires WellFormed(s) && Enabled(s, e)
    ensures WellFormed(n) && |n.readers| == |s.readers| && |n.buffers[0]| == |s.buffers[0]|
  {
    match e
    case Load(data) => s.(publisher := Loaded(data, s.word))
    case Check =>
      var target := InactiveBit(s.publisher.local);
      if ReaderCount(s.publisher.local, target) != 0 then Refused(s)
      else s.(publisher := Copying(s.publisher.data, s.publisher.local, target, 0))
    case Store =>
      var p := s.publisher;
      s.(buffers := s.buffers[p.target := s.buffers[p.target][p.next := p.data[p.next]]],
         publisher := p.(next := p.next + 1))
    case Swap(spurious) =>
      var p := s.publisher;
      if InactiveBit(p.local) != p.target then Refused(s)
      else if s.word == p.local && !spurious then
        s.(word := Flipped(p.local), publisher := Resting, versions := s.versions + [p.data])
      else s.(publisher := p.(local := s.word))
    case EnterLoad(r) => s.(readers := s.readers[r := Entering(s.word)])
    case EnterSwap(r, spurious) =>
      var local := s.readers[r].local;
      if ReaderCount(local, ActiveBit(local)) == READER_MASK then
        s.(readers := s.readers[r := Outside])
      else if s.word == local && !spurious then
        s.(word := Acquired(local),
           readers := s.readers[r := Holding(ActiveBit(local), |s.versions| - 1)])
      else s.(readers := s.readers[r := Entering(s.word)])
    case Read(_, _) => s
    case Release(r) => Left(s, r)
  }

  function Left(s: State, r: nat): State
    requires r < |s.readers| && s.readers[r].Holding?
  {
    s.(word := Released(s.word, s.readers[r].buffer), readers := s.readers[r := Outside])
  }

  /** The byte a read step delivers. */
  function ByteRead(s: State, e: Event): byte
    requires WellFormed(s) && Enabled(s, e) && e.Read?
  {
    s.buffers[s.readers[e.reader].buffer][e.index]
  }

  /** Does this step refuse a publish? It ends the publisher's call, and publishes nothing. */
  predicate Refuses(s: State, e: Event)
    requires WellFormed(s) && Enabled(s, e)
  {
    (e.Check? || e.Swap?) && Next(s, e).publisher.Resting? && Next(s, e).versions == s.versions
  }

  /** `lib_regmap_snapshot_init` with the given contents, before any reader enters. */
  function Initial(data: Bytes, readers: nat): State
    requires data != []
  {
    State(0, [data, data], 0, Resting, seq(readers, _ => Outside), [data])
  }

  /** Reader r has just loaded the word. */
  function Peeked(s: State, r: nat): State
    requires r < |s.readers|
  {
    s.(readers := s.readers[r := Entering(s.word)])
  }

  function Entered(s: State, r: nat): State
    requires r < |s.readers| && s.versions != []
  {
    s.(word := Acquired(s.word), readers := s.readers[r := Holding(ActiveBit(s.word), |s.versions| - 1)])
  }

  /** An attempt to enter that nobody disturbs. */
  lemma {:induction false} EnterSwapOutcome(s: State, r: nat, spurious: bool)
    requires WellFormed(s) && r < |s.readers| && s.readers[r].Outside?
    ensures WellFormed(Peeked(s, r)) && Enabled(Peeked(s, r), EnterSwap(r, spurious))
    ensures Next(Peeked(s, r), EnterSwap(r, spurious))
         == if ReaderCount(s.word, ActiveBit(s.word)) == READER_MASK then s
            else if spurious then Peeked(s, r)
            else Entered(s, r)
  {
    var p := Peeked(s, r);
    assert p.readers[r := Outside] == s.readers;
    assert p.readers[r := Entering(s.word)] == p.readers;
    assert p.readers[r := Holding(ActiveBit(s.word), |s.versions| - 1)] == Entered(s, r).readers;
  }

  // ---- counting holders ----

  function Held(readers: seq<Reader>, b: Buffer): nat {
    if readers == [] then 0
    else (if readers[0].Holds(b) then 1 else 0) + Held(readers[1..], b)
  }

  lemma {:induction false} HeldUpdate(readers: seq<Reader>, i: nat, r: Reader, b: Buffer)
    requires i < |readers|
    ensures Held(readers[i := r], b)
         == Held(readers, b) - (if readers[i].Holds(b) then 1 else 0) + (if r.Holds(b) then 1 else 0)
  {
    if i == 0 {
      assert readers[0 := r][1..] == readers[1..];
    } else {
      assert readers[i := r][1..] == readers[1..][i - 1 := r];
      HeldUpdate(readers[1..], i - 1, r, b);
    }
  }

  lemma {:induction false} HolderCounts(readers: seq<Reader>, i: nat, b: Buffer)
    requires i < |readers| && readers[i].Holds(b)
    ensures Held(readers, b) > 0
  {
    if i != 0 {
      HolderCounts(readers[1..], i - 1, b);
    }
  }

  /** A positive count has a holder to show for it. */
  lemma {:induction false} FindHolder(readers: seq<Reader>, b: Buffer) returns (i: nat)
    requires Held(readers, b) > 0
    ensures i < |readers| && readers[i].Holds(b)
  {
    if readers[0].Holds(b) {
      i := 0;
    } else {
      i := FindHolder(readers[1..], b);
      i := i + 1;
    }
  }

  lemma {:induction false} NoneHeld(n: nat, b: Buffer)
    ensures Held(seq(n, _ => Outside), b) == 0
  {
    if n != 0 {
      assert seq(n, _ => Outside)[1..] == seq(n - 1, _ => Outside);
      NoneHeld(n - 1, b);
    }
  }

  // ---- the invariant ----

  function Last(s: State): nat
    requires s.versions != []
  {
    |s.versions| - 1
  }

  function CountsOf(s: State): Counts {
    Counts(ActiveBit(s.word), Held(s.readers, 0), Held(s.readers, 1))
  }

  /** The word counts the holders exactly. */
  ghost predicate WordAgrees(s: State) {
    CountsOf(s).Fits() && s.word == Pack(CountsOf(s))
  }

  /** What a holder may rely on. */
  ghost predicate HolderIsSafe(s: State, r: Reader)
    requires WellFormed(s)
  {
    r.Holding? ==>
      if r.buffer == ActiveBit(s.word) then r.version == Last(s)
      else Last(s) > 0 && r.version == Last(s) - 1 && s.buffers[r.buffer] == s.versions[Last(s) - 1]
  }

  ghost predicate PublisherIsSafe(s: State)
    requires WellFormed(s)
  {
    var p, active := s.publisher, ActiveBit(s.word);
    match p
    case Resting => true
    case Loaded(data, local) =>
      ActiveBit(local) == active && Held(s.readers, Other(active)) <= ReaderCount(local, Other(active))
    case Copying(data, local, target, next) =>
      && ActiveBit(local) == active && target == Other(active)
      && Held(s.readers, target) == 0
      && s.buffers[target][..next] == data[..next]
  }

  ghost predicate Inv(s: State) {
    && WellFormed(s)
    && WordAgrees(s)
    && s.buffers[ActiveBit(s.word)] == s.versions[Last(s)]
    && (forall r :: 0 <= r < |s.readers| ==> HolderIsSafe(s, s.readers[r]))
    && PublisherIsSafe(s)
  }

  lemma {:induction false} InitialInv(data: Bytes, readers: nat)
    requires data != []
    ensures Inv(Initial(data, readers))
  {
    var s := Initial(data, readers);
    NoneHeld(readers, 0);
    NoneHeld(readers, 1);
    LowBit(0);
    assert CountsOf(s) == Counts(0, 0, 0);
    forall r | 0 <= r < |s.readers|
      ensures HolderIsSafe(s, s.readers[r])
    {
      assert s.readers[r] == Outside;
    }
  }

  lemma {:induction false} LoadInv(s: State, data: Bytes)
    requires Inv(s) && Enabled(s, Load(data))
    ensures Inv(Next(s, Load(data)))
  {
    hide ReaderCount, ActiveBit, InactiveBit, Held;
    Fields(CountsOf(s), Other(ActiveBit(s.word)));
  }

  lemma {:induction false} CheckInv(s: State)
    requires Inv(s) && Enabled(s, Check)
    ensures Inv(Next(s, Check))
  {
    hide BitAnd, BitXor, ShiftRight;
    LowBit(s.publisher.local);
  }

  lemma {:induction false} StoreInv(s: State)
    requires Inv(s) && Enabled(s, Store)
    ensures Inv(Next(s, Store))
  {
    hide BitAnd, BitXor, ShiftRight;
    var n, p := Next(s, Store), s.publisher;
    forall r | 0 <= r < |s.readers|
      ensures HolderIsSafe(n, n.readers[r])
    {
      assert HolderIsSafe(s, s.readers[r]);
      if s.readers[r].Holds(p.target) { HolderCounts(s.readers, r, p.target); }
    }
    assert n.buffers[p.target][..p.next + 1] == s.buffers[p.target][..p.next] + [p.data[p.next]];
    assert p.data[..p.next + 1] == p.data[..p.next] + [p.data[p.next]];
  }

  /** The only step that changes what is current. */
  lemma {:induction false} SwapInv(s: State, spurious: bool)
    requires Inv(s) && Enabled(s, Swap(spurious))
    ensures Inv(Next(s, Swap(spurious)))
    ensures !Refuses(s, Swap(spurious))
  {
    hide BitAnd, BitXor, ShiftRight;
    var p, n := s.publisher, Next(s, Swap(spurious));
    LowBit(p.local);
    if s.word == p.local && !spurious {
      var c := CountsOf(s);
      FlipToggles(c);
      ActiveField(c.(active := Other(c.active)));
      assert n.buffers[p.target] == p.data by {
        assert s.buffers[p.target][..p.next] == s.buffers[p.target];
        assert p.data[..p.next] == p.data;
      }
      forall r | 0 <= r < |s.readers|
        ensures HolderIsSafe(n, n.readers[r])
      {
        assert HolderIsSafe(s, s.readers[r]);
        if s.readers[r].Holds(p.target) { HolderCounts(s.readers, r, p.target); }
      }
    }
  }

  lemma {:induction false} EnterLoadInv(s: State, r: nat)
    requires Inv(s) && Enabled(s, EnterLoad(r))
    ensures Inv(Next(s, EnterLoad(r)))
  {
    hide BitAnd, BitXor, ShiftRight;
    ReaderMoves(s, r, Entering(s.word));
  }

  /** A step of one reader that leaves the active bit alone and adds no holder to the
      inactive buffer disturbs nobody else. */
  lemma {:induction false} OnlyReader(s: State, n: State, r: nat)
    requires Inv(s) && r < |s.readers| == |n.readers|
    requires n == s.(word := n.word, readers := s.readers[r := n.readers[r]])
    requires WordAgrees(n) && ActiveBit(n.word) == ActiveBit(s.word)
    requires Held(n.readers, Other(ActiveBit(s.word))) <= Held(s.readers, Other(ActiveBit(s.word)))
    requires HolderIsSafe(n, n.readers[r])
    ensures Inv(n)
  {
    hide BitAnd, BitXor, ShiftRight;
    forall i | 0 <= i < |n.readers|
      ensures HolderIsSafe(n, n.readers[i])
    {
      if i != r {
        assert n.readers[i] == s.readers[i];
        assert HolderIsSafe(s, s.readers[i]);
      }
    }
  }

  /** A reader that neither takes nor gives up a buffer disturbs nobody. */
  lemma {:induction false} ReaderMoves(s: State, r: nat, to: Reader)
    requires Inv(s) && r < |s.readers| && !s.readers[r].Holding? && !to.Holding?
    ensures Inv(s.(readers := s.readers[r := to]))
  {
    hide BitAnd, BitXor, ShiftRight;
    HeldUpdate(s.readers, r, to, 0);
    HeldUpdate(s.readers, r, to, 1);
    OnlyReader(s, s.(readers := s.readers[r := to]), r);
  }

  lemma {:induction false} EnterSwapInv(s: State, r: nat, spurious: bool)
    requires Inv(s) && Enabled(s, EnterSwap(r, spurious))
    ensures Inv(Next(s, EnterSwap(r, spurious)))
  {
    hide BitAnd, BitXor, ShiftRight;
    var n, local := Next(s, EnterSwap(r, spurious)), s.readers[r].local;
    if ReaderCount(local, ActiveBit(local)) == READER_MASK {
      ReaderMoves(s, r, Outside);
    } else if s.word == local && !spurious {
      Acquires(s, r);
    } else {
      ReaderMoves(s, r, Entering(s.word));
    }
  }

  lemma {:induction false} AcquireCounts(s: State, r: nat)
    requires Inv(s) && r < |s.readers| && !s.readers[r].Holding?
    requires ReaderCount(s.word, ActiveBit(s.word)) != READER_MASK
    ensures WordAgrees(Entered(s, r))
    ensures ActiveBit(Entered(s, r).word) == ActiveBit(s.word)
    ensures Held(Entered(s, r).readers, Other(ActiveBit(s.word))) == Held(s.readers, Other(ActiveBit(s.word)))
  {
    hide BitAnd, BitXor, ShiftRight;
    var c, active := CountsOf(s), ActiveBit(s.word);
    var h := Holding(active, Last(s));
    Fields(c, active);
    AcquireIncrements(c);
    ActiveField(c.With(active, c.Of(active) + 1));
    HeldUpdate(s.readers, r, h, 0);
    HeldUpdate(s.readers, r, h, 1);
  }

  lemma {:induction false} Acquires(s: State, r: nat)
    requires Inv(s) && r < |s.readers| && !s.readers[r].Holding?
    requires ReaderCount(s.word, ActiveBit(s.word)) != READER_MASK
    ensures Inv(Entered(s, r))
  {
    hide BitAnd, BitXor, ShiftRight;
    AcquireCounts(s, r);
    OnlyReader(s, Entered(s, r), r);
  }

  lemma {:induction false} ReleaseCounts(s: State, r: nat)
    requires Inv(s) && Enabled(s, Release(r))
    ensures WordAgrees(Next(s, Release(r)))
    ensures ActiveBit(Next(s, Release(r)).word) == ActiveBit(s.word)
    ensures forall b: Buffer :: Held(Next(s, Release(r)).readers, b) <= Held(s.readers, b)
  {
    hide BitAnd, BitXor, ShiftRight, ShiftLeft32;
    var c, b := CountsOf(s), s.readers[r].buffer;
    HolderCounts(s.readers, r, b);
    assert c.Of(b) == Held(s.readers, b) > 0;
    var d := c.With(b, c.Of(b) - 1);
    ReleaseDecrements(c, b);
    ActiveField(d);
    HeldUpdate(s.readers, r, Outside, 0);
    HeldUpdate(s.readers, r, Outside, 1);
  }

  lemma {:induction false} ReleaseInv(s: State, r: nat)
    requires Inv(s) && Enabled(s, Release(r))
    ensures Inv(Next(s, Release(r)))
  {
    hide BitAnd, BitXor, ShiftRight;
    ReleaseCounts(s, r);
    OnlyReader(s, Next(s, Release(r)), r);
  }

  /** Every step keeps the invariant. */
  lemma {:induction false} NextInv(s: State, e: Event)
    requires Inv(s) && Enabled(s, e)
    ensures Inv(Next(s, e))
  {
    match e
    case Load(data) => LoadInv(s, data);
    case Check => CheckInv(s);
    case Store => StoreInv(s);
    case Swap(spurious) => SwapInv(s, spurious);
    case EnterLoad(r) => EnterLoadInv(s, r);
    case EnterSwap(r, spurious) => EnterSwapInv(s, r, spurious);
    case Read(_, _) =>
    case Release(r) => ReleaseInv(s, r);
  }

  // ---- runs: every interleaving of steps ----

  ghost predicate IsRun(states: seq<State>, events: seq<Event>) {
    && |states| == |events| + 1
    && (exists data, n :: data != [] && states[0] == Initial(data, n))
    && (forall t :: 0 <= t < |events| ==>
          WellFormed(states[t]) && Enabled(states[t], events[t]) && states[t + 1] == Next(states[t], events[t]))
  }

  lemma {:induction false} RunStarts(data: Bytes, n: nat)
    requires data != []
    ensures IsRun([Initial(data, n)], [])
  {
  }

  lemma {:induction false} RunContinues(states: seq<State>, events: seq<Event>, e: Event)
    requires IsRun(states, events) && WellFormed(states[|events|]) && Enabled(states[|events|], e)
    ensures IsRun(states + [Next(states[|events|], e)], events + [e])
  {
    var all, es := states + [Next(states[|events|], e)], events + [e];
    assert all[0] == states[0];
    forall t | 0 <= t < |es|
      ensures WellFormed(all[t]) && Enabled(all[t], es[t]) && all[t + 1] == Next(all[t], es[t])
    {
      if t < |events| {
        assert all[t] == states[t] && all[t + 1] == states[t + 1] && es[t] == events[t];
      }
    }
  }

  lemma {:induction false} RunInv(states: seq<State>, events: seq<Event>, t: nat)
    requires IsRun(states, events) && t < |states|
    ensures Inv(states[t])
  {
    if t == 0 {
      var data, n :| data != [] && states[0] == Initial(data, n);
      InitialInv(data, n);
    } else {
      RunInv(states, events, t - 1);
      NextInv(states[t - 1], events[t - 1]);
      assert states[t - 1 + 1] == Next(states[t - 1], events[t - 1]);
    }
  }

  /** Published versions are never rewritten: the list only grows. */
  lemma {:induction false} VersionsGrow(states: seq<State>, events: seq<Event>, t: nat, u: nat)
    requires IsRun(states, events) && t <= u < |states|
    ensures states[t].versions <= states[u].versions
    decreases u
  {
    if t != u {
      VersionsGrow(states, events, t, u - 1);
      assert states[u - 1 + 1] == Next(states[u - 1], events[u - 1]);
    }
  }

  /** A reader keeps its buffer and version until it releases. */
  lemma {:induction false} HolderIsStable(states: seq<State>, events: seq<Event>, r: nat, t: nat, u: nat)
    requires IsRun(states, events) && t <= u < |states| && r < |states[0].readers|
    requires forall k :: t <= k <= u ==> r < |states[k].readers| && states[k].readers[r].Holding?
    ensures states[u].readers[r] == states[t].readers[r]
    decreases u
  {
    hide BitAnd, BitXor, ShiftRight;
    if t != u {
      HolderIsStable(states, events, r, t, u - 1);
      assert states[u - 1 + 1] == Next(states[u - 1], events[u - 1]);
    }
  }

  /** No tearing. Reader r enters at step a and has not released when it reads at step t;
      in between, the publisher and the other readers may have taken any steps at all. The
      byte it gets is the byte that stood at that index of the active buffer when it
      entered, which is the version that was current then. */
  lemma {:induction false} NoTearing(states: seq<State>, events: seq<Event>, r: nat, a: nat, t: nat, index: nat)
    requires IsRun(states, events) && a < t < |events| && r < |states[0].readers|
    requires events[a].EnterSwap? && events[a].reader == r && events[t] == Read(r, index)
    requires forall k :: a < k <= t ==> r < |states[k].readers| && states[k].readers[r].Holding?
    ensures WellFormed(states[a]) && index < |states[a].buffers[0]|
    ensures WellFormed(states[t]) && Enabled(states[t], events[t])
    ensures ByteRead(states[t], events[t]) == states[a].buffers[ActiveBit(states[a].word)][index]
    ensures ByteRead(states[t], events[t]) == states[a].versions[Last(states[a])][index]
  {
    hide BitAnd, BitXor, ShiftRight;
    RunInv(states, events, a);
    RunInv(states, events, t);
    assert states[a + 1] == Next(states[a], events[a]);
    HolderIsStable(states, events, r, a + 1, t);
    VersionsGrow(states, events, a, t);
    SameLength(states, events, a, t);
    assert HolderIsSafe(states[t], states[t].readers[r]);
  }

  lemma {:induction false} RunWellFormed(states: seq<State>, events: seq<Event>, t: nat)
    requires IsRun(states, events) && t < |states|
    ensures WellFormed(states[t])
  {
    RunInv(states, events, t);
  }

  lemma {:induction false} SameLength(states: seq<State>, events: seq<Event>, t: nat, u: nat)
    requires IsRun(states, events) && t <= u < |states|
    ensures WellFormed(states[t]) && WellFormed(states[u])
    ensures |states[t].buffers[0]| == |states[u].buffers[0]|
    decreases u
  {
    RunWellFormed(states, events, t);
    RunWellFormed(states, events, u);
    if t != u {
      SameLength(states, events, t, u - 1);
      SameLengthStep(states[u - 1], events[u - 1]);
    }
  }

  lemma {:induction false} SameLengthStep(s: State, e: Event)
    requires WellFormed(s) && Enabled(s, e)
    ensures |Next(s, e).buffers[0]| == |s.buffers[0]|
  {
    var n := Next(s, e);
  }

  /** Everything one reader gets between entering and releasing comes from one version. */
  lemma {:induction false} OneVersionPerTransaction(
      states: seq<State>, events: seq<Event>, r: nat, a: nat, t: nat, u: nat)
    requires IsRun(states, events) && a < t <= u < |events| && r < |states[0].readers|
    requires events[a].EnterSwap? && events[a].reader == r
    requires events[t].Read? && events[t].reader == r && events[u].Read? && events[u].reader == r
    requires forall k :: a < k <= u ==> r < |states[k].readers| && states[k].readers[r].Holding?
    ensures WellFormed(states[t]) && Enabled(states[t], events[t])
    ensures WellFormed(states[u]) && Enabled(states[u], events[u])
    ensures exists v | v in states[a].versions ::
              && events[t].index < |v| && ByteRead(states[t], events[t]) == v[events[t].index]
              && events[u].index < |v| && ByteRead(states[u], events[u]) == v[events[u].index]
  {
    hide BitAnd, BitXor, ShiftRight;
    NoTearing(states, events, r, a, t, events[t].index);
    NoTearing(states, events, r, a, u, events[u].index);
    var v := states[a].versions[Last(states[a])];
    assert v in states[a].versions;
  }

  /** No reader is ever more than one version behind. */
  lemma {:induction false} AtMostOneBehind(states: seq<State>, events: seq<Event>, t: nat, r: nat)
    requires IsRun(states, events) && t < |states| && r < |states[t].readers|
    requires states[t].readers[r].Holding?
    ensures states[t].versions != []
    ensures states[t].readers[r].version <= Last(states[t]) <= states[t].readers[r].version + 1
  {
    RunInv(states, events, t);
    assert HolderIsSafe(states[t], states[t].readers[r]);
  }

  /** Some reader holds the version before the current one. */
  ghost predicate PreviousIsHeld(s: State)
    requires s.versions != []
  {
    exists r :: 0 <= r < |s.readers| && s.readers[r].Holding? && s.readers[r].version + 1 == Last(s)
  }

  lemma {:induction false} PreviousMeansInactive(s: State)
    requires Inv(s)
    ensures PreviousIsHeld(s) <==> Held(s.readers, Other(ActiveBit(s.word))) > 0
  {
    hide BitAnd, BitXor, ShiftRight;
    var inactive := Other(ActiveBit(s.word));
    if PreviousIsHeld(s) {
      var r :| 0 <= r < |s.readers| && s.readers[r].Holding? && s.readers[r].version + 1 == Last(s);
      assert HolderIsSafe(s, s.readers[r]);
      HolderCounts(s.readers, r, inactive);
    }
    if Held(s.readers, inactive) > 0 {
      var r := FindHolder(s.readers, inactive);
      assert HolderIsSafe(s, s.readers[r]);
    }
  }

  lemma {:induction false} LocalIsStable(states: seq<State>, events: seq<Event>, t: nat, u: nat)
    requires IsRun(states, events) && t <= u < |states|
    requires forall k :: t <= k <= u ==> states[k].publisher.Loaded?
    ensures states[u].publisher == states[t].publisher
    decreases u
  {
    if t != u {
      LocalIsStable(states, events, t, u - 1);
      assert states[u - 1 + 1] == Next(states[u - 1], events[u - 1]);
    }
  }

  lemma {:induction false} CheckOutcome(s: State)
    requires WellFormed(s) && s.publisher.Loaded?
    ensures var local := s.publisher.local;
            Refuses(s, Check) <==> ReaderCount(local, InactiveBit(local)) != 0
  {
    hide BitAnd, BitXor, ShiftRight;
  }

  lemma {:induction false} LoadSees(s: State)
    requires Inv(s)
    ensures ReaderCount(s.word, InactiveBit(s.word)) != 0 <==> PreviousIsHeld(s)
  {
    hide BitAnd, BitXor, ShiftRight;
    PreviousMeansInactive(s);
    LowBit(s.word);
    Fields(CountsOf(s), Other(ActiveBit(s.word)));
  }

  /** A publish is refused exactly when the previous version was still held at the moment
      the publisher loaded the word, whatever readers do before its test. */
  lemma {:induction false} RefusedExactlyWhenHeld(states: seq<State>, events: seq<Event>, a: nat, c: nat)
    requires IsRun(states, events) && a < c < |events|
    requires events[a].Load? && events[c] == Check
    requires forall k :: a < k <= c ==> states[k].publisher.Loaded?
    ensures WellFormed(states[a]) && WellFormed(states[c])
    ensures Refuses(states[c], Check) <==> PreviousIsHeld(states[a])
  {
    RunWellFormed(states, events, a);
    RunWellFormed(states, events, c);
    assert states[a + 1] == Next(states[a], events[a]);
    LocalIsStable(states, events, a + 1, c);
    CheckOutcome(states[c]);
    LoadSeesInRun(states, events, a);
  }

  lemma {:induction false} LoadSeesInRun(states: seq<State>, events: seq<Event>, a: nat)
    requires IsRun(states, events) && a < |states|
    ensures WellFormed(states[a])
    ensures ReaderCount(states[a].word, InactiveBit(states[a].word)) != 0 <==> PreviousIsHeld(states[a])
  {
    RunInv(states, events, a);
    LoadSees(states[a]);
  }

  /** The second refusal in the source, after the active bit changed under the publisher,
      is unreachable: the swap step never refuses in any run. */
  lemma {:induction false} ActiveBitNeverChangesUnderThePublisher(states: seq<State>, events: seq<Event>, t: nat)
    requires IsRun(states, events) && t < |events| && events[t].Swap?
    ensures WellFormed(states[t]) && Enabled(states[t], events[t])
    ensures !Refuses(states[t], events[t])
    ensures InactiveBit(states[t].publisher.local) == states[t].publisher.target
  {
    hide BitAnd, BitXor, ShiftRight;
    RunInv(states, events, t);
    SwapInv(states[t], events[t].spurious);
    LowBit(states[t].publisher.local);
  }

  lemma {:induction false} TargetIsInactive(states: seq<State>, events: seq<Event>)
    requires IsRun(states, events) && states[|events|].publisher.Copying?
    ensures InactiveBit(states[|events|].publisher.local) == states[|events|].publisher.target
  {
    hide BitAnd, BitXor, ShiftRight;
    RunInv(states, events, |events|);
    LowBit(states[|events|].publisher.local);
  }

  /** A swap is turned back only by a spurious failure or because a reader moved the word
      since the publisher's last look; otherwise it publishes the whole of its data. */
  lemma {:induction false} SwapPublishes(states: seq<State>, events: seq<Event>, t: nat)
    requires IsRun(states, events) && t < |events| && events[t].Swap?
    requires !events[t].spurious && states[t].publisher.Copying? && states[t].publisher.local == states[t].word
    ensures states[t + 1].publisher == Resting
    ensures states[t + 1].versions == states[t].versions + [states[t].publisher.data]
  {
    ActiveBitNeverChangesUnderThePublisher(states, events, t);
  }

  function Refusals(states: seq<State>, events: seq<Event>, t: nat): nat
    requires t <= |events| < |states|
    requires forall k :: 0 <= k < |events| ==> WellFormed(states[k]) && Enabled(states[k], events[k])
  {
    if t == 0 then 0
    else Refusals(states, events, t - 1) + (if Refuses(states[t - 1], events[t - 1]) then 1 else 0)
  }

  /** The refusal counter counts the refused publishes, modulo 2^32. */
  lemma {:induction false} CounterCountsRefusals(states: seq<State>, events: seq<Event>, t: nat)
    requires IsRun(states, events) && t < |states|
    ensures states[t].rejected == Refusals(states, events, t) % W32
  {
    hide BitAnd, BitXor, ShiftRight;
    if t != 0 {
      CounterCountsRefusals(states, events, t - 1);
      CounterStep(states[t - 1], events[t - 1], Refusals(states, events, t - 1));
    }
  }

  lemma {:induction false} CounterStep(s: State, e: Event, n: nat)
    requires WellFormed(s) && Enabled(s, e) && s.rejected == n % W32
    ensures Next(s, e).rejected == (n + (if Refuses(s, e) then 1 else 0)) % W32
  {
    hide BitAnd, BitXor, ShiftRight;
    WrapIncrement(n);
  }

  // ---- readers turned away ----

  predicate By(e: Event, r: nat) {
    (e.EnterLoad? || e.EnterSwap? || e.Read? || e.Release?) && e.reader == r
  }

  /** Step a is the last at which reader r looked at the word before step t. */
  ghost predicate LastLook(events: seq<Event>, a: nat, t: nat, r: nat) {
    && a < t <= |events| && (events[a].EnterLoad? || events[a].EnterSwap?) && events[a].reader == r
    && forall k :: a < k < t ==> !By(events[k], r)
  }

  lemma {:induction false} OthersLeaveReader(s: State, e: Event, r: nat)
    requires WellFormed(s) && Enabled(s, e) && r < |s.readers| && !By(e, r)
    ensures Next(s, e).readers[r] == s.readers[r]
  {
  }

  /** An entering reader has the word as it was at its last look. */
  lemma {:induction false} FindLook(states: seq<State>, events: seq<Event>, t: nat, r: nat) returns (a: nat)
    requires IsRun(states, events) && t < |states| && r < |states[t].readers| && states[t].readers[r].Entering?
    ensures LastLook(events, a, t, r) && states[t].readers[r] == Entering(states[a].word)
  {
    hide BitAnd, BitXor, ShiftRight;
    if t == 0 {
      assert false;
    } else {
      var s, e := states[t - 1], events[t - 1];
      assert states[t - 1 + 1] == Next(s, e);
      if By(e, r) {
        a := t - 1;
      } else {
        OthersLeaveReader(s, e, r);
        a := FindLook(states, events, t - 1, r);
      }
    }
  }

  /** A reader is turned away if and only if 32767 readers held the active buffer when it last
      looked at the word, however old that look is by now. */
  lemma {:induction false} TurnedAwayExactlyWhenSaturated(states: seq<State>, events: seq<Event>, t: nat)
    returns (a: nat)
    requires IsRun(states, events) && t < |events| && events[t].EnterSwap?
    ensures LastLook(events, a, t, events[t].reader) && events[t].reader < |states[t + 1].readers|
    ensures states[t + 1].readers[events[t].reader].Outside?
            <==> Held(states[a].readers, ActiveBit(states[a].word)) == READER_MASK
  {
    a := FindLook(states, events, t, events[t].reader);
    RunInv(states, events, a);
    Fields(CountsOf(states[a]), ActiveBit(states[a].word));
    EnterSwapTurnsAway(states[t], events[t]);
    assert states[t + 1] == Next(states[t], events[t]);
  }

  lemma {:induction false} EnterSwapTurnsAway(s: State, e: Event)
    requires WellFormed(s) && Enabled(s, e) && e.EnterSwap?
    ensures Next(s, e).readers[e.reader].Outside?
            <==> ReaderCount(s.readers[e.reader].local, ActiveBit(s.readers[e.reader].local)) == READER_MASK
  {
  }
}
