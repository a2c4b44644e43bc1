/** The single-producer/single-consumer ring as a step machine: free-running 32-bit indices,
    a power-of-two capacity and one step per shared access. It covers both rings of the
    repository: the byte ring tests its fill level with `==` and stores a slot at once, the
    command queue tests with `>=` and stores a slot field by field. */
module RingMachine {
  import opened Bits

  datatype Producer<T> =
    | Idle
    | HasWrite(value: T, w: uint32)       // write_index loaded
    | Filling(value: T, w: uint32)        // room found, slot not yet complete
    | Filled(value: T, w: uint32)         // slot complete, index not yet published

  datatype Consumer<T> =
    | Waiting
    | HasRead(r: uint32)                  // read_index loaded
    | Taking(r: uint32)                   // found not empty
    | Taken(r: uint32, value: T)          // slot copied, index not yet published

  /** `accepted` and `popped` list everything that ever went in and came out. */
  datatype State<T> = State(slots: seq<T>, lax: bool, write: uint32, read: uint32, dropped: uint32,
                            producer: Producer<T>, consumer: Consumer<T>,
                            accepted: seq<T>, popped: seq<T>, refused: nat)
  {
    function Capacity(): nat { |slots| }

    /** What a first-in first-out queue would hold. */
    function Contents(): seq<T>
      requires |popped| <= |accepted|
    {
      accepted[|popped|..]
    }
  }

  datatype Event<T> =
    | Push(value: T)         // producer loads write_index
    | TestFull               // loads read_index and compares
    | Scribble(part: T)      // stores part of the slot
    | FillSlot               // the store that completes it
    | Publish                // stores write_index
    | Pop                    // consumer loads read_index
    | TestEmpty              // loads write_index and compares
    | TakeSlot               // copies the slot
    | Advance                // stores read_index

  predicate WellFormed<T>(s: State<T>) {
    s.Capacity() < W32 && IsPowerOfTwo(s.Capacity())
  }

  /** index & (capacity - 1) */
  function Slot<T>(s: State<T>, index: uint32): (i: nat)
    requires WellFormed(s)
    ensures i < |s.slots|
  {
    BitAnd(index, s.Capacity() - 1)
  }

  predicate Full<T>(s: State<T>, w: uint32) {
    if s.lax then Sub32(w, s.read) >= s.Capacity() else Sub32(w, s.read) == s.Capacity()
  }

  predicate Enabled<T>(s: State<T>, e: Event<T>) {
    match e
    case Push(_) => s.producer.Idle?
    case TestFull => s.producer.HasWrite?
    case Scribble(_) => s.producer.Filling?
    case FillSlot => s.producer.Filling?
    case Publish => s.producer.Filled?
    case Pop => s.consumer.Waiting?
    case TestEmpty => s.consumer.HasRead?
    case TakeSlot => s.consumer.Taking?
    case Advance => s.consumer.Taken?
  }

  function Next<T>(s: State<T>, e: Event<T>): (n: State<T>)
    requires WellFormed(s) && Enabled(s, e)
    ensures WellFormed(n)
  {
    var p, c := s.producer, s.consumer;
    match e
    case Push(v) => s.(producer := HasWrite(v, s.write))
    case TestFull =>
      if Full(s, p.w) then s.(producer := Idle, dropped := Add32(s.dropped, 1), refused := s.refused + 1)
      else s.(producer := Filling(p.value, p.w))
    case Scribble(part) => s.(slots := s.slots[Slot(s, p.w) := part])
    case FillSlot =>
      s.(slots := s.slots[Slot(s, p.w) := p.value], producer := Filled(p.value, p.w))
    case Publish =>
      s.(write := Add32(p.w, 1), producer := Idle, accepted := s.accepted + [p.value])
    case Pop => s.(consumer := HasRead(s.read))
    case TestEmpty =>
      if c.r == s.write then s.(consumer := Waiting) else s.(consumer := Taking(c.r))
    case TakeSlot => s.(consumer := Taken(c.r, s.slots[Slot(s, c.r)]))
    case Advance =>
      s.(read := Add32(c.r, 1), consumer := Waiting, popped := s.popped + [c.value])
  }

  function Initial<T>(slots: seq<T>, lax: bool): State<T> {
    State(slots, lax, 0, 0, 0, Idle, Waiting, [], [], 0)
  }

  // ---- the invariant ----

  /** Popped is a prefix of accepted, the indices are the two counts modulo 2^32, and every
      accepted element not yet popped is still in its slot. */
  ghost predicate QueueAgrees<T>(s: State<T>)
    requires WellFormed(s)
  {
    && s.popped <= s.accepted
    && |s.accepted| - |s.popped| <= s.Capacity()
    && s.write == |s.accepted| % W32 && s.read == |s.popped| % W32
    && (forall i :: |s.popped| <= i < |s.accepted| ==> s.slots[i % s.Capacity()] == s.accepted[i])
    && s.dropped == s.refused % W32
  }

  ghost predicate ProducerAgrees<T>(s: State<T>)
    requires WellFormed(s)
  {
    match s.producer
    case Idle => true
    case HasWrite(_, w) => w == s.write
    case Filling(_, w) => w == s.write && |s.accepted| - |s.popped| < s.Capacity()
    case Filled(v, w) =>
      && w == s.write && |s.accepted| - |s.popped| < s.Capacity()
      && s.slots[|s.accepted| % s.Capacity()] == v
  }

  ghost predicate ConsumerAgrees<T>(s: State<T>) {
    match s.consumer
    case Waiting => true
    case HasRead(r) => r == s.read
    case Taking(r) => r == s.read && |s.popped| < |s.accepted|
    case Taken(r, v) => r == s.read && |s.popped| < |s.accepted| && v == s.accepted[|s.popped|]
  }

  ghost predicate Inv<T>(s: State<T>) {
    WellFormed(s) && QueueAgrees(s) && ProducerAgrees(s) && ConsumerAgrees(s)
  }

  lemma {:induction false} InitialInv<T>(slots: seq<T>, lax: bool)
    requires |slots| < W32 && IsPowerOfTwo(|slots|)
    ensures Inv(Initial(slots, lax))
  {
  }

  /** The wrapped difference of the wrapped counts is the true occupancy, however often
      either index has wrapped. */
  lemma {:induction false} Occupancy(a: nat, p: nat, capacity: uint32)
    requires IsPowerOfTwo(capacity) && p <= a <= p + capacity
    ensures Sub32(a % W32, p % W32) == a - p
    ensures a % W32 == p % W32 <==> a == p
  {
    var k, cofactor := CapacityDivides(capacity);
    WrapDifference(a, p);
  }

  /** Two counts less than a capacity apart use different slots. */
  lemma {:induction false} DistinctSlots(i: nat, a: nat, capacity: nat)
    requires i < a < i + capacity
    ensures i % capacity != a % capacity
  {
    if i % capacity == a % capacity {
      var qi, qa := i / capacity, a / capacity;
      assert i == capacity * qi + i % capacity && a == capacity * qa + a % capacity;
      assert capacity * (qa - qi) == a - i;
      MultipleIsFar(capacity, qa - qi);
    }
  }

  /** The slot the source computes from a wrapped index. */
  lemma {:induction false} SlotOf<T>(s: State<T>, n: nat)
    requires WellFormed(s)
    ensures Slot(s, n % W32) == n % s.Capacity()
  {
    WrapKeepsSlot(n, s.Capacity());
  }

  lemma {:induction false} TestFullInv<T>(s: State<T>)
    requires Inv(s) && Enabled(s, TestFull)
    ensures Inv(Next(s, TestFull))
    ensures Full(s, s.producer.w) <==> |s.Contents()| == s.Capacity()
  {
    Occupancy(|s.accepted|, |s.popped|, s.Capacity());
    WrapIncrement(s.refused);
  }

  /** Writing the producer's slot never touches a live one. */
  lemma {:induction false} StoreKeepsLive<T>(s: State<T>, v: T, i: nat)
    requires Inv(s) && s.producer.Filling? && |s.popped| <= i < |s.accepted|
    ensures Slot(s, s.producer.w) == |s.accepted| % s.Capacity() != i % s.Capacity()
    ensures s.slots[Slot(s, s.producer.w) := v][i % s.Capacity()] == s.accepted[i]
  {
    SlotOf(s, |s.accepted|);
    DistinctSlots(i, |s.accepted|, s.Capacity());
  }

  lemma {:induction false} StoreInv<T>(s: State<T>, e: Event<T>)
    requires Inv(s) && Enabled(s, e) && (e.Scribble? || e.FillSlot?)
    ensures Inv(Next(s, e))
  {
    var n := Next(s, e);
    SlotOf(s, |s.accepted|);
    forall i | |s.popped| <= i < |s.accepted|
      ensures n.slots[i % s.Capacity()] == s.accepted[i]
    {
      StoreKeepsLive(s, if e.Scribble? then e.part else s.producer.value, i);
    }
  }

  lemma {:induction false} PublishInv<T>(s: State<T>)
    requires Inv(s) && Enabled(s, Publish)
    ensures Inv(Next(s, Publish))
  {
    WrapIncrement(|s.accepted|);
  }

  lemma {:induction false} TestEmptyInv<T>(s: State<T>)
    requires Inv(s) && Enabled(s, TestEmpty)
    ensures Inv(Next(s, TestEmpty))
    ensures Next(s, TestEmpty).consumer.Taking? <==> s.Contents() != []
  {
    Occupancy(|s.accepted|, |s.popped|, s.Capacity());
  }

  lemma {:induction false} TakeSlotInv<T>(s: State<T>)
    requires Inv(s) && Enabled(s, TakeSlot)
    ensures Inv(Next(s, TakeSlot))
  {
    SlotOf(s, |s.popped|);
  }

  lemma {:induction false} AdvanceInv<T>(s: State<T>)
    requires Inv(s) && Enabled(s, Advance)
    ensures Inv(Next(s, Advance))
  {
    WrapIncrement(|s.popped|);
  }

  lemma {:induction false} NextInv<T>(s: State<T>, e: Event<T>)
    requires Inv(s) && Enabled(s, e)
    ensures Inv(Next(s, e))
  {
    match e
    case Push(_) =>
    case TestFull => TestFullInv(s);
    case Scribble(_) => StoreInv(s, e);
    case FillSlot => StoreInv(s, e);
    case Publish => PublishInv(s);
    case Pop =>
    case TestEmpty => TestEmptyInv(s);
    case TakeSlot => TakeSlotInv(s);
    case Advance => AdvanceInv(s);
  }

  // ---- runs ----

  ghost predicate IsRun<T>(states: seq<State<T>>, events: seq<Event<T>>) {
    && |states| == |events| + 1
    && WellFormed(states[0]) && states[0] == Initial(states[0].slots, states[0].lax)
    && (forall t :: 0 <= t < |events| ==> WellFormed(states[t]) && Enabled(states[t], events[t])
                                          && states[t + 1] == Next(states[t], events[t]))
  }

  /** The ring refines an unbounded first-in first-out queue, in every interleaving and
      across any number of index wraps. */
  lemma {:induction false} RunInv<T>(states: seq<State<T>>, events: seq<Event<T>>, t: nat)
    requires IsRun(states, events) && t < |states|
    ensures Inv(states[t])
  {
    if t == 0 {
      InitialInv(states[0].slots, states[0].lax);
    } else {
      RunInv(states, events, t - 1);
      NextInv(states[t - 1], events[t - 1]);
      assert states[t - 1 + 1] == Next(states[t - 1], events[t - 1]);
    }
  }

  lemma {:induction false} FirstInFirstOut<T>(states: seq<State<T>>, events: seq<Event<T>>, t: nat)
    requires IsRun(states, events) && t < |states|
    ensures states[t].popped <= states[t].accepted
    ensures |states[t].Contents()| <= states[t].Capacity()
    ensures states[t].dropped == states[t].refused % W32
  {
    RunInv(states, events, t);
  }

  /** One step either accepts at the back, pops at the front, or leaves the queue alone; a
      push is refused exactly when the queue is full at the producer's test, and a pop finds
      nothing exactly when it is empty at the consumer's. */
  lemma {:induction false} StepMeansQueueOperation<T>(s: State<T>, e: Event<T>)
    requires Inv(s) && Enabled(s, e)
    ensures Next(s, e).popped <= Next(s, e).accepted
    ensures Next(s, e).Contents() ==
            if e.Publish? then s.Contents() + [s.producer.value]
            else if e.Advance? then s.Contents()[1..]
            else s.Contents()
    ensures e.Advance? ==> s.Contents() != [] && s.consumer.value == s.Contents()[0]
    ensures e.TestFull? ==> (Next(s, e).refused == s.refused + 1 <==> |s.Contents()| == s.Capacity())
    ensures !e.TestFull? ==> Next(s, e).refused == s.refused
    ensures e.TestEmpty? ==> (Next(s, e).consumer.Waiting? <==> s.Contents() == [])
  {
    NextInv(s, e);
    if e.TestFull? { TestFullInv(s); }
    if e.TestEmpty? { TestEmptyInv(s); }
  }

  // ---- whole operations, with nothing in between ----

  /** A complete push; `parts` are what the slot holds before its last store. */
  function Pushed<T>(s: State<T>, v: T, parts: seq<T>): (n: State<T>)
    requires WellFormed(s) && s.producer.Idle?
    ensures WellFormed(n) && n.producer.Idle?
  {
    if Full(s, s.write) then s.(dropped := Add32(s.dropped, 1), refused := s.refused + 1)
    else s.(slots := Scribbled(s, s.write, parts).slots[Slot(s, s.write) := v],
            write := Add32(s.write, 1), accepted := s.accepted + [v])
  }

  function Scribbled<T>(s: State<T>, w: uint32, parts: seq<T>): (n: State<T>)
    requires WellFormed(s)
    ensures |n.slots| == |s.slots| && n == s.(slots := n.slots)
    decreases |parts|
  {
    if parts == [] then s else Scribbled(s.(slots := s.slots[Slot(s, w) := parts[0]]), w, parts[1..])
  }

  /** A complete pop. */
  function Popped<T>(s: State<T>): (n: State<T>)
    requires WellFormed(s) && s.consumer.Waiting?
    ensures WellFormed(n) && n.consumer.Waiting?
  {
    if s.read == s.write then s
    else s.(read := Add32(s.read, 1), popped := s.popped + [s.slots[Slot(s, s.read)]])
  }

  /** Taking the given steps from s ends in t. */
  ghost predicate Leads<T>(s: State<T>, events: seq<Event<T>>, t: State<T>)
    decreases |events|
  {
    if events == [] then s == t
    else WellFormed(s) && Enabled(s, events[0]) && Leads(Next(s, events[0]), events[1..], t)
  }

  lemma {:induction false} LeadsInv<T>(s: State<T>, events: seq<Event<T>>, t: State<T>)
    requires Inv(s) && Leads(s, events, t)
    ensures Inv(t)
    decreases |events|
  {
    if events != [] {
      var n := Next(s, events[0]);
      NextInv(s, events[0]);
      LeadsInv(n, events[1..], t);
    }
  }

  lemma {:induction false} LeadsFirst<T>(s: State<T>, e: Event<T>, events: seq<Event<T>>, t: State<T>)
    requires WellFormed(s) && Enabled(s, e) && Leads(Next(s, e), events, t)
    ensures Leads(s, [e] + events, t)
  {
    assert ([e] + events)[1..] == events;
  }

  lemma {:induction false} LeadsOne<T>(s: State<T>, e: Event<T>)
    requires WellFormed(s) && Enabled(s, e)
    ensures Leads(s, [e], Next(s, e))
  {
    assert [e][1..] == [];
  }

  function ScribbleEvents<T>(parts: seq<T>): seq<Event<T>> {
    seq(|parts|, i requires 0 <= i < |parts| => Scribble(parts[i]))
  }

  lemma {:induction false} ScribbleSteps<T>(s: State<T>, parts: seq<T>, events: seq<Event<T>>, t: State<T>)
    requires WellFormed(s) && s.producer.Filling?
    requires Leads(Scribbled(s, s.producer.w, parts), events, t)
    ensures Leads(s, ScribbleEvents(parts) + events, t)
    decreases |parts|
  {
    if parts == [] {
      assert ScribbleEvents(parts) + events == events;
    } else {
      var n := Next(s, Scribble(parts[0]));
      ScribbleSteps(n, parts[1..], events, t);
      assert ScribbleEvents(parts) + events == [Scribble(parts[0])] + (ScribbleEvents(parts[1..]) + events);
      LeadsFirst(s, Scribble(parts[0]), ScribbleEvents(parts[1..]) + events, t);
    }
  }

  function PushEvents<T>(s: State<T>, v: T, parts: seq<T>): seq<Event<T>>
    requires WellFormed(s)
  {
    if Full(s, s.write) then [Push(v)] + [TestFull]
    else [Push(v)] + ([TestFull] + (ScribbleEvents(parts) + ([FillSlot] + [Publish])))
  }

  /** The complete operations are what their steps come to. */
  lemma {:induction false} PushIsItsSteps<T>(s: State<T>, v: T, parts: seq<T>)
    requires WellFormed(s) && s.producer.Idle?
    ensures Leads(s, PushEvents(s, v, parts), Pushed(s, v, parts))
  {
    var n := Pushed(s, v, parts);
    var asked := Next(s, Push(v));
    var tested := Next(asked, TestFull);
    if Full(s, s.write) {
      LeadsOne(asked, TestFull);
      LeadsFirst(s, Push(v), [TestFull], n);
    } else {
      ScribbledSame(s, tested, s.write, parts);
      var ready := Scribbled(tested, s.write, parts);
      var full := Next(ready, FillSlot);
      LeadsOne(full, Publish);
      LeadsFirst(ready, FillSlot, [Publish], n);
      ScribbleSteps(tested, parts, [FillSlot] + [Publish], n);
      LeadsFirst(asked, TestFull, ScribbleEvents(parts) + ([FillSlot] + [Publish]), n);
      LeadsFirst(s, Push(v), [TestFull] + (ScribbleEvents(parts) + ([FillSlot] + [Publish])), n);
    }
  }

  /** A push without partial stores, step by step. */
  lemma {:induction false} PushedInSteps<T>(s: State<T>, v: T)
    requires WellFormed(s) && s.producer.Idle?
    ensures var tested := Next(Next(s, Push(v)), TestFull);
            if Full(s, s.write) then Pushed(s, v, []) == tested
            else tested.producer.Filling? && Pushed(s, v, []) == Next(Next(tested, FillSlot), Publish)
  {
  }

  lemma {:induction false} ScribbledSame<T>(s: State<T>, t: State<T>, w: uint32, parts: seq<T>)
    requires WellFormed(s) && t == s.(producer := t.producer)
    ensures Scribbled(t, w, parts).slots == Scribbled(s, w, parts).slots
    decreases |parts|
  {
    if parts != [] {
      var slots := s.slots[Slot(s, w) := parts[0]];
      ScribbledSame(s.(slots := slots), t.(slots := slots), w, parts[1..]);
    }
  }

  function PopEvents<T>(s: State<T>): seq<Event<T>> {
    if s.read == s.write then [Pop] + [TestEmpty] else [Pop] + ([TestEmpty] + ([TakeSlot] + [Advance]))
  }

  lemma {:induction false} PopIsItsSteps<T>(s: State<T>)
    requires WellFormed(s) && s.consumer.Waiting?
    ensures Leads(s, PopEvents(s), Popped(s))
  {
    var n := Popped(s);
    var asked := Next(s, Pop);
    var tested := Next(asked, TestEmpty);
    if s.read == s.write {
      LeadsOne(asked, TestEmpty);
      LeadsFirst(s, Pop, [TestEmpty], n);
    } else {
      var taken := Next(tested, TakeSlot);
      LeadsOne(taken, Advance);
      LeadsFirst(tested, TakeSlot, [Advance], n);
      LeadsFirst(asked, TestEmpty, [TakeSlot] + [Advance], n);
      LeadsFirst(s, Pop, [TestEmpty] + ([TakeSlot] + [Advance]), n);
    }
  }

  lemma {:induction false} PushedMeans<T>(s: State<T>, v: T, parts: seq<T>)
    requires Inv(s) && s.producer.Idle?
    ensures Inv(Pushed(s, v, parts))
    ensures Full(s, s.write) <==> |s.Contents()| == s.Capacity()
    ensures Pushed(s, v, parts).Contents()
         == if |s.Contents()| == s.Capacity() then s.Contents() else s.Contents() + [v]
  {
    PushIsItsSteps(s, v, parts);
    LeadsInv(s, PushEvents(s, v, parts), Pushed(s, v, parts));
    Occupancy(|s.accepted|, |s.popped|, s.Capacity());
  }

  /** What the consumer sees when it looks. */
  lemma {:induction false} FrontSlot<T>(s: State<T>)
    requires Inv(s)
    ensures s.read == s.write <==> s.Contents() == []
    ensures s.Contents() != [] ==> s.slots[Slot(s, s.read)] == s.Contents()[0]
  {
    Occupancy(|s.accepted|, |s.popped|, s.Capacity());
    SlotOf(s, |s.popped|);
  }

  lemma {:induction false} PoppedMeans<T>(s: State<T>)
    requires Inv(s) && s.consumer.Waiting?
    ensures Inv(Popped(s))
    ensures Popped(s).Contents() == if s.Contents() == [] then [] else s.Contents()[1..]
  {
    PopIsItsSteps(s);
    LeadsInv(s, PopEvents(s), Popped(s));
    FrontSlot(s);
  }
}
