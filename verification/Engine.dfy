/** The transaction engine of `hal_i2c_target_engine` over the register map, with the main
    loop publishing step by step between its calls, and the proof that together they are the
    paged EEPROM of module Eeprom. */
module Engine {
  import opened Bits
  import opened Options
  import opened SnapshotWord
  import opened R = RegisterMap
  import M = SnapshotMachine
  import E = Eeprom

  datatype Direction = AtRest | Receiving | Transmitting

  datatype Engine = Engine(registers: Map, pending: uint16, count: nat, direction: Direction)

  ghost predicate Inv(e: Engine) {
    && R.Inv(e.registers)
    && e.count <= 2
    && (e.direction != Receiving ==> e.count == 0)
    && (e.count == 0 ==> e.pending == 0)
    && (e.count == 1 ==> e.pending % 256 == 0)
    && (e.direction != Transmitting ==> e.registers.latch == Unlatched)
  }

  function Initial(registers: Map): Engine { Engine(registers, 0, 0, AtRest) }

  // ---- the operations ----

  function BeginReceive(e: Engine): Engine
    requires Inv(e)
  {
    Engine(EndRead(e.registers), 0, 0, Receiving)
  }

  function BeginTransmit(e: Engine): Engine
    requires Inv(e)
  {
    Engine(EndRead(e.registers), 0, 0, Transmitting)
  }

  function End(e: Engine): Engine
    requires Inv(e)
  {
    Engine(EndRead(e.registers), 0, 0, AtRest)
  }

  /** (uint16_t)((uint16_t)value << 8) */
  function HighByte(value: byte): uint16 { ShiftLeft32(value, 8) % W16 }

  /** pending | value */
  function WithLowByte(pending: uint16, value: byte): uint16
    requires pending % 256 == 0
  {
    OrLowByte(pending, value);
    BitOr(pending, value)
  }

  lemma {:induction false} OrLowByte(pending: uint16, value: byte)
    requires pending % 256 == 0
    ensures BitOr(pending, value) == pending + value < W16
  {
    assert Pow2(8) == 256;
    assert 256 * (pending / 256) == pending;
    OrDisjoint(value, pending / 256, 8);
  }

  lemma {:induction false} ByteMoves(value: byte)
    ensures HighByte(value) == 256 * value
  {
    assert Pow2(8) == 256;
  }

  /** The engine's answer is whether it was receiving at all. */
  function Receive(e: Engine, value: byte): Engine
    requires Inv(e)
  {
    if e.direction != Receiving then e
    else if e.count == 0 then e.(pending := HighByte(value), count := 1)
    else if e.count == 1 then
      var pending := WithLowByte(e.pending, value);
      e.(pending := pending, count := 2, registers := SetAddress(e.registers, pending))
    else e.(registers := WriteCurrent(e.registers, value))
  }

  datatype Sent = Sent(engine: Engine, value: byte)

  function Transmit(e: Engine): Sent
    requires Inv(e)
  {
    if e.direction != Transmitting then Sent(e, UNMAPPED_VALUE)
    else
      var r := ReadCurrent(e.registers);
      Sent(e.(registers := r.after), r.value)
  }

  // ---- the bus and the main loop together ----

  datatype Event =
    | BeginsReceive | BeginsTransmit | Receives(value: byte) | Transmits | Ends
    | Main(snapshot: nat, step: M.Event)      // one step of a publish

  predicate IsPublisherStep(e: M.Event) { e.Load? || e.Check? || e.Store? || e.Swap? }

  ghost predicate Allowed(e: Engine, ev: Event)
    requires Inv(e)
  {
    ev.Main? ==>
      && ev.snapshot < |e.registers.snapshots| && IsPublisherStep(ev.step)
      && M.Enabled(e.registers.snapshots[ev.snapshot], ev.step)
  }

  function Next(e: Engine, ev: Event): Engine
    requires Inv(e) && Allowed(e, ev)
  {
    match ev
    case BeginsReceive => BeginReceive(e)
    case BeginsTransmit => BeginTransmit(e)
    case Receives(value) => Receive(e, value)
    case Transmits => Transmit(e).engine
    case Ends => End(e)
    case Main(s, step) =>
      e.(registers := Replace(e.registers, s, M.Next(e.registers.snapshots[s], step)))
  }

  function Output(e: Engine, ev: Event): Option<byte>
    requires Inv(e)
  {
    if ev.Transmits? then Some(Transmit(e).value) else None
  }

  // ---- what the engine stands for ----

  function CurrentVersion(s: M.State): Bytes
    requires s.versions != []
  {
    s.versions[|s.versions| - 1]
  }

  function Contents(snapshots: seq<M.State>): seq<Bytes>
    requires forall s :: 0 <= s < |snapshots| ==> snapshots[s].versions != []
  {
    seq(|snapshots|, s requires 0 <= s < |snapshots| => CurrentVersion(snapshots[s]))
  }

  /** The bytes the latch protects. */
  function ViewOf(m: Map): E.View
    requires R.Inv(m)
  {
    if m.latch.Unlatched? then E.NoView
    else
      var s := m.snapshots[SnapshotOf(m, m.latch.page)];
      assert M.HolderIsSafe(s, s.readers[0]);
      E.View(m.latch.page, s.versions[s.readers[0].version])
  }

  function ModeOf(e: Engine): E.Mode
    requires Inv(e)
  {
    match e.direction
    case AtRest => E.Idle
    case Transmitting => E.Reading
    case Receiving =>
      E.Writing(if e.count == 0 then []
                else if e.count == 1 then [e.pending / 256]
                else [e.pending / 256, e.pending % 256])
  }

  function Abs(e: Engine): E.State
    requires Inv(e)
  {
    E.State(e.registers.pages, Contents(e.registers.snapshots), e.registers.address,
            ModeOf(e), ViewOf(e.registers), e.registers.offers)
  }

  /** What an event means to the EEPROM: a publish happens at the swap that succeeds. */
  function Meaning(e: Engine, ev: Event): E.Event
    requires Inv(e) && Allowed(e, ev)
  {
    match ev
    case BeginsReceive => E.StartWrite
    case BeginsTransmit => E.StartRead
    case Receives(value) => E.Put(value)
    case Transmits => E.Get
    case Ends => E.Stop
    case Main(s, step) =>
      var before := e.registers.snapshots[s];
      if M.Next(before, step).versions != before.versions then E.Publish(s, before.publisher.data) else E.Nothing
  }

  // ---- the simulation ----

  lemma {:induction false} SameContents(m: Map, n: Map)
    requires R.Inv(m) && AllSameVersions(m, n)
    ensures forall s :: 0 <= s < |n.snapshots| ==> n.snapshots[s].versions != []
    ensures Contents(n.snapshots) == Contents(m.snapshots)
  {
    forall s | 0 <= s < |n.snapshots|
      ensures n.snapshots[s].versions == m.snapshots[s].versions
    {
      assert SameVersions(m.snapshots[s], n.snapshots[s]);
    }
  }

  lemma {:induction false} AbsShaped(e: Engine)
    requires Inv(e)
    ensures E.Shaped(Abs(e))
  {
    var a := Abs(e);
    forall i | 0 <= i < |a.pages|
      ensures E.Fits(a.pages[i], a.contents)
    {
      assert PageOk(e.registers.pages[i], e.registers.snapshots);
    }
    if e.registers.latch.Latched? {
      assert PageOk(e.registers.pages[e.registers.latch.page], e.registers.snapshots);
    }
  }

  lemma {:induction false} EndReadSimulated(m: Map)
    requires R.Inv(m)
    ensures R.Inv(EndRead(m)) && EndRead(m) == m.(snapshots := EndRead(m).snapshots, latch := Unlatched)
    ensures Contents(EndRead(m).snapshots) == Contents(m.snapshots)
    ensures ViewOf(EndRead(m)) == E.NoView
  {
    EndReadInv(m);
    SameContents(m, EndRead(m));
  }

  lemma {:induction false} BeginOrEndSimulated(e: Engine, ev: Event)
    requires Inv(e) && (ev.BeginsReceive? || ev.BeginsTransmit? || ev.Ends?)
    ensures Inv(Next(e, ev)) && E.Shaped(Abs(e))
    ensures Abs(Next(e, ev)) == E.Next(Abs(e), Meaning(e, ev))
  {
    EndReadSimulated(e.registers);
    AbsShaped(e);
  }

  /** Moving the pointer or logging an offer touches no snapshot. */
  lemma {:induction false} PointerOnly(m: Map, n: Map)
    requires R.Inv(m) && n == m.(address := n.address, offers := n.offers)
    ensures R.Inv(n) && ViewOf(n) == ViewOf(m)
  {
  }

  lemma {:induction false} AddressBytes(pending: uint16, value: byte)
    requires pending % 256 == 0
    ensures WithLowByte(pending, value) == E.AddressOf(pending / 256, value)
    ensures WithLowByte(pending, value) / 256 == pending / 256 && WithLowByte(pending, value) % 256 == value
  {
    OrLowByte(pending, value);
  }

  lemma {:induction false} WriteSimulated(m: Map, value: byte)
    requires R.Inv(m)
    ensures var n := WriteCurrent(m, value);
            && R.Inv(n) && ViewOf(n) == E.NoView && n.latch == Unlatched
            && n.pages == m.pages && Contents(n.snapshots) == Contents(m.snapshots)
            && n.address == E.Step(m.address)
            && n.offers == m.offers + E.OfferFor(m.pages, m.address, value)
  {
    EndReadSimulated(m);
    FindPageMeans(m, m.address);
    PointerOnly(EndRead(m), WriteCurrent(m, value));
  }

  lemma {:induction false} SetAddressSimulated(m: Map, address: uint16)
    requires R.Inv(m)
    ensures var n := SetAddress(m, address);
            && R.Inv(n) && ViewOf(n) == E.NoView && n.latch == Unlatched
            && n.pages == m.pages && Contents(n.snapshots) == Contents(m.snapshots)
            && n.address == address && n.offers == m.offers
  {
    EndReadSimulated(m);
    PointerOnly(EndRead(m), SetAddress(m, address));
  }

  lemma {:induction false} FirstByteSimulated(e: Engine, value: byte)
    requires Inv(e) && E.Shaped(Abs(e)) && e.direction == Receiving && e.count == 0
    ensures Inv(Receive(e, value)) && Abs(Receive(e, value)) == E.Next(Abs(e), E.Put(value))
  {
    ByteMoves(value);
  }

  lemma {:induction false} SecondByteSimulated(e: Engine, value: byte)
    requires Inv(e) && E.Shaped(Abs(e)) && e.direction == Receiving && e.count == 1
    ensures Inv(Receive(e, value)) && Abs(Receive(e, value)) == E.Next(Abs(e), E.Put(value))
  {
    AddressBytes(e.pending, value);
    SetAddressSimulated(e.registers, WithLowByte(e.pending, value));
    assert ModeOf(e).got + [value] == ModeOf(Receive(e, value)).got;
  }

  lemma {:induction false} DataByteSimulated(e: Engine, value: byte)
    requires Inv(e) && E.Shaped(Abs(e)) && e.direction == Receiving && e.count == 2
    ensures Inv(Receive(e, value)) && Abs(Receive(e, value)) == E.Next(Abs(e), E.Put(value))
  {
    WriteSimulated(e.registers, value);
  }

  lemma {:induction false} ReceiveSimulated(e: Engine, value: byte)
    requires Inv(e)
    ensures Inv(Receive(e, value)) && E.Shaped(Abs(e))
    ensures Abs(Receive(e, value)) == E.Next(Abs(e), E.Put(value))
  {
    AbsShaped(e);
    if e.direction == Receiving {
      if e.count == 0 {
        FirstByteSimulated(e, value);
      } else if e.count == 1 {
        SecondByteSimulated(e, value);
      } else {
        DataByteSimulated(e, value);
      }
    }
  }

  /** Latching for a read at the current address gives the view the EEPROM uses. */
  lemma {:induction false} RelatchSimulated(m: Map, a: E.State)
    requires R.Inv(m) && E.Shaped(a)
    requires a.pages == m.pages && a.address == m.address
    requires a.contents == Contents(m.snapshots) && a.view == ViewOf(m)
    ensures R.Inv(Relatch(m)) && Contents(Relatch(m).snapshots) == a.contents
    ensures ViewOf(Relatch(m)) == E.ViewFor(a)
  {
    hide BitAnd, BitXor, ShiftRight;
    RelatchInv(m);
    SameContents(m, Relatch(m));
    FindPageMeans(m, m.address);
    var page := FindPage(m.pages, m.address);
    if page != (if m.latch.Latched? then Some(m.latch.page) else None) {
      EndReadInv(m);
      SameContents(m, EndRead(m));
      if page.Some? {
        AcquireInv(EndRead(m), page.value);
        var s := SnapshotOf(m, page.value);
        assert PageOk(m.pages[page.value], m.snapshots);
        assert SameVersions(m.snapshots[s], EndRead(m).snapshots[s]);
        assert ViewOf(Relatch(m)) == E.View(page.value, CurrentVersion(m.snapshots[s]));
      }
    }
  }

  /** The byte in the latched buffer is the byte of the latched version. */
  lemma {:induction false} LatchedByte(m: Map, offset: nat)
    requires R.Inv(m) && m.latch.Latched? && offset < m.pages[m.latch.page].length
    ensures ViewOf(m).View? && offset < |ViewOf(m).bytes|
    ensures SnapshotOf(m, m.latch.page) < |m.snapshots|
    ensures var s := m.snapshots[SnapshotOf(m, m.latch.page)];
            offset < |s.buffers[m.latch.buffer]| && s.buffers[m.latch.buffer][offset] == ViewOf(m).bytes[offset]
  {
    assert PageOk(m.pages[m.latch.page], m.snapshots);
    var s := m.snapshots[SnapshotOf(m, m.latch.page)];
    assert M.HolderIsSafe(s, s.readers[0]);
  }

  /** A read is a latching and an increment, and delivers the latched byte. */
  lemma {:induction false} ReadParts(m: Map)
    requires R.Inv(m)
    ensures R.Inv(Relatch(m)) && ReadCurrent(m).after == Relatch(m).(address := Add16(m.address, 1))
    ensures Relatch(m).pages == m.pages && Relatch(m).offers == m.offers && Relatch(m).address == m.address
    ensures var v := ViewOf(Relatch(m));
            if v.NoView? then ReadCurrent(m).value == UNMAPPED_VALUE
            else && v.page < |m.pages| && 0 <= m.address - m.pages[v.page].first < |v.bytes|
                 && ReadCurrent(m).value == v.bytes[m.address - m.pages[v.page].first]
  {
    RelatchInv(m);
    var n := Relatch(m);
    if n.latch.Latched? {
      LatchedByte(n, m.address - n.pages[n.latch.page].first);
    }
  }

  lemma {:induction false} ReadSimulated(m: Map, a: E.State)
    requires R.Inv(m) && E.Shaped(a) && a.mode == E.Reading
    requires a.pages == m.pages && a.address == m.address
    requires a.contents == Contents(m.snapshots) && a.view == ViewOf(m)
    ensures var r := ReadCurrent(m);
            && R.Inv(r.after) && ViewOf(r.after) == E.ViewFor(a)
            && r.after.pages == m.pages && Contents(r.after.snapshots) == a.contents
            && r.after.address == E.Step(m.address) && r.after.offers == m.offers
            && Some(r.value) == E.Output(a, E.Get)
  {
    hide ReadCurrent, Relatch, BitAnd, BitXor, ShiftRight;
    ReadParts(m);
    RelatchSimulated(m, a);
    PointerOnly(Relatch(m), ReadCurrent(m).after);
  }

  lemma {:induction false} TransmitSimulated(e: Engine)
    requires Inv(e)
    ensures Inv(Transmit(e).engine) && E.Shaped(Abs(e))
    ensures Abs(Transmit(e).engine) == E.Next(Abs(e), E.Get)
    ensures Some(Transmit(e).value) == E.Output(Abs(e), E.Get)
  {
    AbsShaped(e);
    if e.direction == Transmitting {
      ReadSimulated(e.registers, Abs(e));
    }
  }

  /** A step of a publish on one snapshot. */
  lemma {:induction false} PublisherStep(s: M.State, step: M.Event)
    requires M.Inv(s) && M.Enabled(s, step) && IsPublisherStep(step)
    ensures var n := M.Next(s, step);
            && M.Inv(n) && n.readers == s.readers && s.versions <= n.versions
            && (n.versions != s.versions ==> s.publisher.Copying? && n.versions == s.versions + [s.publisher.data])
  {
    hide BitAnd, BitXor, ShiftRight;
    M.NextInv(s, step);
  }

  lemma {:induction false} MainKeepsMap(m: Map, s: nat, state: M.State)
    requires R.Inv(m) && s < |m.snapshots| && M.Inv(state) && state.readers == m.snapshots[s].readers
    requires |state.buffers[0]| == |m.snapshots[s].buffers[0]| && m.snapshots[s].versions <= state.versions
    ensures R.Inv(Replace(m, s, state))
    ensures ViewOf(Replace(m, s, state)) == ViewOf(m)
    ensures Contents(Replace(m, s, state).snapshots) == Contents(m.snapshots)[s := CurrentVersion(state)]
  {
    hide BitAnd, BitXor, ShiftRight;
    ReplaceKeeps(m, s, state);
    var n := Replace(m, s, state);
    if m.latch.Latched? && SnapshotOf(m, m.latch.page) == s {
      assert M.HolderIsSafe(m.snapshots[s], m.snapshots[s].readers[0]);
    }
  }

  lemma {:induction false} MainKeeps(e: Engine, s: nat, step: M.Event)
    requires Inv(e) && Allowed(e, Main(s, step))
    ensures Inv(Next(e, Main(s, step)))
    ensures E.Shaped(Abs(e)) && E.Allowed(Abs(e), Meaning(e, Main(s, step)))
  {
    hide BitAnd, BitXor, ShiftRight;
    AbsShaped(e);
    PublisherStep(e.registers.snapshots[s], step);
    MainKeepsMap(e.registers, s, M.Next(e.registers.snapshots[s], step));
  }

  lemma {:induction false} MainSimulated(e: Engine, s: nat, step: M.Event)
    requires Inv(e) && Allowed(e, Main(s, step))
    ensures Inv(Next(e, Main(s, step))) && E.Shaped(Abs(e)) && E.Allowed(Abs(e), Meaning(e, Main(s, step)))
    ensures Abs(Next(e, Main(s, step))) == E.Next(Abs(e), Meaning(e, Main(s, step)))
  {
    hide M.Next, BitAnd, BitXor, ShiftRight;
    MainKeeps(e, s, step);
    var m := e.registers;
    var before, after := m.snapshots[s], M.Next(m.snapshots[s], step);
    PublisherStep(before, step);
    MainKeepsMap(m, s, after);
    SameOrPublished(Contents(m.snapshots), s, before, after);
  }

  lemma {:induction false} SameOrPublished(contents: seq<Bytes>, s: nat, before: M.State, after: M.State)
    requires s < |contents| && before.versions != [] && contents[s] == CurrentVersion(before)
    requires after.versions != []
    requires after.versions != before.versions ==>
               before.publisher.Copying? && after.versions == before.versions + [before.publisher.data]
    ensures contents[s := CurrentVersion(after)]
         == if after.versions == before.versions then contents else contents[s := before.publisher.data]
  {
  }

  /** Every step of the engine and of the main loop is the step of the EEPROM it means, with
      the same byte on the bus. */
  lemma {:induction false} Simulation(e: Engine, ev: Event)
    requires Inv(e) && Allowed(e, ev)
    ensures Inv(Next(e, ev))
    ensures E.Shaped(Abs(e)) && E.Allowed(Abs(e), Meaning(e, ev))
    ensures Abs(Next(e, ev)) == E.Next(Abs(e), Meaning(e, ev))
    ensures Output(e, ev) == E.Output(Abs(e), Meaning(e, ev))
  {
    AbsShaped(e);
    match ev
    case BeginsReceive => BeginOrEndSimulated(e, ev);
    case BeginsTransmit => BeginOrEndSimulated(e, ev);
    case Receives(value) => ReceiveSimulated(e, value);
    case Transmits => TransmitSimulated(e);
    case Ends => BeginOrEndSimulated(e, ev);
    case Main(s, step) => MainSimulated(e, s, step);
  }

  // ---- runs ----

  ghost predicate IsRun(states: seq<Engine>, events: seq<Event>) {
    && |states| == |events| + 1
    && Inv(states[0]) && states[0] == Initial(states[0].registers)
    && forall t :: 0 <= t < |events| ==>
         Inv(states[t]) && Allowed(states[t], events[t]) && states[t + 1] == Next(states[t], events[t])
  }

  lemma {:induction false} RunInv(states: seq<Engine>, events: seq<Event>, t: nat)
    requires IsRun(states, events) && t < |states|
    ensures Inv(states[t])
  {
    if t != 0 {
      Simulation(states[t - 1], events[t - 1]);
      assert states[t - 1 + 1] == Next(states[t - 1], events[t - 1]);
    }
  }

  /** The EEPROM states and events that a run of the engine stands for, with the same bytes
      on the bus. */
  ghost predicate StandsFor(states: seq<Engine>, events: seq<Event>, a: seq<E.State>, ms: seq<E.Event>) {
    && |a| == |states| == |events| + 1 && |ms| == |events|
    && (forall t :: 0 <= t < |states| ==> Inv(states[t]) && a[t] == Abs(states[t]))
    && (forall t :: 0 <= t < |events| ==> MeansTheSame(states[t], events[t], a[t], ms[t]))
  }

  ghost predicate MeansTheSame(e: Engine, ev: Event, a: E.State, m: E.Event) {
    && Inv(e) && Allowed(e, ev) && m == Meaning(e, ev)
    && E.Shaped(a) && Output(e, ev) == E.Output(a, m)
  }

  /** Refinement. Every run of the engine, with publishes interleaved store by store, is a run
      of the EEPROM with whole publishes, and puts the same bytes on the bus. What module
      Eeprom proves about transactions therefore holds of the engine. */
  lemma {:induction false} EngineRefinesEeprom(states: seq<Engine>, events: seq<Event>)
    returns (a: seq<E.State>, ms: seq<E.Event>)
    requires IsRun(states, events)
    ensures E.IsRun(a, ms) && StandsFor(states, events, a, ms)
  {
    forall t | 0 <= t < |states|
      ensures Inv(states[t])
    {
      RunInv(states, events, t);
    }
    a := seq(|states|, t requires 0 <= t < |states| => Abs(states[t]));
    ms := seq(|events|, t requires 0 <= t < |events| => Meaning(states[t], events[t]));
    AbsShaped(states[0]);
    forall t | 0 <= t < |events|
      ensures MeansTheSame(states[t], events[t], a[t], ms[t])
      ensures E.Shaped(a[t]) && E.Allowed(a[t], ms[t]) && a[t + 1] == E.Next(a[t], ms[t])
    {
      Simulation(states[t], events[t]);
      assert a[t + 1] == Abs(states[t + 1]);
    }
  }

  /** Latch accounting over every run: all words together count one reader exactly while a
      page is latched, which is only during a read; a START, STOP or abort leaves none. */
  lemma {:induction false} NothingHeldOutsideReads(states: seq<Engine>, events: seq<Event>, t: nat)
    requires IsRun(states, events) && t < |states|
    ensures TotalHeld(states[t].registers.snapshots) == if states[t].registers.latch.Latched? then 1 else 0
    ensures states[t].direction != Transmitting ==> TotalHeld(states[t].registers.snapshots) == 0
    ensures (t > 0 && !events[t - 1].Receives? && !events[t - 1].Transmits? && !events[t - 1].Main?) ==>
              TotalHeld(states[t].registers.snapshots) == 0
  {
    RunInv(states, events, t);
    LatchAccounting(states[t].registers);
    if t > 0 && !events[t - 1].Receives? && !events[t - 1].Transmits? && !events[t - 1].Main? {
      RunInv(states, events, t - 1);
      EndReadInv(states[t - 1].registers);
      assert states[t - 1 + 1] == Next(states[t - 1], events[t - 1]);
    }
  }

  ghost predicate PointsInto(m: Map, page: nat) {
    page < |m.pages| && m.pages[page].first <= m.address < m.pages[page].first + m.pages[page].length
  }

  lemma {:induction false} VisitMeaning(e: Engine, ev: Event, page: nat)
    requires Inv(e) && Allowed(e, ev) && (ev.Transmits? || ev.Main?) && PointsInto(e.registers, page)
    ensures Meaning(e, ev).Get? || Meaning(e, ev).Publish? || Meaning(e, ev).Nothing?
    ensures E.OnPage(Abs(e), page)
  {
  }

  /** On the wire: the bytes of one visit to a page, however the main loop publishes between
      them, are the bytes of the version that was current when the visit began. */
  lemma {:induction false} VisitReadsOneVersion(states: seq<Engine>, events: seq<Event>, page: nat, i: nat, j: nat)
    requires IsRun(states, events) && i <= j < |events|
    requires states[i].direction == Transmitting && events[i] == Transmits && events[j] == Transmits
    requires forall k :: i <= k < j ==> events[k].Transmits? || events[k].Main?
    requires forall k :: i <= k <= j ==> PointsInto(states[k].registers, page)
    requires !(states[i].registers.latch.Latched? && states[i].registers.latch.page == page)
    ensures Inv(states[i]) && Inv(states[j])
    ensures VisitByte(states[i].registers, page, states[j].registers.address) == Output(states[j], events[j])
  {
    var a, ms := EngineRefinesEeprom(states, events);
    VisitOnPage(states, events, a, ms, page, i, j);
    GetMeansGet(states, events, a, ms, i);
    GetMeansGet(states, events, a, ms, j);
    VisitTransfer(a, ms, states[i], states[j], page, i, j);
  }

  lemma {:induction false} VisitOnPage(
      states: seq<Engine>, events: seq<Event>, a: seq<E.State>, ms: seq<E.Event>, page: nat, i: nat, j: nat)
    requires StandsFor(states, events, a, ms) && i <= j < |events| && events[j] == Transmits
    requires forall k :: i <= k < j ==> events[k].Transmits? || events[k].Main?
    requires forall k :: i <= k <= j ==> PointsInto(states[k].registers, page)
    ensures forall k :: i <= k <= j ==> E.OnPage(a[k], page) && E.ReadsOn(ms[k])
  {
    forall k | i <= k <= j
      ensures E.OnPage(a[k], page) && E.ReadsOn(ms[k])
    {
      VisitStep(states, events, a, ms, page, k);
    }
  }

  lemma {:induction false} GetMeansGet(states: seq<Engine>, events: seq<Event>, a: seq<E.State>,
                                       ms: seq<E.Event>, k: nat)
    requires StandsFor(states, events, a, ms) && k < |events| && events[k] == Transmits
    ensures Inv(states[k]) && a[k] == Abs(states[k]) && ms[k] == E.Get
    ensures E.Shaped(a[k]) && Output(states[k], events[k]) == E.Output(a[k], E.Get)
  {
    assert MeansTheSame(states[k], events[k], a[k], ms[k]);
  }

  lemma {:induction false} VisitStep(
      states: seq<Engine>, events: seq<Event>, a: seq<E.State>, ms: seq<E.Event>, page: nat, k: nat)
    requires StandsFor(states, events, a, ms) && k < |events|
    requires (events[k].Transmits? || events[k].Main?) && PointsInto(states[k].registers, page)
    ensures E.OnPage(a[k], page) && E.ReadsOn(ms[k])
  {
    assert MeansTheSame(states[k], events[k], a[k], ms[k]);
    VisitMeaning(states[k], events[k], page);
  }

  lemma {:induction false} VisitTransfer(
      a: seq<E.State>, ms: seq<E.Event>, from: Engine, to: Engine, page: nat, i: nat, j: nat)
    requires E.IsRun(a, ms) && i <= j < |ms| && ms[i] == E.Get && ms[j] == E.Get
    requires Inv(from) && Inv(to) && a[i] == Abs(from) && a[j] == Abs(to) && from.direction == Transmitting
    requires forall k :: i <= k <= j ==> E.OnPage(a[k], page) && E.ReadsOn(ms[k])
    requires !(from.registers.latch.Latched? && from.registers.latch.page == page)
    ensures E.Shaped(Abs(to))
    ensures VisitByte(from.registers, page, to.registers.address) == E.Output(Abs(to), E.Get)
  {
    VisitStarts(from, page);
    E.OneVersionPerVisit(a, ms, page, i, j);
  }

  /** The byte at an address of what a page shows in state m. */
  function VisitByte(m: Map, page: nat, address: uint16): Option<byte>
    requires R.Inv(m)
  {
    if page >= |m.pages| then None
    else
      assert PageOk(m.pages[page], m.snapshots);
      var v := CurrentVersion(m.snapshots[SnapshotOf(m, page)]);
      if m.pages[page].first <= address < m.pages[page].first + |v| then Some(v[address - m.pages[page].first])
      else None
  }

  lemma {:induction false} VisitStarts(e: Engine, page: nat)
    requires Inv(e) && page < |e.registers.pages|
    ensures SnapshotOf(e.registers, page) < |e.registers.snapshots|
    ensures Abs(e).contents[SnapshotOf(e.registers, page)]
         == CurrentVersion(e.registers.snapshots[SnapshotOf(e.registers, page)])
  {
    assert PageOk(e.registers.pages[page], e.registers.snapshots);
  }
}
