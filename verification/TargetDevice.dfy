/** The I2C target as the bus sees it: whole interrupts, each draining the indices the
    peripheral returns, with the main loop publishing access by access between them, are the
    paged EEPROM of module Eeprom on the events in the order of the wire. */
module TargetDevice {
  import opened Bits
  import opened Options
  import opened R = RegisterMap
  import opened G = Engine
  import opened I = I2cTarget
  import E = Eeprom
  import M = SnapshotMachine

  // ---- the device on wire events ----

  /** The device, and the bytes it has sent. */
  datatype Device = Device(state: E.State, sent: Bytes)

  /** One event of the bus, or a publish. */
  ghost function Apply(d: Device, e: E.Event): (n: Device)
    requires E.Shaped(d.state) && E.Allowed(d.state, e)
    ensures E.Shaped(n.state)
  {
    E.NextShaped(d.state, e);
    var output := E.Output(d.state, e);
    Device(E.Next(d.state, e), if output.Some? then d.sent + [output.value] else d.sent)
  }

  /** One index in wire order. A byte received outside a write begins one, a byte requested
      outside a read begins one, and everything else but an idle request ends what there is. */
  ghost function Wire(d: Device, i: Index): (n: Device)
    requires E.Shaped(d.state)
    ensures E.Shaped(n.state)
  {
    match i
    case RxDone(value, _) =>
      Apply(if d.state.mode.Writing? then d else Apply(d, E.StartWrite), E.Put(value))
    case TxDone(requested, _) =>
      if !requested then d
      else Apply(if d.state.mode.Reading? then d else Apply(d, E.StartRead), E.Get)
    case _ => Apply(d, E.Stop)
  }

  ghost function WireAll(d: Device, stream: seq<Index>): (n: Device)
    requires E.Shaped(d.state)
    ensures E.Shaped(n.state)
    decreases |stream|
  {
    if stream == [] then d else WireAll(Wire(d, stream[0]), stream[1..])
  }

  // ---- the handler stands for the device ----

  ghost function DeviceOf(h: Handler): (d: Device)
    requires I.Inv(h)
    ensures E.Shaped(d.state)
  {
    AbsShaped(h.engine);
    Device(Abs(h.engine), h.sent)
  }

  /** One engine operation. */
  lemma {:induction false} EngineApplies(h: Handler, ev: Event, n: Handler)
    requires I.Inv(h) && !ev.Main? && G.Inv(Next(h.engine, ev))
    requires n.engine == Next(h.engine, ev)
    requires n.sent == if ev.Transmits? then h.sent + [Transmit(h.engine).value] else h.sent
    ensures E.Allowed(Abs(h.engine), Meaning(h.engine, ev))
    ensures DeviceOf(n) == Apply(DeviceOf(h), Meaning(h.engine, ev))
  {
    Simulation(h.engine, ev);
  }

  predicate InWireOrder(stream: seq<Index>) {
    forall k :: 0 <= k < |stream| && IsData(stream[k]) ==> !stream[k].startPending
  }

  lemma {:induction false} ReceiveOnWire(h: Handler, value: byte)
    requires I.Inv(h)
    ensures DeviceOf(ReceiveByte(h, value)) == Wire(DeviceOf(h), RxDone(value, false))
    ensures ReceiveByte(h, value).prehandled == h.prehandled
  {
    var b := h;
    if h.engine.direction != Receiving {
      b := h.(engine := Step(h.engine, BeginsReceive));
      EngineApplies(h, BeginsReceive, b);
    }
    EngineKeeps(b.engine, Receives(value));
    EngineApplies(b, Receives(value), ReceiveByte(h, value));
  }

  lemma {:induction false} TransmitOnWire(h: Handler)
    requires I.Inv(h)
    ensures DeviceOf(TransmitByte(h)) == Wire(DeviceOf(h), TxDone(true, false))
    ensures TransmitByte(h).prehandled == h.prehandled
  {
    var b := h;
    if h.engine.direction != Transmitting {
      b := h.(engine := Step(h.engine, BeginsTransmit));
      EngineApplies(h, BeginsTransmit, b);
    }
    EngineKeeps(b.engine, Transmits);
    EngineApplies(b, Transmits, TransmitByte(h));
  }

  lemma {:induction false} EndOnWire(h: Handler, n: Handler)
    requires I.Inv(h) && n == h.(engine := Step(h.engine, Ends), prehandled := n.prehandled, errors := n.errors,
                                 unexpected := n.unexpected)
    ensures DeviceOf(n) == Apply(DeviceOf(h), E.Stop)
  {
    EngineApplies(h, Ends, n);
  }

  lemma {:induction false} ServeOnWire(h: Handler, i: Index)
    requires I.Inv(h) && !h.prehandled && (IsData(i) ==> !i.startPending)
    ensures DeviceOf(Serve(h, i)) == Wire(DeviceOf(h), i) && !Serve(h, i).prehandled
  {
    match i
    case RxDone(value, _) => ReceiveOnWire(h, value);
    case TxDone(requested, _) => if requested { TransmitOnWire(h); }
    case StartFlag => EndOnWire(h, Serve(h, i));
    case StopFlag => EndOnWire(h, Serve(h, i));
    case ErrorFlag => EndOnWire(h, Serve(h, i));
    case OtherFlag => EndOnWire(h, Serve(h, i));
  }

  lemma {:induction false} DrainOnWire(h: Handler, stream: seq<Index>)
    requires I.Inv(h) && !h.prehandled && InWireOrder(stream)
    ensures DeviceOf(Drain(h, stream)) == WireAll(DeviceOf(h), stream) && !Drain(h, stream).prehandled
    decreases |stream|
  {
    if stream != [] {
      ServeOnWire(h, stream[0]);
      DrainOnWire(Serve(h, stream[0]), stream[1..]);
    }
  }

  lemma {:induction false} WireOrderIsInOrder(stream: seq<Index>)
    requires StartComesNext(stream)
    ensures InWireOrder(WireOrder(stream))
    decreases |stream|
  {
    if stream != [] {
      var n := if IsData(stream[0]) && stream[0].startPending then 2 else 1;
      RuleForSuffix(stream, n);
      WireOrderIsInOrder(stream[n..]);
    }
  }

  // ---- whole lives of the target ----

  /** What happens to the target: an interrupt, or one access of a publish. */
  datatype Act = Interrupt(stream: seq<Index>) | MainLoop(snapshot: nat, step: M.Event)

  ghost predicate Possible(h: Handler, a: Act)
    requires I.Inv(h)
  {
    match a
    case Interrupt(stream) => StartComesNext(stream)
    case MainLoop(s, step) => G.Allowed(h.engine, Main(s, step))
  }

  ghost function After(h: Handler, a: Act): (n: Handler)
    requires I.Inv(h) && Possible(h, a)
    ensures I.Inv(n)
  {
    match a
    case Interrupt(stream) => Drain(h, stream)
    case MainLoop(s, step) =>
      Simulation(h.engine, Main(s, step));
      h.(engine := Next(h.engine, Main(s, step)))
  }

  /** What the device sees of it: an interrupt is its events in wire order, and of a publish
      only the access that makes the new version current is seen. */
  datatype Seen = Bus(stream: seq<Index>) | Change(event: E.Event)

  ghost function SeenOf(h: Handler, a: Act): Seen
    requires I.Inv(h) && Possible(h, a)
  {
    match a
    case Interrupt(stream) => Bus(WireOrder(stream))
    case MainLoop(s, step) => Change(Meaning(h.engine, Main(s, step)))
  }

  ghost predicate DeviceStep(d: Device, w: Seen, n: Device) {
    && E.Shaped(d.state)
    && match w
       case Bus(stream) => n == WireAll(d, stream)
       case Change(e) => (e.Publish? || e.Nothing?) && E.Allowed(d.state, e) && n == Apply(d, e)
  }

  ghost predicate StandsFor(h: Handler, d: Device) { I.Inv(h) && d == DeviceOf(h) }

  ghost predicate IsSeenAs(h: Handler, a: Act, w: Seen) { I.Inv(h) && Possible(h, a) && w == SeenOf(h, a) }

  lemma {:induction false} ActOnWire(h: Handler, a: Act)
    requires I.Inv(h) && !h.prehandled && Possible(h, a)
    ensures DeviceStep(DeviceOf(h), SeenOf(h, a), DeviceOf(After(h, a))) && !After(h, a).prehandled
  {
    match a
    case Interrupt(stream) =>
      ReorderingIsHarmless(h, stream);
      WireOrderIsInOrder(stream);
      DrainOnWire(h, WireOrder(stream));
    case MainLoop(s, step) => Simulation(h.engine, Main(s, step));
  }

  ghost predicate IsLife(hs: seq<Handler>, acts: seq<Act>) {
    && |hs| == |acts| + 1 && I.Inv(hs[0]) && !hs[0].prehandled
    && forall t :: 0 <= t < |acts| ==> LifeStep(hs[t], acts[t], hs[t + 1])
  }

  ghost predicate LifeStep(h: Handler, a: Act, n: Handler) { I.Inv(h) && Possible(h, a) && n == After(h, a) }

  lemma {:induction false} LifeGoesOn(h: Handler, a: Act, n: Handler) returns (w: Seen)
    requires LifeStep(h, a, n) && !h.prehandled
    ensures I.Inv(n) && !n.prehandled && IsSeenAs(h, a, w) && DeviceStep(DeviceOf(h), w, DeviceOf(n))
  {
    w := SeenOf(h, a);
    ActOnWire(h, a);
  }

  /** The device states and what was seen, up to step t of a life. */
  ghost predicate Tracks(hs: seq<Handler>, acts: seq<Act>, t: nat, ds: seq<Device>, ws: seq<Seen>) {
    && t <= |acts| < |hs| && |ds| == t + 1 && |ws| == t
    && (forall k :: 0 <= k <= t ==> StandsFor(hs[k], ds[k]))
    && (forall k :: 0 <= k < t ==> IsSeenAs(hs[k], acts[k], ws[k]) && DeviceStep(ds[k], ws[k], ds[k + 1]))
  }

  lemma {:induction false} TracksNext(hs: seq<Handler>, acts: seq<Act>, t: nat, ds: seq<Device>, ws: seq<Seen>,
                                      d: Device, w: Seen)
    requires Tracks(hs, acts, t, ds, ws) && t < |acts|
    requires StandsFor(hs[t + 1], d) && IsSeenAs(hs[t], acts[t], w) && DeviceStep(ds[t], w, d)
    ensures Tracks(hs, acts, t + 1, ds + [d], ws + [w])
  {
    hide StandsFor, IsSeenAs, DeviceStep;
  }

  /** End to end. In every life of the target whose interrupts keep the rule about STARTs,
      with publishes interleaved between them access by access, the handler stands at each
      point for the paged EEPROM driven by what it has seen so far: bus events in wire order,
      and whole publishes. So the bytes sent are the EEPROM's bytes. */
  lemma {:induction false} TargetIsTheDevice(hs: seq<Handler>, acts: seq<Act>, t: nat)
    returns (ds: seq<Device>, ws: seq<Seen>)
    requires IsLife(hs, acts) && t <= |acts|
    ensures Tracks(hs, acts, t, ds, ws) && !hs[t].prehandled
    decreases t
  {
    if t == 0 {
      ds, ws := [DeviceOf(hs[0])], [];
    } else {
      hide LifeStep, IsSeenAs, DeviceStep;
      ds, ws := TargetIsTheDevice(hs, acts, t - 1);
      assert LifeStep(hs[t - 1], acts[t - 1], hs[t - 1 + 1]) && StandsFor(hs[t - 1], ds[t - 1]);
      var w := LifeGoesOn(hs[t - 1], acts[t - 1], hs[t]);
      TracksNext(hs, acts, t - 1, ds, ws, DeviceOf(hs[t]), w);
      ds, ws := ds + [DeviceOf(hs[t])], ws + [w];
    }
  }
}
