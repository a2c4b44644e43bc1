/** The transmitter of `hal_uart`: the write loop, preempted by its interrupt between any two
    accesses to the ring. The interrupt itself is not preempted by the writer. */
module UartMachine {
  import opened Bits
  import R = RingMachine

  type Ring = R.State<byte>

  /** The write call in progress: its input, how much it has accepted, and what the queue
      had accepted before it started. */
  datatype Writer =
    | Resting
    | Looping(input: seq<byte>, count: nat, before: seq<byte>)
    | Leaving(input: seq<byte>, count: nat, before: seq<byte>)

  /** `sent` is every byte written to TXDATA; `unmasked` is the TX bit of IMASK. */
  datatype State = State(ring: Ring, unmasked: bool, sent: seq<byte>, writer: Writer)

  datatype Event =
    | Write(input: seq<byte>)
    | Producer(e: R.Event<byte>)      // one ring access of the write loop
    | Finish                          // the loop has accepted its whole input
    | Enable                          // unmask if anything was accepted, and return
    | Interrupt(room: nat)            // the handler; `room` bytes fit before TXFF

  predicate IsPushStep(e: R.Event<byte>) {
    e.Push? || e.TestFull? || e.FillSlot? || e.Publish?
  }

  predicate Enabled(s: State, e: Event) {
    R.WellFormed(s.ring) && s.ring.consumer.Waiting?
    && match e
       case Write(_) => s.writer.Resting?
       case Producer(p) =>
         s.writer.Looping? && IsPushStep(p) && R.Enabled(s.ring, p)
         && (p.Push? ==> s.writer.count < |s.writer.input| && p.value == s.writer.input[s.writer.count])
       case Finish => s.writer.Looping? && s.ring.producer.Idle? && s.writer.count == |s.writer.input|
       case Enable => s.writer.Leaving?
       case Interrupt(_) => s.unmasked
  }

  datatype Served = Served(ring: Ring, out: seq<byte>, drained: bool)

  /** The loop of `hal_uart0_tx_service`. */
  function Service(ring: Ring, room: nat): Served
    requires R.WellFormed(ring) && ring.consumer.Waiting?
    decreases room
  {
    if room == 0 then Served(ring, [], false)
    else if ring.read == ring.write then Served(ring, [], true)
    else
      var rest := Service(R.Popped(ring), room - 1);
      Served(rest.ring, [ring.slots[R.Slot(ring, ring.read)]] + rest.out, rest.drained)
  }

  function Next(s: State, e: Event): State
    requires Enabled(s, e)
  {
    match e
    case Write(input) => s.(writer := Looping(input, 0, s.ring.accepted))
    case Producer(p) =>
      var ring, w := R.Next(s.ring, p), s.writer;
      s.(ring := ring,
         writer := if p.Publish? then Looping(w.input, w.count + 1, w.before)
                   else if p.TestFull? && ring.producer.Idle? then Leaving(w.input, w.count, w.before)
                   else w)
    case Finish => s.(writer := Leaving(s.writer.input, s.writer.count, s.writer.before))
    case Enable => s.(unmasked := s.unmasked || s.writer.count != 0, writer := Resting)
    case Interrupt(room) =>
      var served := Service(s.ring, room);
      s.(ring := served.ring, sent := s.sent + served.out, unmasked := !served.drained)
  }

  function Initial(slots: seq<byte>): State {
    State(R.Initial(slots, false), false, [], Resting)
  }

  // ---- the invariant ----

  /** The bytes a write call has got in are the first `count` of its input. */
  ghost predicate WriterAgrees(s: State) {
    var w, p := s.writer, s.ring.producer;
    match w
    case Resting => p.Idle?
    case Looping(input, count, before) =>
      && count <= |input| && s.ring.accepted == before + input[..count]
      && (p.Idle? || (count < |input| && p.value == input[count]))
    case Leaving(input, count, before) =>
      p.Idle? && count <= |input| && s.ring.accepted == before + input[..count]
  }

  /** A queued byte always has someone who will see to it. */
  ghost predicate NothingStranded(s: State)
    requires R.Inv(s.ring)
  {
    s.ring.Contents() != [] ==> s.unmasked || (!s.writer.Resting? && s.writer.count > 0)
  }

  ghost predicate Inv(s: State) {
    && R.Inv(s.ring) && s.ring.consumer.Waiting? && !s.ring.lax
    && s.sent == s.ring.popped
    && WriterAgrees(s) && NothingStranded(s)
  }

  /** What serving a ring with the given room comes to. */
  ghost predicate Serves(ring: Ring, room: nat, v: Served)
    requires R.Inv(ring)
  {
    && R.Inv(v.ring) && v.ring.consumer.Waiting? && v.ring.producer == ring.producer
    && v.ring.accepted == ring.accepted && v.ring.lax == ring.lax
    && v.ring.popped == ring.popped + v.out
    && (v.drained <==> room > |ring.Contents()|)
    && (v.drained ==> v.ring.Contents() == [])
    && |v.out| == if room <= |ring.Contents()| then room else |ring.Contents()|
  }

  lemma {:induction false} ServeOneMore(ring: Ring, n: Ring, room: nat, v: Served)
    requires R.Inv(ring) && R.Inv(n) && ring.Contents() != []
    requires n.popped == ring.popped + [ring.Contents()[0]] && n.accepted == ring.accepted
    requires n.producer == ring.producer && n.lax == ring.lax
    requires Serves(n, room, v)
    ensures Serves(ring, room + 1, Served(v.ring, [ring.Contents()[0]] + v.out, v.drained))
  {
    assert |n.Contents()| == |ring.Contents()| - 1;
    assert n.popped + v.out == ring.popped + ([ring.Contents()[0]] + v.out);
  }

  lemma {:induction false} ServiceMeans(ring: Ring, room: nat)
    requires R.Inv(ring) && ring.consumer.Waiting?
    ensures Serves(ring, room, Service(ring, room))
    decreases room
  {
    R.FrontSlot(ring);
    if room != 0 && ring.read != ring.write {
      R.PoppedMeans(ring);
      var n := R.Popped(ring);
      ServiceMeans(n, room - 1);
      ServeOneMore(ring, n, room - 1, Service(n, room - 1));
    }
  }

  /** A service loop that has sent `sent` and has `left` bytes of room is on its way to `v`. */
  ghost predicate OnTheWay(v: Served, start: seq<byte>, ring: Ring, sent: seq<byte>, left: nat)
    requires R.Inv(ring) && ring.consumer.Waiting?
  {
    var rest := Service(ring, left);
    v.ring == rest.ring && v.drained == rest.drained && start + v.out == sent + rest.out
  }

  lemma {:induction false} OneByteSent(v: Served, start: seq<byte>, ring: Ring, sent: seq<byte>, left: nat)
    requires R.Inv(ring) && ring.consumer.Waiting? && left > 0 && OnTheWay(v, start, ring, sent, left)
    ensures R.Inv(R.Popped(ring))
    ensures if ring.Contents() == [] then v.ring == ring && v.drained && start + v.out == sent
            else OnTheWay(v, start, R.Popped(ring), sent + [ring.Contents()[0]], left - 1)
  {
    R.FrontSlot(ring);
    R.PoppedMeans(ring);
    if ring.Contents() != [] {
      var front, rest := ring.Contents()[0], Service(R.Popped(ring), left - 1);
      assert sent + ([front] + rest.out) == sent + [front] + rest.out;
    }
  }

  lemma {:induction false} ProducerInv(s: State, p: R.Event<byte>)
    requires Inv(s) && Enabled(s, Producer(p))
    ensures Inv(Next(s, Producer(p)))
  {
    var n, w := Next(s, Producer(p)), s.writer;
    R.NextInv(s.ring, p);
    if p.Publish? {
      assert w.input[..w.count + 1] == w.input[..w.count] + [w.input[w.count]];
      assert n.ring.accepted == w.before + w.input[..w.count + 1];
    } else {
      assert n.ring.accepted == s.ring.accepted && n.ring.popped == s.ring.popped;
    }
  }

  lemma {:induction false} NextInv(s: State, e: Event)
    requires Inv(s) && Enabled(s, e)
    ensures Inv(Next(s, e))
  {
    match e
    case Write(input) => assert input[..0] == [];
    case Producer(p) => ProducerInv(s, p);
    case Finish =>
    case Enable =>
    case Interrupt(room) => ServiceMeans(s.ring, room);
  }

  // ---- runs ----

  ghost predicate IsRun(states: seq<State>, events: seq<Event>) {
    && |states| == |events| + 1
    && R.WellFormed(states[0].ring) && states[0] == Initial(states[0].ring.slots)
    && (forall t :: 0 <= t < |events| ==> Enabled(states[t], events[t]) && states[t + 1] == Next(states[t], events[t]))
  }

  lemma {:induction false} RunInv(states: seq<State>, events: seq<Event>, t: nat)
    requires IsRun(states, events) && t < |states|
    ensures Inv(states[t])
  {
    if t == 0 {
      R.InitialInv(states[0].ring.slots, false);
    } else {
      RunInv(states, events, t - 1);
      NextInv(states[t - 1], events[t - 1]);
      assert states[t - 1 + 1] == Next(states[t - 1], events[t - 1]);
    }
  }

  /** No byte is ever stranded: in every interleaving, while the queue holds a byte, either
      the interrupt is unmasked or the write call that accepted bytes has yet to unmask it.
      What has gone to TXDATA is always a prefix of what was accepted. */
  lemma {:induction false} NeverStranded(states: seq<State>, events: seq<Event>, t: nat)
    requires IsRun(states, events) && t < |states|
    ensures var s := states[t];
            && s.sent <= s.ring.accepted
            && (|s.sent| < |s.ring.accepted| ==> s.unmasked || (!s.writer.Resting? && s.writer.count > 0))
  {
    RunInv(states, events, t);
  }

  lemma {:induction false} CallIsStable(states: seq<State>, events: seq<Event>, t: nat, u: nat)
    requires IsRun(states, events) && t <= u < |states|
    requires forall k :: t <= k <= u ==> !states[k].writer.Resting?
    ensures states[u].writer.input == states[t].writer.input && states[u].writer.before == states[t].writer.before
    decreases u
  {
    if t != u {
      CallIsStable(states, events, t, u - 1);
      assert states[u - 1 + 1] == Next(states[u - 1], events[u - 1]);
    }
  }

  /** A write call that starts at step a and returns at step b has appended exactly the
      first `count` bytes of its input, and leaves the interrupt unmasked if it appended
      any that are still queued. */
  lemma {:induction false} WriteAcceptsAPrefix(states: seq<State>, events: seq<Event>, a: nat, b: nat)
    requires IsRun(states, events) && a < b < |events| && events[a].Write? && events[b] == Enable
    requires forall k :: a < k <= b ==> !states[k].writer.Resting?
    ensures states[b].writer.count <= |events[a].input|
    ensures states[b + 1].ring.accepted == states[a].ring.accepted + events[a].input[..states[b].writer.count]
    ensures |states[b + 1].sent| < |states[b + 1].ring.accepted| ==> states[b + 1].unmasked
  {
    assert states[a + 1] == Next(states[a], events[a]);
    assert states[b + 1] == Next(states[b], events[b]);
    CallIsStable(states, events, a + 1, b);
    RunInv(states, events, b);
    RunInv(states, events, b + 1);
  }

  /** When the mask moves: it opens only at the end of a write call that accepted something, and
      always there; it closes only in an interrupt that had room for more than was queued, and
      always there. */
  lemma {:induction false} MaskMoves(states: seq<State>, events: seq<Event>, t: nat)
    requires IsRun(states, events) && t < |events|
    ensures var s, n, e := states[t], states[t + 1], events[t];
            && (e == Enable && s.writer.count > 0 ==> n.unmasked)
            && (e.Interrupt? && e.room > |s.ring.accepted| - |s.sent| ==> !n.unmasked)
            && (n.unmasked && !s.unmasked ==> e == Enable && s.writer.count > 0)
            && (!n.unmasked && s.unmasked ==> e.Interrupt? && e.room > |s.ring.accepted| - |s.sent|)
  {
    RunInv(states, events, t);
    if events[t].Interrupt? {
      InterruptDrains(states, events, t);
    }
    assert states[t + 1] == Next(states[t], events[t]);
  }

  /** One interrupt with room for more than is queued sends everything accepted, and only
      then masks itself. */
  lemma {:induction false} InterruptDrains(states: seq<State>, events: seq<Event>, t: nat)
    requires IsRun(states, events) && t < |events| && events[t].Interrupt?
    ensures var s, n := states[t], states[t + 1];
            if events[t].room > |s.ring.accepted| - |s.sent| then n.sent == s.ring.accepted && !n.unmasked
            else |n.sent| == |s.sent| + events[t].room && n.unmasked
  {
    RunInv(states, events, t);
    ServiceMeans(states[t].ring, events[t].room);
    assert states[t + 1] == Next(states[t], events[t]);
  }
}
