/** The interrupt handler of `hal_i2c_target`: it serves whatever index the peripheral
    returns next, and data events outrank the START that preceded them on the wire. */
module I2cTarget {
  import opened Bits
  import opened Options
  import opened SnapshotWord
  import opened R = RegisterMap
  import opened G = Engine
  import M = SnapshotMachine

  /** One interrupt index, with what the handler reads from the peripheral while serving it.
      `startPending` is SSTART in RIS at that moment; `requested` is TREQ. */
  datatype Index =
    | RxDone(value: byte, startPending: bool)
    | TxDone(requested: bool, startPending: bool)    // STXEMPTY or STXDONE
    | StartFlag
    | StopFlag
    | ErrorFlag
    | OtherFlag

  /** The handler's globals and the bytes written to STXDATA. */
  datatype Handler = Handler(engine: Engine, prehandled: bool, errors: uint32, unexpected: uint32, sent: Bytes)

  ghost predicate Inv(h: Handler) { G.Inv(h.engine) }

  lemma {:induction false} EngineKeeps(e: Engine, ev: Event)
    requires G.Inv(e) && !ev.Main?
    ensures G.Inv(Next(e, ev))
  {
    Simulation(e, ev);
  }

  function Step(e: Engine, ev: Event): (n: Engine)
    requires G.Inv(e) && !ev.Main?
    ensures G.Inv(n) && n == Next(e, ev)
  {
    EngineKeeps(e, ev);
    Next(e, ev)
  }

  /** `hal_i2c_target_begin_if_start_pending`. It does not look at the flag it sets. */
  function BeginIfStartPending(h: Handler, startPending: bool): Handler
    requires Inv(h)
  {
    if startPending then h.(engine := Step(h.engine, Ends), prehandled := true) else h
  }

  function ReceiveByte(h: Handler, value: byte): Handler
    requires Inv(h)
  {
    var e := if h.engine.direction == Receiving then h.engine else Step(h.engine, BeginsReceive);
    h.(engine := Step(e, Receives(value)))
  }

  function TransmitByte(h: Handler): Handler
    requires Inv(h)
  {
    var e := if h.engine.direction == Transmitting then h.engine else Step(h.engine, BeginsTransmit);
    h.(engine := Step(e, Transmits), sent := h.sent + [Transmit(e).value])
  }

  function Abort(h: Handler): Handler
    requires Inv(h)
  {
    h.(engine := Step(h.engine, Ends), prehandled := false, errors := Add32(h.errors, 1))
  }

  /** One turn of the handler's loop. */
  function Serve(h: Handler, i: Index): (n: Handler)
    requires Inv(h)
    ensures Inv(n)
  {
    match i
    case RxDone(value, startPending) => ReceiveByte(BeginIfStartPending(h, startPending), value)
    case TxDone(requested, startPending) =>
      if requested then TransmitByte(BeginIfStartPending(h, startPending)) else h
    case StartFlag =>
      if h.prehandled then h.(prehandled := false) else h.(engine := Step(h.engine, Ends))
    case StopFlag => h.(engine := Step(h.engine, Ends), prehandled := false)
    case ErrorFlag => Abort(h)
    case OtherFlag => Abort(h.(unexpected := Add32(h.unexpected, 1)))
  }

  function Drain(h: Handler, stream: seq<Index>): (n: Handler)
    requires Inv(h)
    ensures Inv(n)
    decreases |stream|
  {
    if stream == [] then h else Drain(Serve(h, stream[0]), stream[1..])
  }

  predicate IsData(i: Index) { i.RxDone? || i.TxDone? }

  /** The order the handler relies on: a START seen pending behind a data event is the very
      next index the peripheral returns. */
  predicate StartComesNext(stream: seq<Index>) {
    forall k :: 0 <= k < |stream| && IsData(stream[k]) && stream[k].startPending ==>
      k + 1 < |stream| && stream[k + 1] == StartFlag
  }

  function Unpended(i: Index): Index
    requires IsData(i)
  {
    i.(startPending := false)
  }

  /** The stream in wire order: every pending START moved before its data event. */
  function WireOrder(stream: seq<Index>): seq<Index>
    requires StartComesNext(stream)
    decreases |stream|
  {
    if stream == [] then []
    else if IsData(stream[0]) && stream[0].startPending then
      RuleForSuffix(stream, 2);
      [StartFlag, Unpended(stream[0])] + WireOrder(stream[2..])
    else
      RuleForSuffix(stream, 1);
      [stream[0]] + WireOrder(stream[1..])
  }

  lemma {:induction false} RuleForSuffix(stream: seq<Index>, n: nat)
    requires StartComesNext(stream) && n <= |stream|
    ensures StartComesNext(stream[n..])
  {
    var rest := stream[n..];
    forall k | 0 <= k < |rest| && IsData(rest[k]) && rest[k].startPending
      ensures k + 1 < |rest| && rest[k + 1] == StartFlag
    {
      assert rest[k] == stream[n + k];
      assert stream[n + k + 1] == StartFlag;
    }
  }

  lemma {:induction false} DrainTwo(h: Handler, a: Index, b: Index, rest: seq<Index>)
    requires Inv(h)
    ensures Drain(h, [a, b] + rest) == Drain(Serve(Serve(h, a), b), rest)
  {
    var s := [a, b] + rest;
    assert s[1..] == [b] + rest && ([b] + rest)[1..] == rest;
  }

  lemma {:induction false} DrainOne(h: Handler, a: Index, rest: seq<Index>)
    requires Inv(h)
    ensures Drain(h, [a] + rest) == Drain(Serve(h, a), rest)
  {
    assert ([a] + rest)[1..] == rest;
  }

  lemma {:induction false} EndsTwice(e: Engine)
    requires G.Inv(e)
    ensures G.Inv(End(e)) && End(End(e)) == End(e)
  {
    EngineKeeps(e, Ends);
  }

  /** One data event served ahead of its START, then the START: the same as wire order. */
  lemma {:induction false} OneSwap(h: Handler, i: Index)
    requires Inv(h) && !h.prehandled && IsData(i) && i.startPending
    ensures Serve(Serve(h, i), StartFlag) == Serve(Serve(h, StartFlag), Unpended(i))
  {
  }

  /** START reordering is harmless: under the rule, draining any stream gives the engine, the
      register map, the counters and the bytes sent that wire order gives, and the flag is
      clear again. */
  lemma {:induction false} ReorderingIsHarmless(h: Handler, stream: seq<Index>)
    requires Inv(h) && !h.prehandled && StartComesNext(stream)
    ensures Drain(h, stream) == Drain(h, WireOrder(stream))
    ensures !Drain(h, stream).prehandled
    decreases |stream|
  {
    if stream != [] {
      var i := stream[0];
      if IsData(i) && i.startPending {
        RuleForSuffix(stream, 2);
        assert stream == [i, StartFlag] + stream[2..];
        DrainTwo(h, i, StartFlag, stream[2..]);
        DrainTwo(h, StartFlag, Unpended(i), WireOrder(stream[2..]));
        OneSwap(h, i);
        ReorderingIsHarmless(Serve(Serve(h, i), StartFlag), stream[2..]);
      } else {
        RuleForSuffix(stream, 1);
        DrainOne(h, i, WireOrder(stream[1..]));
        ReorderingIsHarmless(Serve(h, i), stream[1..]);
      }
    }
  }

  // ---- the counters and the flag ----

  /** How many indices of a stream count as errors: the error and the unknown ones. */
  function ErrorsIn(stream: seq<Index>): nat
    decreases |stream|
  {
    if stream == [] then 0
    else
      var last := stream[|stream| - 1];
      ErrorsIn(stream[..|stream| - 1]) + if last.ErrorFlag? || last.OtherFlag? then 1 else 0
  }

  function UnknownIn(stream: seq<Index>): nat
    decreases |stream|
  {
    if stream == [] then 0
    else UnknownIn(stream[..|stream| - 1]) + if stream[|stream| - 1].OtherFlag? then 1 else 0
  }

  /** A byte is received or sent with the START that announced it still pending. */
  predicate Overtakes(i: Index) { (i.RxDone? || (i.TxDone? && i.requested)) && i.startPending }

  /** Only data indices come from place k on. */
  predicate DataFrom(stream: seq<Index>, k: nat) { forall j :: k <= j < |stream| ==> IsData(stream[j]) }

  /** The flag was up and nothing took it down, or some index put it up and nothing after that
      took it down. */
  predicate LeftUp(up: bool, stream: seq<Index>) {
    (up && DataFrom(stream, 0)) || exists k :: 0 <= k < |stream| && Overtakes(stream[k]) && DataFrom(stream, k + 1)
  }

  /** After any stream, in any order: both counters have grown by what the stream holds, modulo
      2^32, and the flag is up exactly if some index overtook its START and no START, STOP or
      error has been served since. */
  lemma {:induction false} CountersAndFlag(h: Handler, stream: seq<Index>)
    requires Inv(h)
    ensures var n := Drain(h, stream);
            && n.errors == (h.errors + ErrorsIn(stream)) % 0x1_0000_0000
            && n.unexpected == (h.unexpected + UnknownIn(stream)) % 0x1_0000_0000
            && (n.prehandled <==> LeftUp(h.prehandled, stream))
    decreases |stream|
  {
    hide Serve, Drain, LeftUp;
    if stream == [] {
      NothingServed(h);
    } else {
      var init, i := stream[..|stream| - 1], stream[|stream| - 1];
      assert stream == init + [i];
      CountersAndFlag(h, init);
      DrainAppend(h, init, [i]);
      DrainOne(Drain(h, init), i, []);
      NothingServed(Serve(Drain(h, init), i));
      assert [i] + [] == [i];
      OneServed(Drain(h, init), i);
      AddModulo(h.errors + ErrorsIn(init), if i.ErrorFlag? || i.OtherFlag? then 1 else 0);
      AddModulo(h.unexpected + UnknownIn(init), if i.OtherFlag? then 1 else 0);
      LeftUpNext(h.prehandled, init, i);
    }
  }

  lemma {:induction false} NothingServed(h: Handler)
    requires Inv(h)
    ensures Drain(h, []) == h && (h.prehandled <==> LeftUp(h.prehandled, []))
  {
  }

  lemma {:induction false} LeftUpNext(up: bool, init: seq<Index>, i: Index)
    ensures LeftUp(up, init + [i]) <==> IsData(i) && (LeftUp(up, init) || Overtakes(i))
  {
    hide Overtakes, IsData;
    var all := init + [i];
    forall k: nat | k <= |init|
      ensures DataFrom(all, k) <==> DataFrom(init, k) && IsData(i)
    {
      DataFromNext(init, i, k);
    }
    if IsData(i) && Overtakes(i) {
      assert all[|init|] == i && DataFrom(all, |init| + 1);
    }
    if IsData(i) && exists k :: 0 <= k < |init| && Overtakes(init[k]) && DataFrom(init, k + 1) {
      var k :| 0 <= k < |init| && Overtakes(init[k]) && DataFrom(init, k + 1);
      assert all[k] == init[k] && DataFrom(all, k + 1);
    }
    if exists k :: 0 <= k < |init| && Overtakes(all[k]) && DataFrom(all, k + 1) {
      var k :| 0 <= k < |init| && Overtakes(all[k]) && DataFrom(all, k + 1);
      assert all[k] == init[k] && DataFrom(init, k + 1);
    }
    OvertakingIsData(i);
  }

  lemma {:induction false} OvertakingIsData(i: Index)
    ensures Overtakes(i) ==> IsData(i)
  {
  }

  lemma {:induction false} DataFromNext(init: seq<Index>, i: Index, k: nat)
    requires k <= |init|
    ensures DataFrom(init + [i], k) <==> DataFrom(init, k) && IsData(i)
  {
    var all := init + [i];
    assert all[|init|] == i && forall j :: 0 <= j < |init| ==> all[j] == init[j];
  }

  lemma {:induction false} OneServed(h: Handler, i: Index)
    requires Inv(h)
    ensures var n := Serve(h, i);
            && n.errors == (h.errors + if i.ErrorFlag? || i.OtherFlag? then 1 else 0) % 0x1_0000_0000
            && n.unexpected == (h.unexpected + if i.OtherFlag? then 1 else 0) % 0x1_0000_0000
            && (n.prehandled <==> IsData(i) && (h.prehandled || Overtakes(i)))
  {
    hide Serve, Overtakes;
    if IsData(i) {
      DataServed(h, i);
    } else {
      OtherServed(h, i);
      OvertakingIsData(i);
    }
  }

  lemma {:induction false} OtherServed(h: Handler, i: Index)
    requires Inv(h) && !IsData(i)
    ensures var n := Serve(h, i);
            && n.errors == (if i.ErrorFlag? || i.OtherFlag? then Add32(h.errors, 1) else h.errors)
            && n.unexpected == (if i.OtherFlag? then Add32(h.unexpected, 1) else h.unexpected)
            && !n.prehandled
  {
    hide Step, ReceiveByte, TransmitByte, Add32;
  }

  lemma {:induction false} DataServed(h: Handler, i: Index)
    requires Inv(h) && IsData(i)
    ensures var n := Serve(h, i);
            && n.errors == h.errors && n.unexpected == h.unexpected
            && (n.prehandled <==> h.prehandled || Overtakes(i))
  {
    hide Step, ReceiveByte, TransmitByte;
    DataKeepsCounts(BeginIfStartPending(h, i.startPending), if i.RxDone? then i.value else 0);
  }

  lemma {:induction false} DataKeepsCounts(h: Handler, value: byte)
    requires Inv(h)
    ensures ReceiveByte(h, value) == h.(engine := ReceiveByte(h, value).engine)
    ensures TransmitByte(h) == h.(engine := TransmitByte(h).engine, sent := TransmitByte(h).sent)
  {
    hide Step, Transmit;
  }

  lemma {:induction false} AddModulo(a: nat, b: nat)
    ensures (a % 0x1_0000_0000 + b) % 0x1_0000_0000 == (a + b) % 0x1_0000_0000
  {
  }

  // ---- what the rule is needed for ----

  function Received(values: seq<byte>, startPending: bool): seq<Index> {
    seq(|values|, i requires 0 <= i < |values| => RxDone(values[i], startPending))
  }

  function Requested(n: nat, startPending: bool): seq<Index> {
    seq(n, _ => TxDone(true, startPending))
  }

  /** Bytes that each find the START still pending: each begins the transaction again. */
  lemma {:induction false} EachByteIsTheFirst(h: Handler, values: seq<byte>)
    requires Inv(h) && values != []
    ensures var n := Drain(h, Received(values, true));
            n.prehandled && n.engine.direction == Receiving && n.engine.count == 1
    decreases |values|
  {
    var stream := Received(values, true);
    var n := Serve(h, stream[0]);
    assert stream[1..] == Received(values[1..], true);
    if |values| > 1 {
      EachByteIsTheFirst(n, values[1..]);
    } else {
      assert Drain(n, []) == n;
    }
  }

  /** Bytes after the START was served: they are counted up to the two of the address. */
  lemma {:induction false} BytesAreCounted(h: Handler, values: seq<byte>)
    requires Inv(h) && (h.engine.direction == Receiving || values != [])
    ensures var n := Drain(h, Received(values, false));
            && n.engine.direction == Receiving && n.prehandled == h.prehandled
            && n.engine.count == var c := |values| + (if h.engine.direction == Receiving then h.engine.count else 0);
                                 if c < 2 then c else 2
    decreases |values|
  {
    var stream := Received(values, false);
    if values != [] {
      assert stream[1..] == Received(values[1..], false);
      BytesAreCounted(Serve(h, stream[0]), values[1..]);
    }
  }

  lemma {:induction false} DrainAppend(h: Handler, a: seq<Index>, b: seq<Index>)
    requires Inv(h)
    ensures Drain(h, a + b) == Drain(Drain(h, a), b)
    decreases |a|
  {
    if a == [] {
      assert a + b == b;
    } else {
      assert (a + b)[1..] == a[1..] + b;
      DrainAppend(Serve(h, a[0]), a[1..], b);
    }
  }

  /** The rule is exact for received bytes. When several data events are served before the
      START they were all pending behind, the outcome is that of wire order if and only if
      there was one of them: from the second on, each byte is taken for the first of the
      address. */
  lemma {:induction false} OnlyOneByteMayOvertake(h: Handler, values: seq<byte>)
    requires Inv(h) && !h.prehandled && values != []
    ensures Drain(h, Received(values, true) + [StartFlag]) == Drain(h, [StartFlag] + Received(values, false))
            <==> |values| == 1
  {
    var early, late := Received(values, true), Received(values, false);
    DrainAppend(h, early, [StartFlag]);
    DrainAppend(h, [StartFlag], late);
    DrainOne(h, StartFlag, []);
    DrainOne(Drain(h, early), StartFlag, []);
    assert [StartFlag] + [] == [StartFlag];
    EachByteIsTheFirst(h, values);
    var started := Serve(h, StartFlag);
    assert Drain(h, [StartFlag]) == started;
    BytesAreCounted(started, values);
    if |values| == 1 {
      var i := RxDone(values[0], true);
      assert early == [i] && late == [Unpended(i)];
      OneSwap(h, i);
      DrainTwo(h, i, StartFlag, []);
      DrainTwo(h, StartFlag, Unpended(i), []);
      assert early + [StartFlag] == [i, StartFlag] + [] && [StartFlag] + late == [StartFlag, Unpended(i)] + [];
    }
  }

  /** The latched version is the current one. */
  ghost predicate HoldsTheCurrent(m: Map)
    requires R.Inv(m)
  {
    m.latch.Latched? ==>
      var s := m.snapshots[SnapshotOf(m, m.latch.page)];
      s.readers[0] == M.Holding(ActiveBit(s.word), M.Last(s))
  }

  lemma {:induction false} LeaveThenEnter(s: M.State)
    requires M.Inv(s) && |s.readers| == 1 && s.readers[0] == M.Holding(ActiveBit(s.word), M.Last(s))
    ensures M.Entered(M.Left(s, 0), 0) == s
  {
    hide BitAnd, BitXor, ShiftRight;
    M.ReleaseInv(s, 0);
    M.ReleaseCounts(s, 0);
    HeldByTheMap(M.Left(s, 0));
    M.AcquireCounts(M.Left(s, 0), 0);
  }

  /** Giving up a current latch and taking it again changes nothing. */
  lemma {:induction false} RelatchAfterEnd(m: Map)
    requires R.Inv(m) && HoldsTheCurrent(m)
    ensures R.Inv(EndRead(m)) && Relatch(EndRead(m)) == Relatch(m)
    ensures R.Inv(Relatch(m)) && HoldsTheCurrent(Relatch(m))
  {
    hide BitAnd, BitXor, ShiftRight;
    EndReadInv(m);
    RelatchInv(m);
    RelatchUnlatched(EndRead(m));
    var page := FindPage(m.pages, m.address);
    if m.latch.Latched? && page == Some(m.latch.page) {
      RenewLatch(m);
    } else if page.Some? {
      FindPageMeans(m, m.address);
      AcquireInv(EndRead(m), page.value);
    }
  }

  lemma {:induction false} RelatchUnlatched(m: Map)
    requires R.Inv(m) && m.latch == Unlatched
    ensures var page := FindPage(m.pages, m.address);
            && (page.Some? ==> page.value < |m.pages|)
            && Relatch(m) == if page.Some? then R.Acquire(m, page.value) else m
  {
    FindPageMeans(m, m.address);
    assert EndRead(m) == m;
  }

  lemma {:induction false} RenewLatch(m: Map)
    requires R.Inv(m) && HoldsTheCurrent(m) && m.latch.Latched?
    ensures R.Inv(EndRead(m)) && m.latch.page < |m.pages| && R.Acquire(EndRead(m), m.latch.page) == m
  {
    hide BitAnd, BitXor, ShiftRight;
    EndReadInv(m);
    var e, s := EndRead(m), SnapshotOf(m, m.latch.page);
    assert PageOk(m.pages[m.latch.page], m.snapshots);
    LeaveThenEnter(m.snapshots[s]);
    HeldByTheMap(e.snapshots[s]);
    assert e.snapshots[s := m.snapshots[s]] == m.snapshots;
  }

  lemma {:induction false} ReadAfterEnd(m: Map)
    requires R.Inv(m) && HoldsTheCurrent(m)
    ensures R.Inv(EndRead(m)) && ReadCurrent(EndRead(m)) == ReadCurrent(m)
    ensures R.Inv(ReadCurrent(m).after) && HoldsTheCurrent(ReadCurrent(m).after)
  {
    hide ReadCurrent, Relatch, EndRead, BitAnd, BitXor, ShiftRight;
    EndReadInv(m);
    RelatchAfterEnd(m);
    ReadParts(m);
    ReadParts(EndRead(m));
    PointerOnly(Relatch(m), ReadCurrent(m).after);
  }

  /** The two ways a request is served: with the START still pending, and after it. */
  lemma {:induction false} OneTransmit(e: Engine)
    requires G.Inv(e) && HoldsTheCurrent(e.registers) && e.direction != Receiving && e.pending == e.count == 0
    ensures G.Inv(End(e)) && G.Inv(BeginTransmit(End(e)))
    ensures var f := if e.direction == Transmitting then e else BeginTransmit(e);
            && G.Inv(f) && Transmit(BeginTransmit(End(e))) == Transmit(f)
            && HoldsTheCurrentAfter(Transmit(f).engine)
  {
    hide BitAnd, BitXor, ShiftRight;
    var m := e.registers;
    ReadAfterEnd(m);
    EndReadInv(m);
    assert EndRead(EndRead(m)) == EndRead(m);
  }

  ghost predicate HoldsTheCurrentAfter(e: Engine) {
    && R.Inv(e.registers) && HoldsTheCurrent(e.registers)
    && e.direction == Transmitting && e.pending == e.count == 0
  }

  lemma {:induction false} OneRequest(h: Handler, g: Handler)
    requires Inv(h) && Inv(g) && h == g.(prehandled := h.prehandled)
    requires HoldsTheCurrent(g.engine.registers) && (g.engine.direction == Transmitting || g.engine.direction == AtRest)
    requires g.engine.pending == g.engine.count == 0
    ensures var a, b := Serve(h, TxDone(true, true)), Serve(g, TxDone(true, false));
            && Inv(a) && Inv(b) && a == b.(prehandled := true) && b.prehandled == g.prehandled
            && HoldsTheCurrentAfter(b.engine)
  {
    hide ReadCurrent, Relatch, BitAnd, BitXor, ShiftRight;
    OneTransmit(g.engine);
  }

  lemma {:induction false} SameRequests(h: Handler, g: Handler, n: nat)
    requires Inv(h) && Inv(g) && h == g.(prehandled := h.prehandled)
    requires HoldsTheCurrent(g.engine.registers) && (g.engine.direction == Transmitting || g.engine.direction == AtRest)
    requires g.engine.pending == g.engine.count == 0
    ensures var a, b := Drain(h, Requested(n, true)), Drain(g, Requested(n, false));
            Inv(a) && Inv(b) && a == b.(prehandled := a.prehandled) && b.prehandled == g.prehandled
            && (n > 0 ==> a.prehandled)
    decreases n
  {
    hide Serve, HoldsTheCurrent;
    if n > 0 {
      assert Requested(n, true)[1..] == Requested(n - 1, true);
      assert Requested(n, false)[1..] == Requested(n - 1, false);
      OneRequest(h, g);
      SameRequests(Serve(h, TxDone(true, true)), Serve(g, TxDone(true, false)), n - 1);
    }
  }

  /** Requests for bytes may overtake their START in any number: each ends the read and
      begins it again, and finds the version it had. */
  lemma {:induction false} RequestsMayOvertake(h: Handler, n: nat)
    requires Inv(h) && !h.prehandled && n > 0
    ensures Drain(h, Requested(n, true) + [StartFlag]) == Drain(h, [StartFlag] + Requested(n, false))
  {
    var early, late := Requested(n, true), Requested(n, false);
    DrainAppend(h, early, [StartFlag]);
    DrainAppend(h, [StartFlag], late);
    DrainOne(h, StartFlag, []);
    DrainOne(Drain(h, early), StartFlag, []);
    assert [StartFlag] + [] == [StartFlag];
    assert Drain(Serve(h, StartFlag), []) == Serve(h, StartFlag);
    FirstRequest(h, n);
  }

  lemma {:induction false} BeginTwice(h: Handler)
    requires Inv(h) && !h.prehandled
    ensures BeginIfStartPending(h, true) == BeginIfStartPending(Serve(h, StartFlag), true)
  {
    EndsTwice(h.engine);
  }

  lemma {:induction false} StartServed(h: Handler)
    requires Inv(h) && !h.prehandled
    ensures var g := Serve(h, StartFlag);
            && Inv(g) && !g.prehandled && R.Inv(g.engine.registers) && HoldsTheCurrent(g.engine.registers)
            && g.engine.direction == AtRest && g.engine.pending == g.engine.count == 0
  {
    EndReadInv(h.engine.registers);
  }

  lemma {:induction false} FirstRequest(h: Handler, n: nat)
    requires Inv(h) && !h.prehandled && n > 0
    ensures Drain(h, Requested(n, true)) == Drain(Serve(h, StartFlag), Requested(n, false)).(prehandled := true)
    ensures !Drain(Serve(h, StartFlag), Requested(n, false)).prehandled
  {
    hide Serve, Drain, BitAnd, BitXor, ShiftRight;
    var g, i, rest := Serve(h, StartFlag), TxDone(true, true), Requested(n - 1, true);
    StartServed(h);
    SameRequests(g, g, n);
    SameFirst(h);
    assert Requested(n, true) == [i] + rest;
    DrainOne(h, i, rest);
    DrainOne(g, i, rest);
  }

  lemma {:induction false} SameFirst(h: Handler)
    requires Inv(h) && !h.prehandled
    ensures Serve(h, TxDone(true, true)) == Serve(Serve(h, StartFlag), TxDone(true, true))
  {
    BeginTwice(h);
  }
}
