/** `hal_i2c_target_engine_t` and the interrupt handler in the form of the source: fields that
    each call updates in place, and the loop over the peripheral's interrupt indices. Each
    method is proved against the operation of module Engine or I2cTarget it implements. */
module TargetDriver {
  import opened Bits
  import opened R = RegisterMap
  import opened G = Engine
  import opened I = I2cTarget
  import opened Registers

  /** How the world answers during one event: failures of the weak compare-and-swap without
      a reason, and the answer of the page's callback. */
  datatype Answer = Answer(fails: nat, accepts: bool)

  class TransactionEngine {
    const registers: Registers
    var pending: uint16
    var count: nat
    var direction: Direction

    /** `hal_i2c_target_engine_init`. */
    constructor (regmap: Registers, ghost m: Map)
      requires regmap.Is(m)
      ensures registers == regmap && (this !in regmap.Footprint() ==> Is(G.Initial(m)))
    {
      registers, pending, count, direction := regmap, 0, 0, AtRest;
    }

    ghost function Footprint(): set<object>
      reads this, registers
    {
      {this} + registers.Footprint()
    }

    ghost predicate Fields(e: Engine)
      reads this
    {
      pending == e.pending && count == e.count && direction == e.direction
    }

    ghost predicate Is(e: Engine)
      reads this, registers.Footprint(), registers
    {
      this !in registers.Footprint() && registers.Is(e.registers) && Fields(e)
    }

    /** Sets the three fields, and nothing else. */
    method Put(ghost m: Map, pending: uint16, count: nat, direction: Direction)
      requires this !in registers.Footprint() && registers.Is(m)
      modifies this
      ensures Is(Engine(m, pending, count, direction))
    {
      this.pending, this.count, this.direction := pending, count, direction;
    }

    /** `hal_i2c_target_engine_begin_receive`. */
    method BeginReceive(ghost e: Engine)
      requires Is(e) && G.Inv(e)
      modifies Footprint()
      ensures Is(G.BeginReceive(e)) && registers.snapshots == old(registers.snapshots)
    {
      registers.EndRead(e.registers);
      Put(R.EndRead(e.registers), 0, 0, Receiving);
    }

    /** `hal_i2c_target_engine_begin_transmit`. */
    method BeginTransmit(ghost e: Engine)
      requires Is(e) && G.Inv(e)
      modifies Footprint()
      ensures Is(G.BeginTransmit(e)) && registers.snapshots == old(registers.snapshots)
    {
      registers.EndRead(e.registers);
      Put(R.EndRead(e.registers), 0, 0, Transmitting);
    }

    /** `hal_i2c_target_engine_end`, which `hal_i2c_target_engine_abort` calls. */
    method End(ghost e: Engine)
      requires Is(e) && G.Inv(e)
      modifies Footprint()
      ensures Is(G.End(e)) && registers.snapshots == old(registers.snapshots)
    {
      registers.EndRead(e.registers);
      Put(R.EndRead(e.registers), 0, 0, AtRest);
    }

    /** `hal_i2c_target_engine_receive`. */
    method Receive(ghost e: Engine, value: byte, a: Answer) returns (ok: bool)
      requires Is(e) && G.Inv(e)
      modifies Footprint()
      ensures Is(G.Receive(e, value)) && registers.snapshots == old(registers.snapshots)
      ensures ok == (e.direction == Receiving)
    {
      if direction != Receiving {
        return false;
      }
      if count == 0 {
        Put(e.registers, HighByte(value), 1, Receiving);
      } else if count == 1 {
        var address := WithLowByte(pending, value);
        registers.SetAddress(e.registers, address);
        Put(R.SetAddress(e.registers, address), address, 2, Receiving);
      } else {
        var result := registers.WriteCurrent(e.registers, value, a.accepts);
      }
      return true;
    }

    /** `hal_i2c_target_engine_transmit`. */
    method Transmit(ghost e: Engine, a: Answer) returns (value: byte)
      requires Is(e) && G.Inv(e)
      modifies Footprint()
      ensures Is(G.Transmit(e).engine) && registers.snapshots == old(registers.snapshots)
      ensures value == G.Transmit(e).value
    {
      if direction != Transmitting {
        return UNMAPPED_VALUE;
      }
      value := registers.ReadCurrent(e.registers, a.fails);
    }
  }

  lemma {:induction false} Sends(h: Handler) returns (e: Engine)
    requires I.Inv(h)
    ensures e == if h.engine.direction == Transmitting then h.engine else G.BeginTransmit(h.engine)
    ensures G.Inv(e)
    ensures I.TransmitByte(h) == h.(engine := G.Transmit(e).engine, sent := h.sent + [G.Transmit(e).value])
  {
    e := if h.engine.direction == Transmitting then h.engine else Step(h.engine, BeginsTransmit);
  }

  /** The globals of `hal_i2c_target` after initialisation, with the bytes put into STXDATA. */
  class Target {
    const engine: TransactionEngine
    var prehandled: bool
    var errors: uint32
    var unexpected: uint32
    var sent: Bytes

    constructor (engine: TransactionEngine)
      ensures this.engine == engine && !prehandled && errors == unexpected == 0 && sent == []
    {
      this.engine, prehandled, errors, unexpected, sent := engine, false, 0, 0, [];
    }

    ghost function Footprint(): set<object>
      reads this, engine, engine.registers
    {
      {this} + engine.Footprint()
    }

    ghost predicate Is(h: Handler)
      reads this, engine, engine.registers, engine.Footprint()
    {
      && this !in engine.Footprint() && engine.Is(h.engine)
      && prehandled == h.prehandled && errors == h.errors && unexpected == h.unexpected && sent == h.sent
    }

    /** `hal_i2c_target_begin_if_start_pending`; `startPending` is SSTART in RIS. */
    method BeginIfStartPending(ghost h: Handler, startPending: bool)
      requires Is(h) && I.Inv(h)
      modifies Footprint()
      ensures Is(I.BeginIfStartPending(h, startPending))
      ensures engine.registers.snapshots == old(engine.registers.snapshots)
    {
      if startPending {
        engine.End(h.engine);
        prehandled := true;
      }
    }

    /** `hal_i2c_target_receive_byte`. */
    method ReceiveByte(ghost h: Handler, value: byte, startPending: bool, a: Answer)
      requires Is(h) && I.Inv(h)
      modifies Footprint()
      ensures Is(I.ReceiveByte(I.BeginIfStartPending(h, startPending), value))
      ensures engine.registers.snapshots == old(engine.registers.snapshots)
    {
      BeginIfStartPending(h, startPending);
      ghost var e := I.BeginIfStartPending(h, startPending).engine;
      if engine.direction != Receiving {
        engine.BeginReceive(e);
        EngineKeeps(e, BeginsReceive);
        e := G.BeginReceive(e);
      }
      var ok := engine.Receive(e, value, a);
      if !ok {
        // The source counts an error here; the engine never turns the byte down.
        assert false;
      }
    }

    /** `hal_i2c_target_transmit_byte`; `requested` is TREQ. */
    method TransmitByte(ghost h: Handler, requested: bool, startPending: bool, a: Answer)
      requires Is(h) && I.Inv(h)
      modifies Footprint()
      ensures Is(I.Serve(h, TxDone(requested, startPending)))
      ensures engine.registers.snapshots == old(engine.registers.snapshots)
    {
      if requested {
        BeginIfStartPending(h, startPending);
        SendByte(I.BeginIfStartPending(h, startPending), a);
      }
    }

    method SendByte(ghost h: Handler, a: Answer)
      requires Is(h) && I.Inv(h)
      modifies Footprint()
      ensures Is(I.TransmitByte(h)) && engine.registers.snapshots == old(engine.registers.snapshots)
    {
      ghost var e := Sends(h);
      if engine.direction != Transmitting {
        engine.BeginTransmit(h.engine);
      }
      Emit(h, e, a);
    }

    /** Puts the engine's next byte into STXDATA. */
    method Emit(ghost h: Handler, ghost e: Engine, a: Answer)
      requires Is(h.(engine := e)) && G.Inv(e)
      modifies Footprint()
      ensures Is(h.(engine := G.Transmit(e).engine, sent := h.sent + [G.Transmit(e).value]))
      ensures engine.registers.snapshots == old(engine.registers.snapshots)
    {
      var value := engine.Transmit(e, a);
      sent := sent + [value];
    }

    /** `hal_i2c_target_abort`. */
    method Abort(ghost h: Handler)
      requires Is(h) && I.Inv(h)
      modifies Footprint()
      ensures Is(I.Abort(h)) && engine.registers.snapshots == old(engine.registers.snapshots)
    {
      errors := Add32(errors, 1);
      engine.End(h.engine);
      prehandled := false;
    }

    /** One turn of the loop of `I2C1_IRQHandler`. */
    method Serve(ghost h: Handler, i: Index, a: Answer)
      requires Is(h) && I.Inv(h)
      modifies Footprint()
      ensures Is(I.Serve(h, i)) && engine.registers.snapshots == old(engine.registers.snapshots)
    {
      match i
      case RxDone(value, startPending) => ReceiveByte(h, value, startPending, a);
      case TxDone(requested, startPending) => TransmitByte(h, requested, startPending, a);
      case StartFlag =>
        if prehandled {
          prehandled := false;
        } else {
          engine.End(h.engine);
        }
      case StopFlag =>
        engine.End(h.engine);
        prehandled := false;
      case ErrorFlag => Abort(h);
      case OtherFlag =>
        unexpected := Add32(unexpected, 1);
        Abort(h.(unexpected := Add32(h.unexpected, 1)));
    }

    /** `I2C1_IRQHandler`: serves the indices the peripheral returns until it returns none. */
    method Interrupt(ghost h: Handler, stream: seq<Index>, answers: seq<Answer>)
      requires Is(h) && I.Inv(h) && |answers| == |stream|
      modifies Footprint()
      ensures Is(I.Drain(h, stream)) && engine.registers.snapshots == old(engine.registers.snapshots)
    {
      ghost var now := h;
      for k := 0 to |stream|
        invariant I.Inv(now) && Is(now) && I.Drain(now, stream[k..]) == I.Drain(h, stream)
        invariant engine.registers.snapshots == old(engine.registers.snapshots)
      {
        Serve(now, stream[k], answers[k]);
        assert stream[k..][1..] == stream[k + 1..];
        now := I.Serve(now, stream[k]);
      }
    }
  }
}
