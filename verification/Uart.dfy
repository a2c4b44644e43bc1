/** `hal_uart` in the form of the source: the queue, the TX interrupt mask and the bytes
    that have gone to TXDATA, with the write loop preempted between its pushes. */
module Uart {
  import opened Bits
  import opened Options
  import opened Rings
  import R = RingMachine
  import U = UartMachine

  class Transmitter {
    const queue: RingBuffer
    var unmasked: bool
    var sent: seq<byte>

    /** What has gone to TXDATA is what the queue gave, whatever the writer is in the middle of. */
    ghost predicate Valid()
      reads this, queue, queue.storage
    {
      queue.Consistent() && sent == queue.machine.popped
    }

    ghost function Accepted(): seq<byte>
      reads this, queue
    {
      queue.machine.accepted
    }

    /** `hal_uart0_tx_init` with a queue that has just been initialised. */
    constructor (queue: RingBuffer)
      requires queue.Valid() && queue.machine.popped == []
      ensures Valid() && this.queue == queue && !unmasked && sent == []
    {
      this.queue := queue;
      unmasked, sent := false, [];
    }

    /** One turn of the service loop, on its way to v. */
    method SendOne(ghost v: U.Served, ghost start: seq<byte>, ghost left: nat) returns (ok: bool)
      requires Valid() && left > 0 && U.OnTheWay(v, start, queue.machine, sent, left)
      modifies this`sent, queue`machine, queue`readIndex
      ensures Valid()
      ensures ok ==> U.OnTheWay(v, start, queue.machine, sent, left - 1)
      ensures !ok ==> v.ring == queue.machine && v.drained && sent == start + v.out
    {
      U.OneByteSent(v, start, queue.machine, sent, left);
      var value;
      ok, value := queue.TryPop();
      if ok {
        sent := sent + [value];
      }
    }

    method ServiceLoop(room: nat)
      requires Valid()
      modifies this, queue`machine, queue`readIndex
      ensures Valid()
      ensures var v := U.Service(old(queue.machine), room);
              queue.machine == v.ring && sent == old(sent) + v.out && unmasked == (old(unmasked) && !v.drained)
    {
      ghost var v := U.Service(queue.machine, room);
      var queueEmpty, written := false, 0;
      while written < room
        invariant Valid() && written <= room && !queueEmpty && unmasked == old(unmasked)
        invariant U.OnTheWay(v, old(sent), queue.machine, sent, room - written)
      {
        var ok := SendOne(v, old(sent), room - written);
        if !ok {
          queueEmpty := true;
          break;
        }
        written := written + 1;
      }
      if queueEmpty {
        unmasked := false;
      }
    }

    /** `hal_uart0_tx_service` when `room` bytes fit into the transmit FIFO before TXFF. */
    method Service(room: nat)
      requires Valid()
      modifies this, queue`machine, queue`readIndex
      ensures Valid()
      ensures var v := U.Service(old(queue.machine), room);
              queue.machine == v.ring && sent == old(sent) + v.out && unmasked == (old(unmasked) && !v.drained)
      ensures Accepted() == old(Accepted()) && queue.machine.producer == old(queue.machine.producer)
      ensures room > |old(queue.Contents())| ==> sent == Accepted() && !unmasked
    {
      U.ServiceMeans(queue.machine, room);
      ServiceLoop(room);
    }

    /** The handler: it runs only while unmasked, once for each entry of `rooms`. It leaves the
        writer where it is. */
    method Interrupts(rooms: seq<nat>)
      requires Valid()
      modifies this, queue`machine, queue`readIndex
      ensures Valid() && Accepted() == old(Accepted()) && queue.machine.producer == old(queue.machine.producer)
      ensures old(sent) <= sent
      ensures old(unmasked) && !unmasked ==> queue.Contents() == []
      ensures !old(unmasked) ==> !unmasked && sent == old(sent)
      ensures old(queue.Contents()) == [] ==> queue.Contents() == []
    {
      for i := 0 to |rooms|
        invariant Valid() && Accepted() == old(Accepted()) && queue.machine.producer == old(queue.machine.producer)
        invariant old(sent) <= sent
        invariant old(unmasked) && !unmasked ==> queue.Contents() == []
        invariant !old(unmasked) ==> !unmasked && sent == old(sent)
        invariant old(queue.Contents()) == [] ==> queue.Contents() == []
      {
        if unmasked {
          U.ServiceMeans(queue.machine, rooms[i]);
          Service(rooms[i]);
        }
      }
    }

    /** A queued byte is behind an open mask. */
    ghost predicate Open()
      reads this, queue, queue.storage
      requires Valid()
    {
      queue.Contents() != [] ==> unmasked
    }

    /** One turn of the write loop: the accesses of `lib_ringbuf_try_push`, with interrupts
        before each of them. */
    method Offer(value: byte, isr: Gaps) returns (ok: bool)
      requires Valid() && queue.machine.producer.Idle?
      modifies this, queue, queue.storage
      ensures Valid() && queue.machine.producer.Idle? && old(sent) <= sent
      ensures Accepted() == if ok then old(Accepted()) + [value] else old(Accepted())
      ensures queue.droppedCount == if ok then old(queue.droppedCount) else Add32(old(queue.droppedCount), 1)
      ensures !ok && old(Open()) ==> Open()
      ensures !old(unmasked) ==> !unmasked
    {
      hide R.Next, R.Full;
      Interrupts(isr.load);
      var w := queue.LoadWrite(value);
      Interrupts(isr.test);
      ok := queue.TestRoom(value, w);
      if ok {
        Interrupts(isr.fill);
        queue.StoreSlot(w, value);
        Interrupts(isr.publish);
        queue.StoreWrite(w, value);
      }
    }

    /** The loop of the write: it accepts bytes until the first refusal. */
    method OfferAll(data: seq<byte>, isr: seq<Gaps>) returns (accepted: nat)
      requires Valid() && queue.machine.producer.Idle? && Open()
      modifies this, queue, queue.storage
      ensures Valid() && queue.machine.producer.Idle? && accepted <= |data| && old(sent) <= sent
      ensures Accepted() == old(Accepted()) + data[..accepted]
      ensures queue.droppedCount
           == if accepted == |data| then old(queue.droppedCount) else Add32(old(queue.droppedCount), 1)
      ensures Open() || accepted != 0
      ensures !old(unmasked) ==> !unmasked
    {
      accepted := 0;
      while accepted < |data|
        invariant Valid() && queue.machine.producer.Idle? && accepted <= |data|
        invariant Accepted() == old(Accepted()) + data[..accepted]
        invariant old(sent) <= sent && queue.droppedCount == old(queue.droppedCount)
        invariant Open() || accepted != 0
        invariant !old(unmasked) ==> !unmasked
        decreases |data| - accepted
      {
        var ok := Offer(data[accepted], if accepted < |isr| then isr[accepted] else QUIET);
        if !ok {
          return;
        }
        OneMore(old(Accepted()), data, accepted);
        accepted := accepted + 1;
      }
    }

    /** `hal_uart0_tx_write`, with interrupts before every access: those of isr[i] during
        attempt i, and those of `last` before the mask is opened. It accepts a prefix of its
        input, stops at the first refusal, which counts one drop, and never leaves a queued
        byte behind a mask. */
    method Write(data: seq<byte>, isr: seq<Gaps>, last: seq<nat>) returns (accepted: nat)
      requires Valid() && queue.machine.producer.Idle? && Open()
      modifies this, queue, queue.storage
      ensures Valid() && queue.machine.producer.Idle? && Open()
      ensures accepted <= |data| && Accepted() == old(Accepted()) + data[..accepted]
      ensures old(sent) <= sent <= Accepted()
      ensures queue.droppedCount
           == if accepted == |data| then old(queue.droppedCount) else Add32(old(queue.droppedCount), 1)
      ensures accepted != 0 ==> unmasked
      ensures accepted == 0 && !old(unmasked) ==> !unmasked
    {
      accepted := OfferAll(data, isr);
      Interrupts(last);
      if accepted != 0 {
        unmasked := true;
      }
    }
  }

  /** The interrupts that arrive before each access of one push; a number is the room each
      finds in the transmit FIFO. */
  datatype Gaps = Gaps(load: seq<nat>, test: seq<nat>, fill: seq<nat>, publish: seq<nat>)

  const QUIET := Gaps([], [], [], [])

  lemma {:induction false} OneMore(a: seq<byte>, data: seq<byte>, n: nat)
    requires n < |data|
    ensures a + data[..n + 1] == (a + data[..n]) + [data[n]]
  {
  }

  // ---- the baud-rate divisor ----

  /** `hal_uart_baud_divisor`: 64-bit arithmetic, so nothing wraps. */
  function BaudDivisor(clockHz: uint32, baudRate: uint32): Option<uint32> {
    if baudRate == 0 then None
    else
      var scaled := (clockHz * 8 / baudRate + 1) / 2;
      if scaled < 64 || scaled > 0x003f_ffff then None else Some(scaled)
  }

  /** d is 4 * clock / baud rounded to the nearest integer, halves up. */
  ghost predicate IsRounded(clockHz: nat, baudRate: nat, d: int) {
    2 * d * baudRate <= 8 * clockHz + baudRate < 2 * (d + 1) * baudRate
  }

  lemma {:induction false} RoundedIsUnique(clockHz: nat, baudRate: nat, d: int, e: int)
    requires baudRate > 0 && IsRounded(clockHz, baudRate, d) && IsRounded(clockHz, baudRate, e)
    ensures d == e
  {
    if d < e {
      ProductMonotone(2 * (d + 1), 2 * e, baudRate);
    } else if e < d {
      ProductMonotone(2 * (e + 1), 2 * d, baudRate);
    }
  }

  lemma {:induction false} ProductMonotone(a: int, b: int, m: nat)
    requires a <= b
    ensures a * m <= b * m
  {
  }

  /** Two floor divisions round exactly once. */
  lemma {:induction false} TwoDivisionsRound(clockHz: nat, baudRate: nat)
    requires baudRate > 0
    ensures IsRounded(clockHz, baudRate, (clockHz * 8 / baudRate + 1) / 2)
  {
    var q := clockHz * 8 / baudRate;
    var d := (q + 1) / 2;
    assert clockHz * 8 == baudRate * q + clockHz * 8 % baudRate;
    assert q * baudRate <= 8 * clockHz < (q + 1) * baudRate;
    ProductMonotone(2 * d, q + 1, baudRate);
    ProductMonotone(q + 2, 2 * (d + 1), baudRate);
    assert (q + 1) * baudRate == q * baudRate + baudRate;
    assert (q + 2) * baudRate == (q + 1) * baudRate + baudRate;
  }

  /** A divisor is produced exactly when the rounded quotient fits the registers, and then it
      is that quotient; the rate it gives is within 1/128 of the request. */
  lemma {:induction false} BaudDivisorIsNearest(clockHz: uint32, baudRate: uint32, d: int)
    requires baudRate > 0 && IsRounded(clockHz, baudRate, d)
    ensures BaudDivisor(clockHz, baudRate) == if 64 <= d <= 0x003f_ffff then Some(d) else None
    ensures 2 * (4 * clockHz - d * baudRate) <= baudRate && 2 * (d * baudRate - 4 * clockHz) <= baudRate
    ensures d >= 64 ==> 128 * (4 * clockHz - d * baudRate) <= d * baudRate
    ensures d >= 64 ==> 128 * (d * baudRate - 4 * clockHz) <= d * baudRate
  {
    TwoDivisionsRound(clockHz, baudRate);
    RoundedIsUnique(clockHz, baudRate, d, (clockHz * 8 / baudRate + 1) / 2);
    NearestBounds(clockHz, baudRate, d);
  }

  lemma {:induction false} NearestBounds(clockHz: nat, baudRate: nat, d: int)
    requires IsRounded(clockHz, baudRate, d)
    ensures 2 * (4 * clockHz - d * baudRate) <= baudRate && 2 * (d * baudRate - 4 * clockHz) <= baudRate
    ensures d >= 64 ==> 128 * (4 * clockHz - d * baudRate) <= d * baudRate
    ensures d >= 64 ==> 128 * (d * baudRate - 4 * clockHz) <= d * baudRate
  {
    var product := d * baudRate;
    assert 2 * d * baudRate == 2 * product;
    assert 2 * (d + 1) * baudRate == 2 * product + 2 * baudRate;
    if d >= 64 {
      ProductMonotone(64, d, baudRate);
    }
  }

  /** The two divisor registers. */
  function Ibrd(d: uint32): nat { d / 64 }
  function Fbrd(d: uint32): nat { BitAnd(d, 63) }

  lemma {:induction false} RegistersRecombine(clockHz: uint32, baudRate: uint32)
    requires BaudDivisor(clockHz, baudRate).Some?
    ensures var d := BaudDivisor(clockHz, baudRate).value;
            1 <= Ibrd(d) <= 65535 && Fbrd(d) < 64 && 64 * Ibrd(d) + Fbrd(d) == d
  {
    assert Pow2(6) == 64;
    AndMask(BaudDivisor(clockHz, baudRate).value, 6);
  }
}
