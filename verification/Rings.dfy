/** The two rings in the form of the source. `machine` follows the step machine, so what is
    proved there for every interleaving is about this code. */
module Rings {
  import opened Bits
  import R = RingMachine

  /** `lib_ringbuf_t`. */
  class RingBuffer {
    const storage: array<byte>
    const capacity: uint32
    const mask: uint32
    var writeIndex: uint32
    var readIndex: uint32
    var droppedCount: uint32
    ghost var machine: R.State<byte>

    /** The fields show the machine's state, whatever the producer is in the middle of. */
    ghost predicate Consistent()
      reads this, storage
    {
      && storage.Length == capacity && mask + 1 == capacity
      && R.Inv(machine) && machine.consumer.Waiting? && !machine.lax
      && machine.slots == storage[..]
      && machine.write == writeIndex && machine.read == readIndex && machine.dropped == droppedCount
    }

    ghost predicate Valid()
      reads this, storage
    {
      Consistent() && machine.producer.Idle?
    }

    ghost function Contents(): seq<byte>
      reads this, storage
      requires Consistent()
    {
      machine.Contents()
    }

    /** `lib_ringbuf_init` once it has accepted the capacity; see `Init`. */
    constructor (storage: array<byte>)
      requires storage.Length < W32 && IsPowerOfTwo(storage.Length)
      ensures Valid() && this.storage == storage && Contents() == [] && capacity == storage.Length
      ensures machine == R.Initial(storage[..], false)
    {
      this.storage, capacity, mask := storage, storage.Length, storage.Length - 1;
      writeIndex, readIndex, droppedCount := 0, 0, 0;
      machine := R.Initial(storage[..], false);
      new;
      R.InitialInv(storage[..], false);
    }

    static method Init(storage: array<byte>) returns (ring: RingBuffer?)
      requires storage.Length < W32
      ensures ring == null <==> forall k: nat :: storage.Length != Pow2(k)
      ensures ring != null ==> ring.Valid() && fresh(ring) && ring.storage == storage && ring.Contents() == []
    {
      if !IsPowerOfTwo(storage.Length) {
        forall k: nat
          ensures storage.Length != Pow2(k)
        {
          PowersPassTheTest(k);
        }
        return null;
      }
      ghost var k := PowerOfTwoTest(storage.Length);
      assert storage.Length == Pow2(k);
      ring := new RingBuffer(storage);
    }

    // The four accesses of a push, each one step of the machine.

    method LoadWrite(ghost value: byte) returns (w: uint32)
      requires Valid()
      modifies this`machine
      ensures Consistent() && machine == R.Next(old(machine), R.Push(value))
      ensures machine == old(machine).(producer := R.HasWrite(value, w)) && w == machine.write
    {
      R.NextInv(machine, R.Push(value));
      w := writeIndex;
      machine := R.Next(machine, R.Push(value));
    }

    method TestRoom(ghost value: byte, w: uint32) returns (room: bool)
      requires Consistent() && machine.producer == R.HasWrite(value, w)
      modifies this`machine, this`droppedCount
      ensures Consistent() && machine == R.Next(old(machine), R.TestFull)
      ensures room == !R.Full(old(machine), w)
      ensures machine == old(machine).(producer := machine.producer, dropped := machine.dropped,
                                       refused := machine.refused)
      ensures machine.producer == if room then R.Filling(value, w) else R.Idle
      ensures droppedCount == if room then old(droppedCount) else Add32(old(droppedCount), 1)
    {
      R.NextInv(machine, R.TestFull);
      machine := R.Next(machine, R.TestFull);
      if Sub32(w, readIndex) == capacity {
        droppedCount := Add32(droppedCount, 1);
        return false;
      }
      return true;
    }

    method StoreSlot(w: uint32, value: byte)
      requires Consistent() && machine.producer == R.Filling(value, w)
      modifies this`machine, storage
      ensures Consistent() && machine == R.Next(old(machine), R.FillSlot)
      ensures machine == old(machine).(slots := machine.slots, producer := R.Filled(value, w))
    {
      R.NextInv(machine, R.FillSlot);
      ghost var slot := R.Slot(machine, w);
      machine := R.Next(machine, R.FillSlot);
      storage[BitAnd(w, mask)] := value;
      assert storage[..] == old(storage[..])[slot := value];
    }

    method StoreWrite(w: uint32, ghost value: byte)
      requires Consistent() && machine.producer == R.Filled(value, w)
      modifies this`machine, this`writeIndex
      ensures Valid() && machine == R.Next(old(machine), R.Publish)
      ensures machine == old(machine).(write := machine.write, producer := R.Idle,
                                       accepted := old(machine).accepted + [value])
    {
      R.NextInv(machine, R.Publish);
      machine := R.Next(machine, R.Publish);
      writeIndex := Add32(w, 1);
    }

    /** Refused, and counted, exactly when full; otherwise appended at the back. */
    method TryPush(value: byte) returns (ok: bool)
      requires Valid()
      modifies this, storage
      ensures Valid() && machine == R.Pushed(old(machine), value, [])
      ensures ok == (|old(Contents())| < capacity)
      ensures Contents() == if ok then old(Contents()) + [value] else old(Contents())
      ensures droppedCount == if ok then old(droppedCount) else Add32(old(droppedCount), 1)
    {
      hide R.Next, R.Pushed, R.Full;
      R.PushedMeans(machine, value, []);
      R.PushedInSteps(machine, value);
      var w := LoadWrite(value);
      ok := TestRoom(value, w);
      if ok {
        StoreSlot(w, value);
        StoreWrite(w, value);
      }
    }

    /** Fails exactly when empty; otherwise removes and returns the front. */
    method TryPop() returns (ok: bool, value: byte)
      requires Consistent()
      modifies this`machine, this`readIndex
      ensures Consistent() && machine == R.Popped(old(machine))
      ensures ok == (old(Contents()) != [])
      ensures ok ==> value == old(Contents())[0] && Contents() == old(Contents())[1..]
      ensures !ok ==> Contents() == old(Contents())
      ensures droppedCount == old(droppedCount)
    {
      hide BitAnd, R.ProducerAgrees, R.ConsumerAgrees;
      R.PoppedMeans(machine);
      R.FrontSlot(machine);
      ghost var before := machine;
      machine := R.Popped(machine);
      var r := readIndex;
      if r == writeIndex {
        return false, 0;
      }
      assert R.Slot(before, r) == BitAnd(r, mask);
      value := storage[BitAnd(r, mask)];
      readIndex := Add32(r, 1);
      return true, value;
    }
  }

  datatype Command = Command(address: uint16, value: byte)

  /** `lib_regmap_command_queue_t`: fills a slot one field at a time. */
  class CommandQueue {
    const storage: array<Command>
    const capacity: uint32
    var writeIndex: uint32
    var readIndex: uint32
    var droppedCount: uint32
    ghost var machine: R.State<Command>

    ghost predicate Valid()
      reads this, storage
    {
      && storage.Length == capacity
      && R.Inv(machine) && machine.producer.Idle? && machine.consumer.Waiting? && machine.lax
      && machine.slots == storage[..]
      && machine.write == writeIndex && machine.read == readIndex && machine.dropped == droppedCount
    }

    ghost function Contents(): seq<Command>
      reads this, storage
      requires Valid()
    {
      machine.Contents()
    }

    constructor (storage: array<Command>)
      requires storage.Length < W32 && IsPowerOfTwo(storage.Length)
      ensures Valid() && this.storage == storage && Contents() == [] && capacity == storage.Length
    {
      this.storage, capacity := storage, storage.Length;
      writeIndex, readIndex, droppedCount := 0, 0, 0;
      machine := R.Initial(storage[..], true);
      new;
      R.InitialInv(storage[..], true);
    }

    /** `lib_regmap_command_queue_enqueue`. */
    method Enqueue(address: uint16, value: byte) returns (ok: bool)
      requires Valid()
      modifies this, storage
      ensures Valid()
      ensures exists half :: machine == R.Pushed(old(machine), Command(address, value), [half])
      ensures ok == (|old(Contents())| < capacity)
      ensures Contents() == if ok then old(Contents()) + [Command(address, value)] else old(Contents())
      ensures droppedCount == if ok then old(droppedCount) else Add32(old(droppedCount), 1)
    {
      ghost var command := Command(address, value);
      var w, r := writeIndex, readIndex;
      ghost var slot := BitAnd(w, capacity - 1);
      ghost var half := storage[slot].(address := address);
      hide BitAnd, R.Pushed, R.Scribbled, R.ProducerAgrees, R.ConsumerAgrees;
      R.PushedMeans(machine, command, [half]);
      TwoStores(machine, half, command);
      assert R.Slot(machine, w) == slot;
      machine := R.Pushed(machine, command, [half]);
      if Sub32(w, r) >= capacity {
        droppedCount := Add32(droppedCount, 1);
        return false;
      }
      storage[BitAnd(w, capacity - 1)] := storage[BitAnd(w, capacity - 1)].(address := address);
      storage[BitAnd(w, capacity - 1)] := storage[BitAnd(w, capacity - 1)].(value := value);
      assert storage[..] == old(storage[..])[slot := half][slot := command];
      writeIndex := Add32(w, 1);
      return true;
    }

    /** `lib_regmap_command_queue_try_pop`. */
    method TryPop() returns (ok: bool, command: Command)
      requires Valid()
      modifies this
      ensures Valid() && machine == R.Popped(old(machine))
      ensures ok == (old(Contents()) != [])
      ensures ok ==> command == old(Contents())[0] && Contents() == old(Contents())[1..]
      ensures !ok ==> Contents() == old(Contents())
      ensures droppedCount == old(droppedCount)
    {
      hide BitAnd, R.ProducerAgrees, R.ConsumerAgrees;
      R.PoppedMeans(machine);
      R.FrontSlot(machine);
      ghost var before := machine;
      machine := R.Popped(machine);
      var r, w := readIndex, writeIndex;
      if r == w {
        return false, Command(0, 0);
      }
      assert R.Slot(before, r) == BitAnd(r, capacity - 1);
      command := storage[BitAnd(r, capacity - 1)];
      readIndex := Add32(r, 1);
      return true, command;
    }
  }

  /** A slot filled in two stores. */
  lemma {:induction false} TwoStores(s: R.State<Command>, half: Command, command: Command)
    requires R.WellFormed(s) && s.producer.Idle?
    ensures R.Pushed(s, command, [half])
         == if R.Full(s, s.write) then s.(dropped := Add32(s.dropped, 1), refused := s.refused + 1)
            else s.(slots := s.slots[R.Slot(s, s.write) := half][R.Slot(s, s.write) := command],
                    write := Add32(s.write, 1), accepted := s.accepted + [command])
  {
    assert [half][1..] == [];
    var once := s.(slots := s.slots[R.Slot(s, s.write) := half]);
    assert R.Scribbled(s, s.write, [half]) == R.Scribbled(once, s.write, []) == once;
  }
}
