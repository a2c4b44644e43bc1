# Verification model of the MSPM firmware platform

A Dafny 4.11 model of the parts of this repository where several contexts share state or
where bytes must survive faults, with proofs of what they promise. `dafny verify
dfyconfig.toml` checks everything.

## What is modelled

* **Snapshots and the register map** (`lib/lib_regmap.c`). `SnapshotWord` is the packed
  32-bit word. `SnapshotMachine` is the protocol as a step machine: one publisher and any
  number of readers, one shared access per step, so a run is an arbitrary interleaving down
  to single byte stores. `Snapshot` is the code, with two byte arrays and an atomic word
  (`Atomics`); a ghost log ties each execution to a run of the machine. `RegisterMap` states
  each map operation on values; `Registers` is `lib_regmap_t` over snapshot objects.
* **The I2C target** (`hal/hal_i2c_target_engine.c`, `hal/hal_i2c_target.c`). `Eeprom` is the
  device the bus sees, `Engine` the transaction engine with the main loop publishing between
  its calls, and the proof that the second refines the first. `I2cTarget` is the interrupt
  handler and the order of events it needs, `TargetDevice` the two together: whole
  interrupts and publishes against the device. `TargetDriver` has both in the form of the
  source.
* **Rings and the UART** (`lib/lib_ringbuf.c`, `hal/hal_uart.c`). `RingMachine` is one
  producer and one consumer on wrapping indices, generic over the element, used for the byte
  ring and for the command queue, whose slots are filled in two stores. `UartMachine` adds
  the write loop, the interrupt and its mask. `Rings` and `Uart` are the code.
* **The crash record** (`lib/lib_crash.c`). `Crc32` holds the algebra of the CRC,
  `CrcPolynomial` its definition by polynomial division, `CrashRecord` the record as memory
  that loses power after any store.
* **The image tool** (`tools/stamp_image_identity.py`). `ImageLayout` paints segments,
  `ImageIdentity` is the 64-byte block, `ImageTool` is stamp and verify over a mutable file,
  `IntelHex` the parser, `ImageFiles` the checks of BIN and HEX files.
* **The I2C controller** (`hal/hal_i2c_controller.c`). `Controller` is the polled driver over
  an arbitrary trace of register reads.

`Bits` and `Endian` hold integer widths, the bit operators of C and byte orders, `Options` a
value that may be missing.

## What the model takes for granted

* One core, and stores in program order: fences and the errata delays have no counterpart.
* NULL guards are preconditions. Hardware reads are inputs, free to be anything.
* An interrupt handler runs to completion before the code it interrupted goes on.
* The two buffers of a snapshot are different storage, and one register map owns its
  snapshots, as the boards set them up.
* The weak compare-and-swap may fail for no reason any finite number of times; the helper of
  this core never does.
* A register map method takes the value its fields and snapshots stand for as a ghost
  argument, because publishes change the snapshots between its calls.
* The ELF parser's results (program headers, the identity section, `__data_load_end`) are
  inputs that stamping does not change.

## What the proofs found

* The refusal in `lib_regmap_snapshot_publish` for a changed active bit is dead code with one
  publisher, and so is the saturation branch of acquire for a register map.
* The error count in `hal_i2c_target_receive_byte` is dead code: the engine never turns down
  a byte there.
* `hal_i2c_target_begin_if_start_pending` relies on the START being the next index after the
  data event. A second received byte served before it restarts the transaction
  (`I2cTarget.OnlyOneByteMayOvertake`); a second transmitted byte does no harm
  (`I2cTarget.RequestsMayOvertake`).
* `stamp` fails with a packing error, not with one of its own messages, when the identity
  block ends 2^32 bytes or more after the flash origin (`ImageTool.SpanMayNotFit`).
* `stamp` checks itself against the layout it read before writing, so it succeeds on a file
  whose identity overlaps covered content. `ImageTool.StampThenVerify` says exactly when the
  stamped file keeps that layout.

## Model

| member | source | states |
|---|---|---|
| `SnapshotMachine.NoTearing` | lib/lib_regmap.c:29-69 | In every interleaving of the publisher's single accesses with any number of readers, a byte read under a latch is the byte of the one version that was current when the latch was taken. |
| `SnapshotMachine.OneVersionPerTransaction` | lib/lib_regmap.c:29-69 | Two reads by one holder, any number of steps apart, come from the same complete version. |
| `SnapshotMachine.RunInv` | lib/lib_regmap.c:186-223 | Every state of every run: the word counts the holders exactly, the active buffer is the last version, holders are safe, and the buffer being filled has no holder. |
| `SnapshotMachine.AtMostOneBehind` | lib/lib_regmap.c:198-223 | No reader ever holds a version more than one behind the current one. |
| `SnapshotMachine.RefusedExactlyWhenHeld` | lib/lib_regmap.c:198-203 | A publish is refused at its check if and only if the version before the current one is held at its load of the word. |
| `SnapshotMachine.ActiveBitNeverChangesUnderThePublisher` | lib/lib_regmap.c:210-215 | The refusal for a changed active bit is unreachable in every run. |
| `SnapshotMachine.SwapPublishes` | lib/lib_regmap.c:216-221 | An attempt that no reader overtook and that does not fail spuriously makes exactly the copied data the next version. |
| `SnapshotMachine.CounterCountsRefusals` | lib/lib_regmap.c:24-27 | The refusal counter is, modulo 2^32, the number of steps so far that ended a publish without publishing. |
| `SnapshotMachine.TurnedAwayExactlyWhenSaturated` | lib/lib_regmap.c:40-56 | A reader is turned away if and only if 32767 readers held the active buffer when it last looked at the word, however stale that look is. |
| `SnapshotWord.AcquireIncrements` | lib/lib_regmap.c:48-50 | Adding the shifted one to the packed word increments the active buffer's count and nothing else, below the limit. |
| `SnapshotWord.ReleaseDecrements` | lib/lib_regmap.c:60-68 | Subtracting it decrements the count of a held buffer and nothing else. |
| `SnapshotWord.FlipToggles` | lib/lib_regmap.c:216-216 | The exclusive-or toggles the active bit and leaves both counts. |
| `SnapshotWord.Fields` | lib/lib_regmap.c:14-22 | Shift and mask read each field back from the packed word, for all counts up to 32767. |
| `SnapshotWord.AcquireNeedsTheGuard` | lib/lib_regmap.c:43-50 | For either buffer, at the limit an increment would leave a count of zero; from buffer 0 it would also change the count of buffer 1. |
| `SnapshotWord.ReleaseNeedsAHolder` | lib/lib_regmap.c:60-68 | For either buffer, releasing one that nobody holds would leave a count of 32767; from buffer 0 it would also change the count of buffer 1. |
| `Atomics.Word.CompareExchange` | arch/arch_atomic_cm0.c:18-47 | Exchange exactly when the word has the expected value; report what was there; leave the interrupt mask as it was. |
| `Atomics.Word.FetchSub` | arch/arch_atomic_cm0.c:49-67 | Wrapping subtraction with the previous value returned; the interrupt mask is left as it was. |
| `Snapshot.Snapshot.Init` | lib/lib_regmap.c:162-184 | Refuses a length of zero; otherwise each byte of both buffers is that of the data, or 0 when there is none, and a run of the machine begins. |
| `Snapshot.Snapshot.constructor` | lib/lib_regmap.c:173-182 | The loop fills both buffers; the word and the counter are zero. |
| `Snapshot.Snapshot.Acquire` | lib/lib_regmap.c:29-58 | The loop takes exactly the machine's acquire, or fails exactly at the limit, for any number of spurious failures. |
| `Snapshot.Snapshot.Release` | lib/lib_regmap.c:60-69 | The machine's release of the buffer held. |
| `Snapshot.Snapshot.ReadByte` | lib/lib_regmap.c:307-312 | A byte of a latched buffer is the byte of the version current at its acquire. |
| `Snapshot.Snapshot.Publish` | lib/lib_regmap.c:186-223 | With interrupts between any two accesses: the execution is a run of the machine; a wrong length does nothing; otherwise refused exactly when the previous version is held at the load, and a success makes the data the current version in one step. |
| `Snapshot.Snapshot.SwapLoop` | lib/lib_regmap.c:210-222 | The compare-and-swap loop ends and publishes, whatever the interrupts and spurious failures; its refusal branch is dead. |
| `RegisterMap.FindPageMeans` | lib/lib_regmap.c:82-101 | Lookup returns page p if and only if first <= address < first + length for p, and none if and only if that holds for no page. |
| `RegisterMap.LatchAccounting` | lib/lib_regmap.c:282-289 | The reader counts in all words sum to one exactly when a page is latched, else to zero. |
| `RegisterMap.EndReadInv` | lib/lib_regmap.c:282-289 | Ending a read releases the latch, keeps the invariant and changes nothing that is published. |
| `RegisterMap.AcquireInv` | lib/lib_regmap.c:301-305 | An unlatched map can always acquire: the saturation branch is never taken, and the version latched is the current one. |
| `RegisterMap.RelatchInv` | lib/lib_regmap.c:299-306 | A read latches exactly the page that holds the address, or nothing, and publishes nothing. |
| `Registers.Accepts` | lib/lib_regmap.c:237-256 | The loop, which compares neighbours only, accepts exactly the tables whose pages are well formed, disjoint and ascending. |
| `Registers.NeighboursSuffice` | lib/lib_regmap.c:242-256 | What init demands, in numbers: lengths of at least 1, ends of at most 65536, snapshots of the page's length, a known access with a callback if it writes, and each page starting at or after the end of the one before. That is the same as all pages being disjoint and ascending. |
| `Registers.Registers.Init` | lib/lib_regmap.c:230-262 | Accepts exactly those tables and leaves a refused map unchanged; the accepted map starts at address 0 with no latch. |
| `Registers.Registers.FindPage` | lib/lib_regmap.c:82-101 | The search loop finds the first page in the table with first <= address < first + length, or none. |
| `Registers.Registers.EndRead` | lib/lib_regmap.c:277-289 | The fields and the snapshot object change as the map operation says. |
| `Registers.Registers.ReadCurrent` | lib/lib_regmap.c:291-316 | Value and new state of the map operation, over snapshot objects updated in place; the pointer wraps at 2^16. |
| `Registers.Registers.WriteCurrent` | lib/lib_regmap.c:318-336 | State of the map operation; the result is ignored, queued or rejected by whether a read-write page holds the address and its callback accepts. |
| `Registers.Registers.SetAddress` | lib/lib_regmap.c:264-271 | Ends the read and moves the pointer. |
| `Engine.Simulation` | hal/hal_i2c_target_engine.c:17-79 | Every engine operation, and every single access of a publish, is the step of the paged EEPROM it means, with the same byte on the bus, and keeps the invariant. |
| `Engine.EngineRefinesEeprom` | hal/hal_i2c_target_engine.c:17-79 | Every run of the engine with publishes interleaved access by access is a run of the EEPROM with whole publishes. |
| `Engine.NothingHeldOutsideReads` | hal/hal_i2c_target_engine.c:17-83 | In every run the counts of all words sum to one exactly while a page is latched, which is only in a read; after a START, STOP or abort nothing is held. |
| `Engine.VisitReadsOneVersion` | lib/lib_regmap.c:291-316 | On the wire: the bytes of one visit to a page are those of the version current when the visit began, whatever is published meanwhile. |
| `Engine.ReceiveSimulated` | hal/hal_i2c_target_engine.c:41-59 | The first byte, the second byte and each data byte do what the EEPROM does; outside a write a byte is turned down. |
| `Engine.TransmitSimulated` | hal/hal_i2c_target_engine.c:61-68 | A byte sent is the EEPROM's byte; outside a read it is 0xff and nothing changes. |
| `Eeprom.WriteTransaction` | hal/hal_i2c_target_engine.c:41-59 | A burst b0, b1, d0.. sets the address to b0*256+b1, offers each d_i to the page at (address+i) mod 65536 only if that page is read-write, and advances; fewer than two bytes change nothing. |
| `Eeprom.OfferGoesToThePage` | lib/lib_regmap.c:327-333 | A data byte at an address within first <= address < first + length of a page is offered to that page if it is read-write, and to nobody otherwise or elsewhere. |
| `Eeprom.AddressedRead` | hal/hal_i2c_target_engine.c:17-68 | After a write of two bytes high, low and a START for reading, the first read delivers byte 256*high + low - first of what the page that holds that address shows at that moment, whatever was published before. |
| `Eeprom.ReadsAdvance` | lib/lib_regmap.c:314-314 | The pointer after n bytes read is the start plus n modulo 65536. |
| `Eeprom.UnmappedRead` | lib/lib_regmap.c:293-315 | A read of an address outside the bounds of every page delivers 0xff; so does one outside a read transaction, which changes nothing. |
| `Eeprom.OneVersionPerVisit` | lib/lib_regmap.c:291-316 | A contiguous run of reads in one page delivers one version, with publishes in between. |
| `TargetDriver.TransactionEngine.BeginReceive` | hal/hal_i2c_target_engine.c:17-27 | Fields and register map as the engine operation says. |
| `TargetDriver.TransactionEngine.BeginTransmit` | hal/hal_i2c_target_engine.c:29-39 | Fields and register map as the engine operation says. |
| `TargetDriver.TransactionEngine.Receive` | hal/hal_i2c_target_engine.c:41-59 | State of the engine operation; accepted exactly while receiving. |
| `TargetDriver.TransactionEngine.Transmit` | hal/hal_i2c_target_engine.c:61-68 | State and byte of the engine operation. |
| `TargetDriver.TransactionEngine.End` | hal/hal_i2c_target_engine.c:70-83 | Fields and register map as the engine operation says. |
| `I2cTarget.ReorderingIsHarmless` | hal/hal_i2c_target.c:59-104 | When each START seen pending is the next index returned, draining any stream gives the engine, register map, counters and bytes of wire order, and leaves the flag clear. |
| `I2cTarget.OneSwap` | hal/hal_i2c_target.c:59-65 | One data event ahead of its START, then the START, is the START and then the data event. |
| `I2cTarget.OnlyOneByteMayOvertake` | hal/hal_i2c_target.c:59-84 | For received bytes the rule is exact: n bytes served before the START they were pending behind give the result of wire order if and only if n is 1. |
| `I2cTarget.RequestsMayOvertake` | hal/hal_i2c_target.c:86-98 | Any number of requests for bytes may be served before their START: state and bytes are those of wire order. |
| `I2cTarget.EachByteIsTheFirst` | hal/hal_i2c_target.c:59-65 | While SSTART stays raised every received byte restarts the transaction and is taken for the first of the address. |
| `I2cTarget.CountersAndFlag` | hal/hal_i2c_target.c:100-104 | After any stream, in any order: the error count has grown by the error and unknown indices, the other count by the unknown ones, modulo 2^32, and the flag is up exactly if some index overtook its START and no START, STOP or error came since. |
| `TargetDevice.TargetIsTheDevice` | hal/hal_i2c_target.c:171-218 | In every life of the target, with publishes interleaved access by access between interrupts that keep the rule, state and bytes sent are those of the EEPROM on the bus events in wire order and whole publishes. |
| `TargetDevice.ServeOnWire` | hal/hal_i2c_target.c:184-216 | One index in wire order is the device's step: it begins a write or read where none is under way, and ends everything on START, STOP and errors. |
| `TargetDriver.Target.ReceiveByte` | hal/hal_i2c_target.c:67-84 | The handler's step; the branch that counts a byte turned down is dead. |
| `TargetDriver.Target.TransmitByte` | hal/hal_i2c_target.c:86-98 | The handler's step, with the byte it puts into STXDATA. |
| `TargetDriver.Target.Serve` | hal/hal_i2c_target.c:184-216 | One index of any kind: globals, engine and register map change as the handler function says. |
| `TargetDriver.Target.Interrupt` | hal/hal_i2c_target.c:171-218 | The loop over the indices drains the stream. |
| `RingMachine.FirstInFirstOut` | lib/lib_ringbuf.c:23-59 | In every interleaving, across any number of index wraps: what is popped is a prefix of what was accepted, occupancy is at most the capacity, and drops are the refusals modulo 2^32. |
| `RingMachine.StoreKeepsLive` | lib/lib_ringbuf.c:36-36 | A store into the free slot, and each half of a two-field store, leaves every live slot as it is. |
| `RingMachine.StepMeansQueueOperation` | lib/lib_ringbuf.c:23-59 | Each step is one operation of an unbounded queue, or none. |
| `RingMachine.PushIsItsSteps` | lib/lib_ringbuf.c:23-40 | An undisturbed push is the sequence of its steps. |
| `RingMachine.PopIsItsSteps` | lib/lib_ringbuf.c:42-59 | An undisturbed pop is the sequence of its steps. |
| `Bits.WrapKeepsSlot` | lib/lib_ringbuf.c:36-36 | A power-of-two mask of an index that wrapped at 2^32 is the remainder of the unwrapped count. |
| `Bits.PowerOfTwoTest` | lib/lib_ringbuf.c:5-7 | The mask test accepts only powers of two. |
| `Bits.BitByBit` | lib/lib_crash.c:23-57 | Bit k of an and, or and exclusive-or is the and, or and exclusive-or of the bits k. |
| `Rings.RingBuffer.Init` | lib/lib_ringbuf.c:9-21 | Fails exactly when the capacity is no power of two. |
| `Rings.RingBuffer.TryPush` | lib/lib_ringbuf.c:23-40 | Refused and counted exactly when full, else appended; the state is that of the machine. |
| `Rings.RingBuffer.TryPop` | lib/lib_ringbuf.c:42-59 | Fails exactly when empty, else removes the front. |
| `Rings.CommandQueue.Enqueue` | lib/lib_regmap.c:117-139 | Both fields of the command are appended, or the refusal is counted exactly when full. |
| `Rings.CommandQueue.TryPop` | lib/lib_regmap.c:141-155 | Fails exactly when empty, else removes the front command. |
| `UartMachine.NeverStranded` | hal/hal_uart.c:56-72 | In every preemption: a queued byte implies that the interrupt is unmasked or the write call has accepted bytes and has yet to unmask it; the bytes sent are a prefix of those accepted. |
| `UartMachine.WriteAcceptsAPrefix` | hal/hal_uart.c:113-133 | A write call appends exactly a prefix of its input, whatever interrupts it, and leaves no queued byte masked. |
| `UartMachine.InterruptDrains` | hal/hal_uart.c:56-72 | An interrupt with more room than queued bytes sends them all and masks itself; with less it fills the room and stays unmasked. |
| `UartMachine.MaskMoves` | hal/hal_uart.c:127-133 | The mask opens at the end of every write that accepted something and nowhere else; it closes in every interrupt with more room than queued bytes and nowhere else. |
| `UartMachine.ServiceMeans` | hal/hal_uart.c:60-71 | What the service loop sends and leaves, for any room in the FIFO. |
| `Uart.Transmitter.Service` | hal/hal_uart.c:56-72 | The loop computes exactly that. |
| `Uart.Transmitter.Offer` | lib/lib_ringbuf.c:23-40 | One push with interrupts before each of its four accesses: appended, or refused and counted; the interrupts leave the writer where it is. |
| `Uart.Transmitter.Write` | hal/hal_uart.c:113-133 | Preempted before every access: accepts a prefix, counts one drop if it stops early, never leaves a queued byte behind a mask, and opens the mask only if it accepted something. |
| `Uart.BaudDivisorIsNearest` | hal/hal_uart.c:24-37 | The divisor is 4*clock/baud rounded half up, produced exactly when it fits; its error is at most half a step and the rate is within 1/128. |
| `Uart.TwoDivisionsRound` | hal/hal_uart.c:29-30 | Two floor divisions round once. |
| `Uart.RegistersRecombine` | hal/hal_uart.c:97-98 | IBRD is in 1..65535, FBRD is below 64, and they recombine to the divisor. |
| `Crc32.Compute` | lib/lib_crash.c:11-28 | The nested loops compute the bitwise CRC; what that is in the terms of the standards is the next row. |
| `CrcPolynomial.CrcIsTheRemainder` | lib/lib_crash.c:11-28 | A word is the CRC of the data if and only if its complement, bits reversed, is the remainder of the message times x^32, with the first 32 bits inverted, by x^32+x^26+x^23+x^22+x^16+x^12+x^11+x^10+x^8+x^7+x^5+x^4+x^2+x+1 over the two-element field (ISO 3309, which RFC 1952 refers to). |
| `CrcPolynomial.RemainderIsUnique` | lib/lib_crash.c:11-28 | Division by that generator has one quotient and one remainder below 2^32. |
| `CrcPolynomial.StepIsTimesX` | lib/lib_crash.c:23-23 | One turn of the inner loop multiplies by x and reduces by the generator. |
| `Crc32.CrcFromTable` | tools/stamp_image_identity.py:308-309 | The bitwise CRC is the table-driven one of section 8 of RFC 1952, which zlib computes, starting from and complemented in 0xFFFFFFFF. |
| `Crc32.TableEntry` | tools/stamp_image_identity.py:308-309 | The entries of that table at 1, 2, 4, ..., 128 are 0x77073096, 0xEE0E612C, 0x076DC419, 0x0EDB8832, 0x1DB71064, 0x3B6E20C8, 0x76DC4190 and 0xEDB88320. |
| `Crc32.TableIsLinear` | tools/stamp_image_identity.py:308-309 | The table is linear over exclusive-or, so these eight entries fix it. |
| `Crc32.BitBurstDetected` | lib/lib_crash.c:11-28 | Inputs that differ only inside 32 consecutive bits, wherever those start in a byte, never share a CRC. |
| `Crc32.BitStepLinear` | lib/lib_crash.c:23-23 | A bit step is linear over exclusive-or. |
| `Crc32.BitStepInjective` | lib/lib_crash.c:23-23 | A bit step is injective on 32-bit states. |
| `Crc32.RegisterInjective` | lib/lib_crash.c:16-25 | Different register states stay different over any data. |
| `Crc32.BurstDetected` | lib/lib_crash.c:11-28 | Inputs that differ only in at most four consecutive bytes never share a CRC. |
| `Crc32.WindowChangeDetected` | tools/stamp_image_identity.py:308-309 | The same for two inputs of any equal length that differ only inside a window of four bytes. |
| `CrashRecord.ResetAnywhere` | lib/lib_crash.c:154-193 | A reset after any store of note_boot or capture, from arbitrary memory, leaves a record that is invalid, or decodes to exactly the old one, or, only after the last store, to exactly the new one. |
| `CrashRecord.StaleCrcIsRejected` | lib/lib_crash.c:163-164 | The window in which the reset cause is new and the CRC is old is always invalid. |
| `CrashRecord.CompletedOperation` | lib/lib_crash.c:154-193 | An uninterrupted operation leaves a valid record with its effect on the old one. |
| `CrashRecord.CaptureRecords` | lib/lib_crash.c:167-193 | The record after a completed capture, in numbers: reason 1 or 2 as given and any other word as 3, the old sequence plus 1 modulo 2^32 or 1, the old cause or 0, 24 bits of the exception number, the pc and the xpsr. |
| `CrashRecord.BootRecords` | lib/lib_crash.c:154-165 | The record after a completed boot note: the cause replaced, and all else as it was or zero. |
| `CrashRecord.LastStoreCommits` | lib/lib_crash.c:30-38 | Only the last store of an operation writes the magic word. |
| `CrashRecord.Lifecycle` | lib/lib_crash.c:154-193 | After any operations from arbitrary memory: valid; sequence is the first one plus the captures modulo 2^32; cause of the last boot; fault fields of the last capture, with reasons 1 to 3 as given and others as 3. |
| `CrashRecord.PowerCutsOnlyLose` | lib/lib_crash.c:154-193 | After any operations, each cut after any store, the record is what some subsequence of them would have left, or invalid. |
| `CrashRecord.PackedFields` | lib/lib_crash.c:52-57 | Packing keeps 8 bits of the reason and 24 of the exception number. |
| `CrashRecord.RegisterImageRoundTrip` | lib/lib_crash.c:126-152 | The 24-byte big-endian image decodes back to the record, or to none. |
| `CrashRecord.Record.DoNoteBoot` | lib/lib_crash.c:154-165 | The stores the method makes, in order, are the ones the crash lemmas quantify over. |
| `CrashRecord.Record.DoCapture` | lib/lib_crash.c:167-193 | The same for a capture. |
| `CrashRecord.Record.CheckValid` | lib/lib_crash.c:73-83 | True exactly for a valid record. |
| `CrashRecord.ValidExactly` | lib/lib_crash.c:59-83 | Valid if and only if magic is 0x43525348, version 2, size 32, the reason byte at most 3 and the CRC that of the 24 bytes 2, 0, 32, 0, sequence, cause, reason, pc, xpsr, each lowest byte first. |
| `CrashRecord.DecodedFields` | lib/lib_crash.c:105-124 | The fields of a decoded record: the low byte of the reason word, its upper 24 bits for the exception number, and the other words as they are. |
| `CrashRecord.PageBytes` | lib/lib_crash.c:126-152 | The diagnostics page of a valid record, byte by byte: 1, the reason, 0, 2, then sequence, cause, exception number, pc and xpsr, highest byte first. |
| `CrashRecord.Record.WriteRegisterImage` | lib/lib_crash.c:126-152 | Fills the first 24 bytes with the image, clears them for an invalid record, and touches nothing else. |
| `ImageLayout.MakeLayout` | tools/stamp_image_identity.py:213-271 | The painting loop succeeds exactly when the checks pass and the clipped segments are disjoint, lie in the file and leave no hole; then each covered byte is the byte of the segment that holds its address. |
| `ImageLayout.SuccessInNumbers` | tools/stamp_image_identity.py:213-261 | There is a layout if and only if: more than 64 bytes of flash; the identity is its last 64 bytes and lies in the file; the covered part is not empty and ends before it; each covered address lies in exactly one segment of type 1; and its byte there is in the file. |
| `ImageLayout.LayoutInNumbers` | tools/stamp_image_identity.py:248-271 | Then the layout holds the inputs, and the byte for address a is the file's byte at p_offset + (a - p_paddr) of that segment. |
| `ImageLayout.OrderDoesNotMatter` | tools/stamp_image_identity.py:233-253 | Neither success nor the layout depends on the order of the program headers. |
| `ImageLayout.TileMeansOneHolder` | tools/stamp_image_identity.py:242-260 | The success condition says that exactly one segment holds each covered address. |
| `ImageLayout.LayoutUnique` | tools/stamp_image_identity.py:263-271 | A file has at most one layout. |
| `ImageLayout.PaintHeader` | tools/stamp_image_identity.py:233-253 | One header is refused exactly when it leaves the file or meets an earlier segment, and otherwise painted. |
| `ImageIdentity.SourceRoundTrip` | tools/stamp_image_identity.py:274-281 | The padded form and the decoder of source identifiers are inverse, for texts of 1 to 16 printable bytes and no others. |
| `ImageIdentity.AcceptedSources` | tools/stamp_image_identity.py:274-281 | Accepted are exactly the strings of 1 to 16 characters from ! to ~; the field is their codes and then zeros. |
| `ImageIdentity.BlockBytes` | tools/stamp_image_identity.py:284-305 | The 64 bytes of a block, field by field: MSPM, 1, 64, major, minor, flags, span, CRC, source, content length and 24 times 0xff, little-endian. |
| `ImageIdentity.DecodeInvertsBuild` | tools/stamp_image_identity.py:284-352 | A 64-byte block is accepted with some fields if and only if it is what build_identity makes of them, with known flags, the layout's span and length and the right CRC. |
| `ImageIdentity.CoveredChangeRejected` | tools/stamp_image_identity.py:347-351 | Changing one to four consecutive bytes of the covered content is always rejected. |
| `ImageIdentity.FlagsMask` | tools/stamp_image_identity.py:337-338 | The mask test accepts exactly the values of the two known flags. |
| `ImageTool.ElfImage.WriteIdentity` | tools/stamp_image_identity.py:189-192 | Writes the block in place and nothing else. |
| `ImageTool.ElfImage.Stamp` | tools/stamp_image_identity.py:450-480 | Succeeds exactly when there is a layout, the source identifier is accepted and the span fits 32 bits; then the 64 bytes at the identity say the arguments, the flash length and the content length, with the CRC over the coverage and themselves; otherwise the file is left alone. |
| `ImageTool.StampedBytes` | tools/stamp_image_identity.py:459-477 | Of a stamped file: bytes 8 and 9 of the identity are the two version arguments, byte 10 is 1 for dirty plus 2 for debug, the text, span and length are in their places, and nothing outside the identity changed. |
| `ImageTool.VerifiedFields` | tools/stamp_image_identity.py:312-352 | Whatever verify returns for a stamped file has the major, minor, text and flags of the arguments, the flash length for its span and __data_load_end minus the origin for its length. |
| `ImageTool.ElfImage.Verify` | tools/stamp_image_identity.py:483-486 | Accepts exactly the files that hold a good identity for their layout. |
| `ImageTool.StampThenVerify` | tools/stamp_image_identity.py:450-491 | verify accepts a stamped file, with the layout it had and the fields stamped, if and only if no byte that feeds the coverage was changed; so it does when the identity's file range feeds no covered address. Stamping again changes nothing. |
| `ImageTool.SpanMayNotFit` | tools/stamp_image_identity.py:284-305 | There is a file with a layout whose span does not fit its 32-bit field. |
| `ImageTool.LayoutKept` | tools/stamp_image_identity.py:242-271 | A changed file keeps its layout exactly when no byte that feeds the coverage changed. |
| `ImageTool.ChangedContentRejected` | tools/stamp_image_identity.py:347-351 | Two files with the same identity whose covered content differs inside four bytes are never both accepted. |
| `IntelHex.Parse` | tools/stamp_image_identity.py:382-429 | The loops compute the recursive definition that the lemmas below are about, with every error case. |
| `IntelHex.PlaceBytes` | tools/stamp_image_identity.py:404-409 | The inner loop fails exactly when an address is taken, else places the payload. |
| `IntelHex.ParsesExactlyTheWellFormed` | tools/stamp_image_identity.py:382-429 | Any file is accepted if and only if every record has its shape and checksum, EOF is the last record and only that, and no two data records share an address; the result is exactly the bytes of the data records, each at its base and address. Shapes, bases and addresses are stated on the bytes of the records. Start-address records and idle base records are included. |
| `IntelHex.RoundTrip` | tools/stamp_image_identity.py:382-429 | Every well-formed encoding of a memory map, whoever wrote it, parses to that map. |
| `IntelHex.WriterRoundTrip` | tools/stamp_image_identity.py:382-429 | However a memory map is cut into records within 64 KiB of a linear or segment base, the file written for the cut is well formed and parses back. |
| `IntelHex.EveryMapHasAFile` | tools/stamp_image_identity.py:382-429 | Every finite memory map over 32-bit addresses has such a file. |
| `IntelHex.EofIsLast` | tools/stamp_image_identity.py:401-413 | An accepted file has one EOF record, the last. |
| `IntelHex.EachAddressOnce` | tools/stamp_image_identity.py:406-409 | An accepted file assigns as many addresses as its data records have bytes. |
| `IntelHex.AlteredByteRejected` | tools/stamp_image_identity.py:394-397 | Altering one decoded byte of one record of an accepted file makes it rejected. |
| `IntelHex.SumCounts` | tools/stamp_image_identity.py:396-397 | The sum a checksum is taken of counts each byte of a record once. |
| `ImageFiles.VerifyBinary` | tools/stamp_image_identity.py:366-379 | Accepts exactly coverage, erased gap and identity. |
| `ImageFiles.FlashInNumbers` | tools/stamp_image_identity.py:366-379 | A BIN file so accepted, in numbers: as long as the flash, the coverage first, the identity in its last 64 bytes, 0xff between. |
| `ImageFiles.VerifyHex` | tools/stamp_image_identity.py:432-447 | Accepts exactly the files that parse to coverage and identity. |
| `ImageFiles.ExpectedInNumbers` | tools/stamp_image_identity.py:432-435 | The map a HEX file must parse to: the coverage from the origin on, the identity from its address on, nothing else. |
| `ImageFiles.LayoutsAreConsistent` | tools/stamp_image_identity.py:228-229 | Every layout starts at a non-negative address and its coverage ends where the gap begins, so the checks of BIN and HEX files apply to it. |
| `ImageFiles.BinaryIsHex` | tools/stamp_image_identity.py:483-491 | If both accept, the BIN is the HEX memory map with 0xff in the gap. |
| `Controller.Controller.WaitForCompletion` | hal/hal_i2c_controller.c:111-138 | For every trace: returns at the first poll that is not busy, with SCL-low if any poll so far saw it, else the error of the first status with an error bit, by the precedence of the bits, else OK; with none idle in the limit, TIMEOUT. Events are cleared once per poll that saw SCL low, and STOP is asked for exactly on a timeout. |
| `Controller.VerdictNext` | hal/hal_i2c_controller.c:121-128 | One poll extends the verdict on the bits seen so far. |
| `Controller.ResultFromBits` | hal/hal_i2c_controller.c:72-86 | With no SCL-low seen, the result is ArbitrationLost, AddressNack, DataNack or IoError by the bits of the first poll that has any set, in this order; it is OK exactly when no poll up to the idle one has any. |
| `Controller.TimeoutsComeFirst` | hal/hal_i2c_controller.c:117-137 | The result is TIMEOUT exactly when every poll in the limit is busy, and SCL-low exactly when some poll up to the idle one saw it. |
| `Controller.Controller.Prepare` | hal/hal_i2c_controller.c:140-155 | The result by line state, busy flag and flush, in this order, and the register writes made; four entries are free on success. |
| `Controller.Controller.FlushFifos` | hal/hal_i2c_controller.c:88-105 | Succeeds exactly when some poll within the limit shows nothing received and four free entries, and stops at the first that does. |
| `Controller.Controller.Preload` | hal/hal_i2c_controller.c:162-168 | Puts the bytes in order, never more than the flushed FIFO has room for. |
| `Controller.Controller.ReadFifo` | hal/hal_i2c_controller.c:182-192 | Fills the first bytes of the buffer from the FIFO, or nothing. |
| `Controller.Controller.Write` | hal/hal_i2c_controller.c:238-263 | At most 3*poll_limit polls; the result and every register write, in order, are determined by the trace: refused with the result of its checks, or run with address, length 1 to 4 and the result of the wait, and a flush if that is an error. |
| `Controller.Controller.Read` | hal/hal_i2c_controller.c:265-291 | The same for a read; the bytes received are those after the wait, and the buffer is as it was on any error. |
| `Controller.Controller.WriteRead` | hal/hal_i2c_controller.c:293-326 | The same for a write and a repeated START. |
| `Controller.OneStartEach` | hal/hal_i2c_controller.c:170-180 | Each transaction issues one START if it got past its checks and none otherwise, and every START carries a STOP. |
| `Controller.ControlFields` | hal/hal_i2c_controller.c:171-178 | The control word is 65536 times the length plus 7, plus 32 for a read after a write: no field runs into another. |

## Left out

- Weak memory, compiler reordering and multiple cores: the code targets one Cortex-M0+.
- Register-level setup, pin multiplexing, interrupt controller and startup code: straight-line writes.
- The level-triggered request line of the UART: the model says what an interrupt does while it is unmasked, not when the peripheral raises one.
- Progress: nothing is proved about when interrupts or publishes happen, only about what they do.
- Page callbacks other than the command queue: a call is logged with its arguments, and its answer is an input.
- Two register maps over one snapshot: the accounting is for a map that owns its snapshots.
- The arithmetic of the I2C bus rate and the configuration checks of both I2C drivers.
- ELF symbol and string tables, command-line parsing, printing, and text decoding of versions and HEX lines.
- The read-back command of the image tool: a comparison of two byte strings.
- Error messages: a failure is a failure, except where the source returns a code.
- Build information, boot, debug, timer and board code: finite or textbook.
- IntelHex.RoundTrip: starts from decoded records and says that the parsed map and the given one have the same addresses and bytes, which is equality of maps spelled out.
- ImageTool.ChangedContentRejected: is about covered content only; a change inside the identity block is judged by the comparison of its fields and is not claimed to be noticed in every case.
