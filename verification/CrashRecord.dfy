/** The retained crash record of `lib_crash`: ordered stores into `.noinit` memory,
    a magic word that commits them, and a CRC that covers the fields in between. */
module CrashRecord {
  import opened Bits
  import opened Options
  import opened Endian
  import Crc32

  const MAGIC: uint32 := 0x4352_5348
  const FORMAT_VERSION: uint16 := 2
  const RECORD_SIZE: uint16 := 32
  const REGISTER_IMAGE_SIZE := 24

  const REASON_NONE: uint32 := 0
  const REASON_NMI: uint32 := 1
  const REASON_HARDFAULT: uint32 := 2
  const REASON_UNEXPECTED_EXCEPTION: uint32 := 3

  /** What the 32 bytes of memory hold; nothing is assumed about them. */
  datatype Image = Image(magic: uint32, version: uint16, size: uint16, sequence: uint32,
                         resetCause: uint32, reason: uint32, pc: uint32, xpsr: uint32,
                         crc: uint32)

  datatype Snapshot = Snapshot(reason: uint32, sequence: uint32, resetCause: uint32,
                               exceptionNumber: uint32, pc: uint32, xpsr: uint32)

  /** One store instruction. A reset may come between any two of them. */
  datatype Store =
    | Magic(w: uint32) | Version(h: uint16) | Size(h: uint16) | Sequence(w: uint32)
    | Cause(w: uint32) | Reason(w: uint32) | Pc(w: uint32) | Xpsr(w: uint32) | Crc(w: uint32)

  datatype Operation =
    | NoteBoot(cause: uint32)
    | Capture(reason: uint32, exceptionNumber: uint32, pc: uint32, xpsr: uint32)

  function Apply(m: Image, s: Store): Image {
    match s
    case Magic(w) => m.(magic := w)
    case Version(h) => m.(version := h)
    case Size(h) => m.(size := h)
    case Sequence(w) => m.(sequence := w)
    case Cause(w) => m.(resetCause := w)
    case Reason(w) => m.(reason := w)
    case Pc(w) => m.(pc := w)
    case Xpsr(w) => m.(xpsr := w)
    case Crc(w) => m.(crc := w)
  }

  /** Memory after the given stores, in order. */
  function Run(m: Image, stores: seq<Store>): Image
    decreases |stores|
  {
    if stores == [] then m
    else Apply(Run(m, stores[..|stores| - 1]), stores[|stores| - 1])
  }

  // ---- validity and decoding ----

  /** The bytes from `format_version` up to `integrity_crc32` on a little-endian core. */
  function CoveredBytes(m: Image): Bytes {
    BytesBeforeCause(m) + LittleEndian(m.resetCause, 4) + BytesAfterCause(m)
  }

  function BytesBeforeCause(m: Image): Bytes {
    LittleEndian(m.version, 2) + LittleEndian(m.size, 2) + LittleEndian(m.sequence, 4)
  }

  function BytesAfterCause(m: Image): Bytes {
    LittleEndian(m.reason, 4) + LittleEndian(m.pc, 4) + LittleEndian(m.xpsr, 4)
  }

  function CrcOf(m: Image): uint32 { Crc32.Crc(CoveredBytes(m)) }

  function ReasonCode(reason: uint32): uint32 { BitAnd(reason, 0xff) }

  predicate IsReasonCode(code: uint32) {
    code == REASON_NONE || code == REASON_NMI || code == REASON_HARDFAULT
    || code == REASON_UNEXPECTED_EXCEPTION
  }

  predicate IsValid(m: Image) {
    m.magic == MAGIC && m.version == FORMAT_VERSION && m.size == RECORD_SIZE
    && IsReasonCode(ReasonCode(m.reason))
    && m.crc == CrcOf(m)
  }

  function Decode(m: Image): Option<Snapshot> {
    if !IsValid(m) then None
    else Some(Snapshot(ReasonCode(m.reason), m.sequence, m.resetCause,
                       ShiftRight(m.reason, 8), m.pc, m.xpsr))
  }

  function PackReason(reason: uint32, exceptionNumber: uint32): (r: uint32)
    ensures r == exceptionNumber % 0x100_0000 * 256 + reason % 256
  {
    PackedWord(reason, exceptionNumber);
    BitOr(ShiftLeft32(BitAnd(exceptionNumber, 0x00ff_ffff), 8), BitAnd(reason, 0xff))
  }

  lemma {:induction false} PackedWord(reason: uint32, exceptionNumber: uint32)
    ensures BitOr(ShiftLeft32(BitAnd(exceptionNumber, 0x00ff_ffff), 8), BitAnd(reason, 0xff))
         == exceptionNumber % 0x100_0000 * 256 + reason % 256
  {
    var number := exceptionNumber % 0x100_0000;
    Masks(exceptionNumber, reason);
    assert Pow2(8) == 256;
    assert ShiftLeft32(number, 8) == number * 256;
    OrDisjoint(reason % 256, number, 8);
  }

  lemma {:induction false} Masks(number: uint32, reason: uint32)
    ensures BitAnd(number, 0x00ff_ffff) == number % 0x100_0000
    ensures BitAnd(reason, 0xff) == reason % 256
  {
    Pow2Values();
    AndMask(number, 24);
    AndMask(reason, 8);
  }

  lemma {:induction false} UnpackedFields(packed: uint32)
    ensures ReasonCode(packed) == packed % 256 && ShiftRight(packed, 8) == packed / 256
  {
    Masks(0, packed);
    assert Pow2(8) == 256;
    ShiftRightDivides(packed, 8);
  }

  /** Packing keeps the low 8 bits of the reason and the low 24 of the exception number. */
  lemma {:induction false} PackedFields(reason: uint32, exceptionNumber: uint32)
    ensures ReasonCode(PackReason(reason, exceptionNumber)) == reason % 256
    ensures ShiftRight(PackReason(reason, exceptionNumber), 8) == exceptionNumber % 0x100_0000
  {
    UnpackedFields(PackReason(reason, exceptionNumber));
  }

  // ---- the stores each operation performs ----

  const CLEAR_STORES: seq<Store> :=
    [Magic(0), Version(0), Size(0), Sequence(0), Cause(0), Reason(REASON_NONE), Pc(0), Xpsr(0), Crc(0)]

  const HEADER_STORES: seq<Store> := [Magic(0), Version(FORMAT_VERSION), Size(RECORD_SIZE)]

  function FieldStores(f: Image): seq<Store> {
    [Sequence(f.sequence), Cause(f.resetCause), Reason(f.reason), Pc(f.pc), Xpsr(f.xpsr)]
  }

  function CommitStores(m: Image): seq<Store> {
    HEADER_STORES + [Crc(CommitCrc(m)), Magic(MAGIC)]
  }

  function CommitCrc(m: Image): uint32 { CrcOf(m.(version := FORMAT_VERSION, size := RECORD_SIZE)) }

  function Committed(m: Image): Image {
    m.(magic := MAGIC, version := FORMAT_VERSION, size := RECORD_SIZE, crc := CommitCrc(m))
  }

  const CLEARED := Image(0, 0, 0, 0, 0, REASON_NONE, 0, 0, 0)

  function NoteBootStores(m: Image, cause: uint32): seq<Store> {
    if IsValid(m) then [Cause(cause)] + CommitStores(m.(resetCause := cause))
    else CLEAR_STORES + [Cause(cause)] + CommitStores(CLEARED.(resetCause := cause))
  }

  /** The reason code a capture records for the reason it is given. */
  function RecordedReason(reason: uint32): uint32 {
    if reason == REASON_NONE || !IsReasonCode(reason) then REASON_UNEXPECTED_EXCEPTION else reason
  }

  function CapturedFields(m: Image, op: Operation): Image
    requires op.Capture?
  {
    CLEARED.(sequence := Add32(if IsValid(m) then m.sequence else 0, 1),
             resetCause := if IsValid(m) then m.resetCause else 0,
             reason := PackReason(RecordedReason(op.reason), op.exceptionNumber),
             pc := op.pc, xpsr := op.xpsr)
  }

  function CaptureStores(m: Image, op: Operation): seq<Store>
    requires op.Capture?
  {
    var f := CapturedFields(m, op);
    CLEAR_STORES + FieldStores(f) + CommitStores(f)
  }

  function Stores(m: Image, op: Operation): seq<Store> {
    match op
    case NoteBoot(cause) => NoteBootStores(m, cause)
    case Capture(_, _, _, _) => CaptureStores(m, op)
  }

  // ---- the record in memory ----

  /** The record in memory. `stores` lists every store so far and `memory` the contents
      before the first and after each of them, which is what a reset at that point keeps. */
  class Record {
    var magic: uint32
    var version: uint16
    var size: uint16
    var sequence: uint32
    var resetCause: uint32
    var reason: uint32
    var pc: uint32
    var xpsr: uint32
    var crc: uint32
    ghost var stores: seq<Store>
    ghost var memory: seq<Image>

    function Value(): Image
      reads this
    {
      Image(magic, version, size, sequence, resetCause, reason, pc, xpsr, crc)
    }

    ghost predicate Valid()
      reads this
    {
      IsHistory(memory, stores) && memory[|stores|] == Value()
    }

    constructor (m: Image)
      ensures Valid() && Value() == m && stores == [] && memory == [m]
    {
      magic, version, size := m.magic, m.version, m.size;
      sequence, resetCause, reason := m.sequence, m.resetCause, m.reason;
      pc, xpsr, crc := m.pc, m.xpsr, m.crc;
      stores, memory := [], [m];
    }

    method Write(s: Store)
      requires Valid()
      modifies this
      ensures Valid() && old(memory) <= memory && stores == old(stores) + [s]
      ensures Value() == Apply(old(Value()), s)
    {
      match s {
        case Magic(w) => magic := w;
        case Version(h) => version := h;
        case Size(h) => size := h;
        case Sequence(w) => sequence := w;
        case Cause(w) => resetCause := w;
        case Reason(w) => reason := w;
        case Pc(w) => pc := w;
        case Xpsr(w) => xpsr := w;
        case Crc(w) => crc := w;
      }
      stores := stores + [s];
      memory := memory + [Value()];
    }

    method CheckValid() returns (ok: bool)
      ensures ok == IsValid(Value())
    {
      if magic != MAGIC || version != FORMAT_VERSION || size != RECORD_SIZE {
        return false;
      }
      var expected := Crc32.Compute(CoveredBytes(Value()));
      ok := IsReasonCode(ReasonCode(reason)) && crc == expected;
    }

    /** Straight-line stores, in program order. */
    method WriteInOrder(list: seq<Store>)
      requires Valid()
      modifies this
      ensures Valid() && old(memory) <= memory && stores == old(stores) + list
      ensures Value() == Run(old(Value()), list)
    {
      for i := 0 to |list|
        invariant Valid() && old(memory) <= memory && stores == old(stores) + list[..i]
        invariant Value() == Run(old(Value()), list[..i])
      {
        RunNext(old(Value()), list, i);
        Write(list[i]);
      }
      assert list[..|list|] == list;
    }

    method Clear()
      requires Valid()
      modifies this
      ensures Valid() && old(memory) <= memory && stores == old(stores) + CLEAR_STORES
      ensures Value() == CLEARED
    {
      WriteInOrder(CLEAR_STORES);
      ClearedMemory(old(Value()));
    }

    method Commit()
      requires Valid()
      modifies this
      ensures Valid() && old(memory) <= memory && stores == old(stores) + CommitStores(old(Value()))
      ensures Value() == Committed(old(Value()))
    {
      WriteInOrder([Magic(0), Version(FORMAT_VERSION), Size(RECORD_SIZE)]);
      HeaderMemory(old(Value()));
      var sum := Crc32.Compute(CoveredBytes(Value()));
      WriteInOrder([Crc(sum), Magic(MAGIC)]);
      TrailerMemory(Run(old(Value()), HEADER_STORES), sum);
    }

    method DoNoteBoot(cause: uint32)
      requires Valid()
      modifies this
      ensures Valid() && old(memory) <= memory && stores == old(stores) + Stores(old(Value()), NoteBoot(cause))
      ensures Value() == Run(old(Value()), Stores(old(Value()), NoteBoot(cause)))
    {
      var ok := CheckValid();
      if !ok {
        Clear();
      }
      WriteInOrder([Cause(cause)]);
      SingleStore(if ok then old(Value()) else CLEARED, Cause(cause));
      Commit();
      HistoryAppended(memory, old(stores), stores, Stores(old(Value()), NoteBoot(cause)));
    }

    method DoCapture(reasonCode: uint32, exceptionNumber: uint32, stackedPc: uint32, stackedXpsr: uint32)
      requires Valid()
      modifies this
      ensures Valid() && old(memory) <= memory
      ensures var op := Capture(reasonCode, exceptionNumber, stackedPc, stackedXpsr);
              && stores == old(stores) + Stores(old(Value()), op)
              && Value() == Run(old(Value()), Stores(old(Value()), op))
    {
      hide BitAnd, BitOr, CrcOf, FieldStores, CommitStores;
      ghost var op := Capture(reasonCode, exceptionNumber, stackedPc, stackedXpsr);
      ghost var f := CapturedFields(old(Value()), op);
      var nextSequence: uint32, cause: uint32 := 0, 0;
      var ok := CheckValid();
      if ok {
        nextSequence, cause := sequence, resetCause;
      }
      Clear();
      nextSequence := Add32(nextSequence, 1);
      var code := reasonCode;
      if reasonCode == REASON_NONE || !IsReasonCode(reasonCode) {
        code := REASON_UNEXPECTED_EXCEPTION;
      }
      WriteFields(nextSequence, cause, PackReason(code, exceptionNumber), stackedPc, stackedXpsr);
      Commit();
      CaptureConcat(old(stores), f);
      HistoryAppended(memory, old(stores), stores, Stores(old(Value()), op));
    }

    /** The five stores of a capture between the clearing and the commit. */
    method WriteFields(sequence: uint32, cause: uint32, reason: uint32, pc: uint32, xpsr: uint32)
      requires Valid() && Value() == CLEARED
      modifies this
      ensures Valid() && old(memory) <= memory
      ensures var f := CLEARED.(sequence := sequence, resetCause := cause, reason := reason, pc := pc, xpsr := xpsr);
              Value() == f && stores == old(stores) + FieldStores(f)
    {
      ghost var f := CLEARED.(sequence := sequence, resetCause := cause, reason := reason, pc := pc, xpsr := xpsr);
      WriteInOrder([Sequence(sequence), Cause(cause), Reason(reason), Pc(pc), Xpsr(xpsr)]);
      FieldMemory(f);
    }

    /** `lib_crash_write_register_image`: fills the first 24 bytes and nothing else. */
    method WriteRegisterImage(bytes: array<byte>) returns (ok: bool)
      modifies bytes
      ensures bytes.Length < REGISTER_IMAGE_SIZE ==> !ok && bytes[..] == old(bytes[..])
      ensures bytes.Length >= REGISTER_IMAGE_SIZE ==>
                ok == IsValid(Value())
                && bytes[..] == RegisterImage(Decode(Value())) + old(bytes[REGISTER_IMAGE_SIZE..])
    {
      if bytes.Length < REGISTER_IMAGE_SIZE {
        return false;
      }
      for index := 0 to REGISTER_IMAGE_SIZE
        invariant forall i :: 0 <= i < index ==> bytes[i] == 0
        invariant bytes[index..] == old(bytes[index..])
      {
        bytes[index] := 0;
      }
      ok := CheckValid();
      if ok {
        var code, number := ReasonCode(reason), ShiftRight(reason, 8);
        bytes[0], bytes[1] := 1, code % 256;
        bytes[2], bytes[3] := FORMAT_VERSION / 256, FORMAT_VERSION % 256;
        ghost var start := bytes[..];
        WriteBigEndian(bytes, 4, sequence);
        WriteBigEndian(bytes, 8, resetCause);
        WriteBigEndian(bytes, 12, number);
        WriteBigEndian(bytes, 16, pc);
        WriteBigEndian(bytes, 20, xpsr);
        FilledImage(start, Decode(Value()).value);
      } else {
        assert bytes[..] == Zeros(24) + bytes[24..];
      }
    }
  }

  lemma {:induction false} CaptureConcat(before: seq<Store>, f: Image)
    ensures before + CLEAR_STORES + FieldStores(f) + CommitStores(f)
         == before + (CLEAR_STORES + FieldStores(f) + CommitStores(f))
  {
    hide FieldStores, CommitStores, CLEAR_STORES;
  }

  /** `lib_crash_write_u32_be`. */
  method WriteBigEndian(bytes: array<byte>, at: nat, w: uint32)
    requires at + 4 <= bytes.Length
    modifies bytes
    ensures bytes[..] == Put(old(bytes[..]), at, w)
  {
    HighFirstBytes(w);
    bytes[at] := w / 16777216;
    bytes[at + 1] := w / 65536 % 256;
    bytes[at + 2] := w / 256 % 256;
    bytes[at + 3] := w % 256;
    assert bytes[at..at + 4] == BigEndian(w, 4);
    assert bytes[..] == bytes[..at] + bytes[at..at + 4] + bytes[at + 4..];
  }

  function Put(bytes: Bytes, at: nat, w: uint32): (r: Bytes)
    requires at + 4 <= |bytes|
    ensures |r| == |bytes|
  {
    bytes[..at] + BigEndian(w, 4) + bytes[at + 4..]
  }

  lemma {:induction false} FilledImage(start: Bytes, s: Snapshot)
    requires |start| >= 24
    requires start[..4] == [1, s.reason % 256, FORMAT_VERSION / 256, FORMAT_VERSION % 256]
    ensures Put(Put(Put(Put(Put(start, 4, s.sequence), 8, s.resetCause), 12, s.exceptionNumber), 16, s.pc), 20, s.xpsr)
         == RegisterImage(Some(s)) + start[24..]
  {
    var b1 := Put(start, 4, s.sequence);
    assert b1 == start[..4] + BigEndian(s.sequence, 4) + start[8..];
    var b2 := Put(b1, 8, s.resetCause);
    assert b2 == b1[..8] + BigEndian(s.resetCause, 4) + start[12..];
    var b3 := Put(b2, 12, s.exceptionNumber);
    assert b3 == b2[..12] + BigEndian(s.exceptionNumber, 4) + start[16..];
    var b4 := Put(b3, 16, s.pc);
    assert b4 == b3[..16] + BigEndian(s.pc, 4) + start[20..];
    var b5 := Put(b4, 20, s.xpsr);
    assert b5 == b4[..20] + BigEndian(s.xpsr, 4) + start[24..];
    assert b1[..8] == start[..4] + BigEndian(s.sequence, 4);
    assert b2[..12] == b1[..8] + BigEndian(s.resetCause, 4);
    assert b3[..16] == b2[..12] + BigEndian(s.exceptionNumber, 4);
    assert b4[..20] == b3[..16] + BigEndian(s.pc, 4);
  }

  function Zeros(n: nat): Bytes { seq(n, _ => 0) }

  /** The 24-byte diagnostics page for a decoded record, all zero when there is none. */
  function RegisterImage(d: Option<Snapshot>): Bytes {
    match d
    case None => Zeros(24)
    case Some(s) =>
      [1, s.reason % 256, FORMAT_VERSION / 256, FORMAT_VERSION % 256]
      + BigEndian(s.sequence, 4) + BigEndian(s.resetCause, 4) + BigEndian(s.exceptionNumber, 4)
      + BigEndian(s.pc, 4) + BigEndian(s.xpsr, 4)
  }

  // ---- what one operation means ----

  /** The fault reason a capture leaves behind: the three that name a fault are kept. */
  function FaultReason(reason: uint32): uint32 { if 1 <= reason <= 3 then reason else 3 }

  /** The effect of an uninterrupted operation on the decoded record. */
  function Effect(before: Option<Snapshot>, op: Operation): Snapshot {
    match op
    case NoteBoot(cause) =>
      (match before
       case None => Snapshot(REASON_NONE, 0, cause, 0, 0, 0)
       case Some(s) => s.(resetCause := cause))
    case Capture(reason, number, pc, xpsr) =>
      Snapshot(FaultReason(reason),
               (if before.Some? then before.value.sequence + 1 else 1) % W32,
               if before.Some? then before.value.resetCause else 0,
               number % 0x100_0000, pc, xpsr)
  }

  lemma {:induction false} RunAppend(m: Image, a: seq<Store>, b: seq<Store>)
    ensures Run(m, a + b) == Run(Run(m, a), b)
    decreases |b|
  {
    if b == [] {
      assert a + b == a;
    } else {
      assert (a + b)[..|a + b| - 1] == a + b[..|b| - 1];
      RunAppend(m, a, b[..|b| - 1]);
    }
  }

  /** `memory` holds the contents before the first store and after each one. */
  ghost predicate IsHistory(memory: seq<Image>, stores: seq<Store>) {
    |memory| == |stores| + 1
    && forall i :: 0 <= i < |stores| ==> memory[i + 1] == Apply(memory[i], stores[i])
  }

  /** What a reset finds after store j, counted from what was there after store i. */
  lemma {:induction false} HistoryFrom(memory: seq<Image>, stores: seq<Store>, i: nat, j: nat)
    requires IsHistory(memory, stores) && i <= j <= |stores|
    ensures memory[j] == Run(memory[i], stores[i..j])
    decreases j
  {
    if i != j {
      HistoryFrom(memory, stores, i, j - 1);
      assert stores[i..j][..j - 1 - i] == stores[i..j - 1];
      assert memory[j - 1 + 1] == Apply(memory[j - 1], stores[j - 1]);
    }
  }

  lemma {:induction false} HistoryAppended(memory: seq<Image>, before: seq<Store>, stores: seq<Store>, list: seq<Store>)
    requires IsHistory(memory, stores) && stores == before + list
    ensures memory[|stores|] == Run(memory[|before|], list)
  {
    HistoryFrom(memory, stores, |before|, |stores|);
    assert stores[|before|..|stores|] == list;
  }

  lemma {:induction false} RunNext(m: Image, list: seq<Store>, k: nat)
    requires k < |list|
    ensures Run(m, list[..k + 1]) == Apply(Run(m, list[..k]), list[k])
  {
    assert list[..k + 1][..k] == list[..k];
  }

  lemma {:induction false} SingleStore(m: Image, s: Store)
    ensures Run(m, [s]) == Apply(m, s)
  {
    RunNext(m, [s], 0);
    assert [s][..1] == [s];
  }

  lemma {:induction false} ClearedMemory(m: Image)
    ensures Run(m, CLEAR_STORES) == CLEARED
  {
    var c := CLEAR_STORES;
    RunNext(m, c, 0);
    RunNext(m, c, 1);
    RunNext(m, c, 2);
    RunNext(m, c, 3);
    RunNext(m, c, 4);
    RunNext(m, c, 5);
    RunNext(m, c, 6);
    RunNext(m, c, 7);
    RunNext(m, c, 8);
    assert c[..9] == c;
  }

  lemma {:induction false} HeaderMemory(m: Image)
    ensures Run(m, HEADER_STORES) == m.(magic := 0, version := FORMAT_VERSION, size := RECORD_SIZE)
    ensures CrcOf(Run(m, HEADER_STORES)) == CommitCrc(m)
  {
    var c := HEADER_STORES;
    RunNext(m, c, 0);
    RunNext(m, c, 1);
    RunNext(m, c, 2);
    assert c[..3] == c;
  }

  lemma {:induction false} TrailerMemory(m: Image, sum: uint32)
    ensures Run(m, [Crc(sum), Magic(MAGIC)]) == m.(crc := sum, magic := MAGIC)
  {
    var c := [Crc(sum), Magic(MAGIC)];
    RunNext(m, c, 0);
    RunNext(m, c, 1);
    assert c[..2] == c;
  }

  lemma {:induction false} FieldMemory(f: Image)
    requires f.magic == 0 && f.version == 0 && f.size == 0 && f.crc == 0
    ensures Run(CLEARED, FieldStores(f)) == f
  {
    var c := FieldStores(f);
    RunNext(CLEARED, c, 0);
    RunNext(CLEARED, c, 1);
    RunNext(CLEARED, c, 2);
    RunNext(CLEARED, c, 3);
    RunNext(CLEARED, c, 4);
    assert c[..5] == c;
  }

  /** Until the magic word is written back, memory whose magic word is wrong stays invalid. */
  lemma {:induction false} StaysInvalid(m: Image, stores: seq<Store>)
    requires m.magic != MAGIC
    requires forall i :: 0 <= i < |stores| ==> stores[i] != Magic(MAGIC)
    ensures Run(m, stores).magic != MAGIC
    decreases |stores|
  {
    if stores != [] {
      StaysInvalid(m, stores[..|stores| - 1]);
      var s := stores[|stores| - 1];
      assert s != Magic(MAGIC);
    }
  }

  /** The window in `note_boot` between storing the new cause and clearing the magic word:
      the stale CRC never matches, because the change is a burst inside four bytes. */
  lemma {:induction false} StaleCrcIsRejected(m: Image, cause: uint32)
    requires IsValid(m) && cause != m.resetCause
    ensures !IsValid(m.(resetCause := cause))
  {
    var n := m.(resetCause := cause);
    Limits();
    if LittleEndian(m.resetCause, 4) == LittleEndian(cause, 4) {
      LittleInjective(m.resetCause, cause, 4);
    }
    Crc32.BurstDetected(BytesBeforeCause(m), LittleEndian(m.resetCause, 4),
                        LittleEndian(cause, 4), BytesAfterCause(m));
    assert BytesBeforeCause(n) == BytesBeforeCause(m) && BytesAfterCause(n) == BytesAfterCause(m);
  }


  // ---- one operation ----

  /** The fields an operation is about to commit. */
  function Fields(m: Image, op: Operation): Image {
    match op
    case NoteBoot(cause) => (if IsValid(m) then m else CLEARED).(resetCause := cause)
    case Capture(_, _, _, _) => CapturedFields(m, op)
  }

  lemma {:induction false} FinalMemory(m: Image, op: Operation)
    ensures Run(m, Stores(m, op)) == Committed(Fields(m, op))
  {
    var f := Fields(m, op);
    ClearedMemory(m);
    if op.NoteBoot? {
      var start := if IsValid(m) then m else CLEARED;
      SingleStore(start, Cause(op.cause));
      RunAppend(start, [Cause(op.cause)], CommitStores(f));
      if !IsValid(m) {
        RunAppend(m, CLEAR_STORES, [Cause(op.cause)] + CommitStores(f));
        assert Stores(m, op) == CLEAR_STORES + ([Cause(op.cause)] + CommitStores(f));
      }
    } else {
      FieldMemory(f);
      RunAppend(m, CLEAR_STORES, FieldStores(f));
      RunAppend(m, CLEAR_STORES + FieldStores(f), CommitStores(f));
    }
    CommittedMemory(f);
  }

  lemma {:induction false} CommittedMemory(f: Image)
    ensures Run(f, CommitStores(f)) == Committed(f)
  {
    HeaderMemory(f);
    TrailerMemory(Run(f, HEADER_STORES), CommitCrc(f));
    RunAppend(f, HEADER_STORES, [Crc(CommitCrc(f)), Magic(MAGIC)]);
  }

  /** An uninterrupted operation leaves a valid record that decodes to its effect on the
      old record, whatever memory held before. */
  lemma {:induction false} CompletedOperation(m: Image, op: Operation)
    ensures Decode(Run(m, Stores(m, op))) == Some(Effect(Decode(m), op))
  {
    var f := Fields(m, op);
    FinalMemory(m, op);
    UnpackedFields(f.reason);
    FieldsAreTheEffect(m, op);
    CommittedDecodes(f);
  }

  lemma {:induction false} CommittedDecodes(f: Image)
    requires IsReasonCode(ReasonCode(f.reason))
    ensures Decode(Committed(f)) == Some(Snapshot(ReasonCode(f.reason), f.sequence, f.resetCause,
                                                  ShiftRight(f.reason, 8), f.pc, f.xpsr))
  {
    assert CrcOf(Committed(f)) == CommitCrc(f);
  }

  lemma {:induction false} FieldsAreTheEffect(m: Image, op: Operation)
    ensures var f := Fields(m, op);
            && IsReasonCode(ReasonCode(f.reason))
            && Effect(Decode(m), op) == Snapshot(ReasonCode(f.reason), f.sequence, f.resetCause,
                                                 ShiftRight(f.reason, 8), f.pc, f.xpsr)
  {
    if op.Capture? {
      CaptureIsTheEffect(m, op);
    } else {
      BootIsTheEffect(m, op);
    }
  }

  lemma {:induction false} CaptureIsTheEffect(m: Image, op: Operation)
    requires op.Capture?
    ensures var f := Fields(m, op);
            && IsReasonCode(ReasonCode(f.reason))
            && Effect(Decode(m), op) == Snapshot(ReasonCode(f.reason), f.sequence, f.resetCause,
                                                 ShiftRight(f.reason, 8), f.pc, f.xpsr)
  {
    hide BitAnd, BitOr, ShiftRight, ShiftLeft32, CrcOf;
    CapturedReason(RecordedReason(op.reason), op.exceptionNumber % 0x100_0000, Fields(m, op).reason);
  }

  lemma {:induction false} CapturedReason(code: nat, number: nat, packed: uint32)
    requires code < 256 && packed == number * 256 + code
    ensures ReasonCode(packed) == code && ShiftRight(packed, 8) == number
  {
    UnpackedFields(packed);
    ModUnique(packed, 256, number, code);
  }

  lemma {:induction false} BootIsTheEffect(m: Image, op: Operation)
    requires op.NoteBoot?
    ensures var f := Fields(m, op);
            && IsReasonCode(ReasonCode(f.reason))
            && Effect(Decode(m), op) == Snapshot(ReasonCode(f.reason), f.sequence, f.resetCause,
                                                 ShiftRight(f.reason, 8), f.pc, f.xpsr)
  {
    if !IsValid(m) {
      UnpackedFields(0);
    }
  }

  /** The 24 bytes under the CRC, as they lie in memory. */
  lemma {:induction false} CoveredLayout(m: Image)
    ensures CoveredBytes(m) == [m.version % 256, m.version / 256, m.size % 256, m.size / 256]
              + LowFirst(m.sequence) + LowFirst(m.resetCause) + LowFirst(m.reason) + LowFirst(m.pc) + LowFirst(m.xpsr)
  {
    hide LittleEndian, LowFirst;
    LittleTwoBytes(m.version);
    LittleTwoBytes(m.size);
    LowFirstBytes(m.sequence);
    LowFirstBytes(m.resetCause);
    LowFirstBytes(m.reason);
    LowFirstBytes(m.pc);
    LowFirstBytes(m.xpsr);
  }

  /** A record is valid exactly with the right magic, version and size, a reason of at most 3
      and the CRC of the bytes between the magic word and the CRC field. */
  lemma {:induction false} ValidExactly(m: Image)
    ensures IsValid(m) <==>
              && m.magic == 0x4352_5348 && m.version == 2 && m.size == 32 && m.reason % 256 <= 3
              && m.crc == Crc32.Crc([2, 0, 32, 0] + LowFirst(m.sequence) + LowFirst(m.resetCause)
                                    + LowFirst(m.reason) + LowFirst(m.pc) + LowFirst(m.xpsr))
  {
    hide Crc32.Crc, CoveredBytes, LowFirst, ReasonCode;
    UnpackedFields(m.reason);
    CoveredLayout(m);
  }

  /** What a completed capture leaves, in numbers: reasons 1, 2 and 3 are recorded as they are
      and any other word as 3. */
  lemma {:induction false} CaptureRecords(m: Image, reason: uint32, number: uint32, pc: uint32, xpsr: uint32)
    ensures Decode(Run(m, Stores(m, Capture(reason, number, pc, xpsr))))
         == Some(Snapshot(if reason == 1 then 1 else if reason == 2 then 2 else 3,
                          if Decode(m).Some? then (Decode(m).value.sequence + 1) % 0x1_0000_0000 else 1,
                          if Decode(m).Some? then Decode(m).value.resetCause else 0,
                          number % 0x100_0000, pc, xpsr))
  {
    CompletedOperation(m, Capture(reason, number, pc, xpsr));
  }

  /** And a completed boot note: only the cause changes, and an invalid record becomes one
      without a fault. */
  lemma {:induction false} BootRecords(m: Image, cause: uint32)
    ensures Decode(Run(m, Stores(m, NoteBoot(cause))))
         == Some(if Decode(m).Some? then Decode(m).value.(resetCause := cause) else Snapshot(0, 0, cause, 0, 0, 0))
  {
    CompletedOperation(m, NoteBoot(cause));
  }

  /** What a valid record decodes to, field by field. */
  lemma {:induction false} DecodedFields(m: Image)
    requires IsValid(m)
    ensures Decode(m) == Some(Snapshot(m.reason % 256, m.sequence, m.resetCause, m.reason / 256, m.pc, m.xpsr))
  {
    UnpackedFields(m.reason);
  }

  /** Only the very last store of an operation writes the magic word. */
  lemma {:induction false} LastStoreCommits(m: Image, op: Operation)
    ensures var st := Stores(m, op);
            && |st| >= 6 && st[|st| - 1] == Magic(MAGIC)
            && (forall i :: 0 <= i < |st| - 1 ==> st[i] != Magic(MAGIC))
            && (op.NoteBoot? && IsValid(m) ==> st[0] == Cause(op.cause) && st[1] == Magic(0))
            && (!(op.NoteBoot? && IsValid(m)) ==> st[0] == Magic(0))
  {
    if op.Capture? {
      CaptureCommitsLast(m, op);
    } else {
      NoteBootCommitsLast(m, op.cause);
    }
  }

  ghost predicate CommitsLast(st: seq<Store>) {
    |st| >= 6 && st[|st| - 1] == Magic(MAGIC) && forall i :: 0 <= i < |st| - 1 ==> st[i] != Magic(MAGIC)
  }

  lemma {:induction false} CaptureCommitsLast(m: Image, op: Operation)
    requires op.Capture?
    ensures CommitsLast(CaptureStores(m, op)) && CaptureStores(m, op)[0] == Magic(0)
  {
    var before := CLEAR_STORES + FieldStores(CapturedFields(m, op));
    assert forall i :: 0 <= i < |before| ==> before[i] != Magic(MAGIC);
  }

  lemma {:induction false} NoteBootCommitsLast(m: Image, cause: uint32)
    ensures var st := NoteBootStores(m, cause);
            && CommitsLast(st)
            && if IsValid(m) then st[0] == Cause(cause) && st[1] == Magic(0) else st[0] == Magic(0)
  {
  }

  /** Crash consistency. A reset after any number of an operation's stores, starting from
      arbitrary memory, leaves a record that is invalid, or decodes to exactly the old
      record, or - only when every store was made - to exactly the new one. */
  lemma {:induction false} ResetAnywhere(m: Image, op: Operation, k: nat)
    requires k <= |Stores(m, op)|
    ensures var d := Decode(Run(m, Stores(m, op)[..k]));
            if k < |Stores(m, op)| then d == None || d == Decode(m)
            else d == Some(Effect(Decode(m), op))
  {
    var st := Stores(m, op);
    LastStoreCommits(m, op);
    if k == |st| {
      assert st[..k] == st;
      CompletedOperation(m, op);
    } else if k >= 1 {
      RunNext(m, st, 0);
      assert st[..0] == [] && Run(m, st[..0]) == m;
      if op.NoteBoot? && IsValid(m) {
        if k == 1 {
          if op.cause != m.resetCause { StaleCrcIsRejected(m, op.cause); }
        } else {
          RunNext(m, st, 1);
          TailStaysInvalid(m, st, 2, k);
        }
      } else {
        TailStaysInvalid(m, st, 1, k);
      }
    }
  }

  lemma {:induction false} TailStaysInvalid(m: Image, st: seq<Store>, j: nat, k: nat)
    requires j <= k < |st|
    requires Run(m, st[..j]).magic != MAGIC
    requires forall i :: 0 <= i < |st| - 1 ==> st[i] != Magic(MAGIC)
    ensures Decode(Run(m, st[..k])) == None
  {
    assert st[..k] == st[..j] + st[j..k];
    RunAppend(m, st[..j], st[j..k]);
    StaysInvalid(Run(m, st[..j]), st[j..k]);
  }

  // ---- whole lives of the record ----

  function Life(m: Image, ops: seq<Operation>): Image
    decreases |ops|
  {
    if ops == [] then m
    else
      var before := Life(m, ops[..|ops| - 1]);
      Run(before, Stores(before, ops[|ops| - 1]))
  }

  function Captures(ops: seq<Operation>): nat {
    if ops == [] then 0 else (if ops[0].Capture? then 1 else 0) + Captures(ops[1..])
  }

  /** The last operation of the wanted kind, if there is one. */
  function LastBoot(ops: seq<Operation>): (r: Option<Operation>)
    ensures r.Some? ==> r.value.NoteBoot?
    decreases |ops|
  {
    if ops == [] then None
    else if ops[|ops| - 1].NoteBoot? then Some(ops[|ops| - 1])
    else LastBoot(ops[..|ops| - 1])
  }

  function LastCapture(ops: seq<Operation>): (r: Option<Operation>)
    ensures r.Some? ==> r.value.Capture?
    decreases |ops|
  {
    if ops == [] then None
    else if ops[|ops| - 1].Capture? then Some(ops[|ops| - 1])
    else LastCapture(ops[..|ops| - 1])
  }

  lemma {:induction false} CapturesAppend(ops: seq<Operation>, op: Operation)
    ensures Captures(ops + [op]) == Captures(ops) + (if op.Capture? then 1 else 0)
  {
    if ops == [] {
      assert ops + [op] == [op];
    } else {
      assert (ops + [op])[1..] == ops[1..] + [op];
      CapturesAppend(ops[1..], op);
    }
  }

  /** What the record says after any number of completed operations: the sequence counts
      captures from the initial record (or 0) modulo 2^32, the reset cause is the last
      boot's and the fault fields are the last capture's. */
  function Expected(start: Option<Snapshot>, ops: seq<Operation>): Snapshot
    requires ops != []
  {
    var s0 := if start.Some? then start.value else Snapshot(REASON_NONE, 0, 0, 0, 0, 0);
    var boot, fault := LastBoot(ops), LastCapture(ops);
    Snapshot(
      if fault.Some? then FaultReason(fault.value.reason) else s0.reason,
      (s0.sequence + Captures(ops)) % W32,
      if boot.Some? then boot.value.cause else s0.resetCause,
      if fault.Some? then fault.value.exceptionNumber % 0x100_0000 else s0.exceptionNumber,
      if fault.Some? then fault.value.pc else s0.pc,
      if fault.Some? then fault.value.xpsr else s0.xpsr)
  }

  lemma {:induction false} LastOfLonger(init: seq<Operation>, op: Operation)
    ensures LastBoot(init + [op]) == if op.NoteBoot? then Some(op) else LastBoot(init)
    ensures LastCapture(init + [op]) == if op.Capture? then Some(op) else LastCapture(init)
  {
    assert (init + [op])[..|init|] == init;
  }

  lemma {:induction false} ExpectedStep(start: Option<Snapshot>, init: seq<Operation>, op: Operation)
    ensures Expected(start, init + [op])
         == Effect(if init == [] then start else Some(Expected(start, init)), op)
  {
    LastOfLonger(init, op);
    CapturesAppend(init, op);
    NextSequence(if start.Some? then start.value.sequence else 0, Captures(init));
    if init == [] {
      assert Captures(init) == 0 && LastBoot(init) == None && LastCapture(init) == None;
    }
    hide LastBoot, LastCapture, Captures, FaultReason;
  }

  lemma {:induction false} NextSequence(first: uint32, n: nat)
    ensures ((first + n) % W32 + 1) % W32 == (first + n + 1) % W32
    ensures first % W32 == first
  {
  }

  lemma {:induction false} LifeStep(m: Image, init: seq<Operation>, op: Operation)
    ensures Decode(Life(m, init + [op])) == Some(Effect(Decode(Life(m, init)), op))
  {
    var ops := init + [op];
    assert ops[..|ops| - 1] == init;
    CompletedOperation(Life(m, init), op);
  }

  lemma {:induction false} Lifecycle(m: Image, ops: seq<Operation>)
    requires ops != []
    ensures Decode(Life(m, ops)) == Some(Expected(Decode(m), ops))
    decreases |ops|
  {
    var init, op := ops[..|ops| - 1], ops[|ops| - 1];
    assert ops == init + [op];
    LifeStep(m, init, op);
    ExpectedStep(Decode(m), init, op);
    if init != [] {
      Lifecycle(m, init);
    }
  }

  /** An operation of which only the first `stored` stores reach memory. */
  datatype Attempt = Attempt(op: Operation, stored: nat)

  function Attempted(m: Image, a: Attempt): Image {
    var st := Stores(m, a.op);
    Run(m, if a.stored <= |st| then st[..a.stored] else st)
  }

  function Attempts(m: Image, list: seq<Attempt>): Image
    decreases |list|
  {
    if list == [] then m
    else Attempted(Attempts(m, list[..|list| - 1]), list[|list| - 1])
  }

  /** The record after a list of operations each of which happened completely. */
  function Outcome(start: Option<Snapshot>, ops: seq<Operation>): Option<Snapshot>
    decreases |ops|
  {
    if ops == [] then start
    else Some(Effect(Outcome(start, ops[..|ops| - 1]), ops[|ops| - 1]))
  }

  /** kept[j] is the operation of attempt at[j], and `at` is increasing. */
  ghost predicate Selects(list: seq<Attempt>, at: seq<nat>, kept: seq<Operation>) {
    && |at| == |kept|
    && (forall j :: 0 <= j < |at| ==> at[j] < |list| && kept[j] == list[at[j]].op)
    && (forall i, j :: 0 <= i < j < |at| ==> at[i] < at[j])
  }

  lemma {:induction false} AttemptStep(m: Image, a: Attempt)
    ensures Decode(Attempted(m, a)) in {None, Decode(m), Some(Effect(Decode(m), a.op))}
  {
    var st := Stores(m, a.op);
    assert st[..|st|] == st;
    ResetAnywhere(m, a.op, if a.stored <= |st| then a.stored else |st|);
  }

  lemma {:induction false} OutcomeStep(start: Option<Snapshot>, ops: seq<Operation>, op: Operation)
    ensures Outcome(start, ops + [op]) == Some(Effect(Outcome(start, ops), op))
  {
    assert (ops + [op])[..|ops|] == ops;
  }

  /** Power cuts only lose operations: after any sequence of operations, each cut off after
      an arbitrary number of its stores, the record is invalid or says exactly what some of
      the operations, in their order, say on the initial record or on an empty one. */
  lemma {:induction false} PowerCutsOnlyLose(m: Image, list: seq<Attempt>)
    returns (at: seq<nat>, kept: seq<Operation>, emptied: bool)
    ensures Selects(list, at, kept)
    ensures Decode(Attempts(m, list)) == Outcome(if emptied then None else Decode(m), kept)
    decreases |list|
  {
    hide Decode, Attempted, Effect, IsValid;
    at, kept, emptied := [], [], false;
    if list != [] {
      var init, a := list[..|list| - 1], list[|list| - 1];
      at, kept, emptied := PowerCutsOnlyLose(m, init);
      var before := Attempts(m, init);
      var after := Decode(Attempted(before, a));
      AttemptStep(before, a);
      if after == None {
        at, kept, emptied := [], [], true;
      } else if after != Decode(before) {
        OutcomeStep(if emptied then None else Decode(m), kept, a.op);
        at, kept := at + [|init|], kept + [a.op];
      }
    }
  }

  // ---- the diagnostics page ----

  function DecodeRegisterImage(bytes: Bytes): Option<Snapshot>
    requires |bytes| == 24
  {
    if bytes[0] != 1 then None
    else
      Some(Snapshot(bytes[1], Field(bytes, 4), Field(bytes, 8), Field(bytes, 12),
                    Field(bytes, 16), Field(bytes, 20)))
  }

  function Field(bytes: Bytes, at: nat): uint32
    requires at + 4 <= |bytes|
  {
    BigBound(bytes[at..at + 4]);
    Limits();
    FromBig(bytes[at..at + 4])
  }

  /** The page of a valid record, byte by byte. */
  lemma {:induction false} PageBytes(m: Image)
    requires IsValid(m)
    ensures RegisterImage(Decode(m))
         == [1, m.reason % 256, 0, 2] + HighFirst(m.sequence) + HighFirst(m.resetCause)
            + HighFirst(m.reason / 256) + HighFirst(m.pc) + HighFirst(m.xpsr)
  {
    hide BigEndian, HighFirst, Decode, IsValid;
    DecodedFields(m);
    HighFirstBytes(m.sequence);
    HighFirstBytes(m.resetCause);
    HighFirstBytes(m.reason / 256);
    HighFirstBytes(m.pc);
    HighFirstBytes(m.xpsr);
  }

  /** A reader of the 24-byte page recovers exactly the decoded record. */
  lemma {:induction false} RegisterImageRoundTrip(m: Image)
    ensures |RegisterImage(Decode(m))| == 24
    ensures DecodeRegisterImage(RegisterImage(Decode(m))) == Decode(m)
  {
    var d := Decode(m);
    if d.Some? {
      var s := d.value;
      var b := RegisterImage(d);
      Limits();
      BigRoundTrip(s.sequence, 4);
      BigRoundTrip(s.resetCause, 4);
      BigRoundTrip(s.exceptionNumber, 4);
      BigRoundTrip(s.pc, 4);
      BigRoundTrip(s.xpsr, 4);
      SixWords([1, s.reason % 256, FORMAT_VERSION / 256, FORMAT_VERSION % 256], BigEndian(s.sequence, 4),
               BigEndian(s.resetCause, 4), BigEndian(s.exceptionNumber, 4), BigEndian(s.pc, 4), BigEndian(s.xpsr, 4));
    }
  }

  lemma {:induction false} SixWords(a: Bytes, b: Bytes, c: Bytes, d: Bytes, e: Bytes, f: Bytes)
    requires |a| == |b| == |c| == |d| == |e| == |f| == 4
    ensures var w := a + b + c + d + e + f;
            w[..4] == a && w[4..8] == b && w[8..12] == c && w[12..16] == d && w[16..20] == e && w[20..24] == f
  {
    assert (a + b + c + d)[4..8] == b;
  }
}
