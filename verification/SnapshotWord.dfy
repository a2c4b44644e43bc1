/** The packed state word of a snapshot: the active-buffer bit and two 15-bit reader
    counts in one 32-bit atomic. */
module SnapshotWord {
  import opened Bits

  const READER_MASK: uint32 := 0x7fff

  /** A buffer index, 0 or 1. */
  type Buffer = b: int | 0 <= b <= 1

  function Other(b: Buffer): Buffer { 1 - b }

  // ---- the expressions of the source ----

  function ReaderShift(b: Buffer): nat { if b == 0 then 1 else 16 }

  function ReaderCount(word: uint32, b: Buffer): nat {
    BitAnd(ShiftRight(word, ReaderShift(b)), READER_MASK)
  }

  function ActiveBit(word: uint32): (b: Buffer) {
    BitAnd(word, 1)
  }

  function InactiveBit(word: uint32): (b: Buffer) {
    XorBit(ActiveBit(word));
    BitXor(BitAnd(word, 1), 1)
  }

  /** state + (1 << shift of the active buffer). */
  function Acquired(word: uint32): uint32 {
    Add32(word, ShiftLeft32(1, ReaderShift(ActiveBit(word))))
  }

  /** fetch_sub of 1 << shift. */
  function Released(word: uint32, b: Buffer): uint32 {
    Sub32(word, ShiftLeft32(1, ReaderShift(b)))
  }

  function Flipped(word: uint32): uint32 {
    Xor32(word, 1);
    BitXor(word, 1)
  }

  // ---- what the word stands for ----

  datatype Counts = Counts(active: Buffer, zero: nat, one: nat) {
    function Of(b: Buffer): nat { if b == 0 then zero else one }
    function With(b: Buffer, n: nat): Counts { if b == 0 then this.(zero := n) else this.(one := n) }
    predicate Fits() { zero <= READER_MASK && one <= READER_MASK }
  }

  function Pack(c: Counts): uint32
    requires c.Fits()
  {
    c.active + 2 * c.zero + 0x1_0000 * c.one
  }

  lemma {:induction false} ShiftValues()
    ensures ShiftLeft32(1, 1) == 2 && ShiftLeft32(1, 16) == 0x1_0000
  {
    Pow2Values();
  }

  lemma {:induction false} LowBit(word: uint32)
    ensures ActiveBit(word) == word % 2 && InactiveBit(word) == Other(ActiveBit(word))
  {
    assert Pow2(1) == 2;
    AndMask(word, 1);
    XorBit(ActiveBit(word));
  }

  lemma {:induction false} ActiveField(c: Counts)
    requires c.Fits()
    ensures ActiveBit(Pack(c)) == c.active
    ensures InactiveBit(Pack(c)) == Other(c.active)
  {
    LowBit(Pack(c));
  }

  /** Reading the fields of a packed word. */
  lemma {:induction false} Fields(c: Counts, b: Buffer)
    requires c.Fits()
    ensures ActiveBit(Pack(c)) == c.active
    ensures InactiveBit(Pack(c)) == Other(c.active)
    ensures ReaderCount(Pack(c), b) == c.Of(b)
  {
    var w := Pack(c);
    ActiveField(c);
    PackedCounts(c, w);
    if b == 0 {
      CountZero(w);
    } else {
      CountOne(w);
    }
  }

  lemma {:induction false} PackedCounts(c: Counts, w: uint32)
    requires c.Fits() && w == Pack(c)
    ensures w / 2 % 0x8000 == c.zero && w / 0x1_0000 % 0x8000 == c.one
  {
    assert w / 2 == c.zero + 0x8000 * c.one;
  }

  lemma {:induction false} CountZero(w: uint32)
    ensures ReaderCount(w, 0) == w / 2 % 0x8000
  {
    Pow2Values();
    ShiftRightDivides(w, 1);
    AndMask(w / 2, 15);
  }

  lemma {:induction false} CountOne(w: uint32)
    ensures ReaderCount(w, 1) == w / 0x1_0000 % 0x8000
  {
    Pow2Values();
    ShiftRightDivides(w, 16);
    AndMask(w / 0x1_0000, 15);
  }

  lemma {:induction false} XorBit(b: Buffer)
    ensures BitXor(b, 1) == 1 - b
  {
  }

  /** Acquire, release and publish on the word are increment, decrement and toggle on the
      triple: no carry or borrow crosses a field as long as the counts are in range. */
  lemma {:induction false} AcquireIncrements(c: Counts)
    requires c.Fits() && c.Of(c.active) < READER_MASK
    ensures Acquired(Pack(c)) == Pack(c.With(c.active, c.Of(c.active) + 1))
  {
    AcquireAdds(c);
  }

  lemma {:induction false} AcquireAdds(c: Counts)
    requires c.Fits()
    ensures Acquired(Pack(c)) == Pack(c) + (if c.active == 0 then 2 else 0x1_0000)
  {
    ActiveField(c);
    ShiftValues();
  }

  lemma {:induction false} ReleaseDecrements(c: Counts, b: Buffer)
    requires c.Fits() && c.Of(b) > 0
    ensures Released(Pack(c), b) == Pack(c.With(b, c.Of(b) - 1))
  {
    ShiftValues();
  }

  lemma {:induction false} FlipToggles(c: Counts)
    requires c.Fits()
    ensures Flipped(Pack(c)) == Pack(c.(active := Other(c.active)))
  {
    var w := Pack(c);
    assert w % 2 == c.active && w / 2 == c.zero + 0x8000 * c.one;
    XorHalf(w, 1);
    XorZero(w / 2);
  }

  /** What any word counts, the top bit set or not. */
  lemma {:induction false} CountsOfWord(w: uint32, active: Buffer, low: nat, high: nat)
    requires low < 0x8000 && w == active + 2 * low + 0x1_0000 * high
    ensures ReaderCount(w, 0) == low && ReaderCount(w, 1) == high % 0x8000
  {
    hide ReaderCount;
    CountZero(w);
    CountOne(w);
    assert w / 0x1_0000 == high && w / 2 == low + 0x8000 * high;
  }

  /** The guard of acquire is needed: on a saturated count the addition carries out of the
      field, and the word counts no reader of the active buffer. From buffer 0 the carry goes
      into the count of buffer 1; from buffer 1 it goes into the unused top bit. */
  lemma {:induction false} AcquireNeedsTheGuard(c: Counts)
    requires c.Fits() && c.Of(c.active) == READER_MASK
    ensures var w := Acquired(Pack(c));
            && ReaderCount(w, c.active) == 0
            && ReaderCount(w, Other(c.active)) == if c.active == 0 then (c.one + 1) % 0x8000 else c.zero
  {
    hide ReaderCount, Acquired;
    AcquireAdds(c);
    if c.active == 0 {
      CountsOfWord(Acquired(Pack(c)), 0, 0, c.one + 1);
    } else {
      CountsOfWord(Acquired(Pack(c)), 1, c.zero, 0x8000);
    }
  }

  /** Release needs a holder: from a count of zero the subtraction borrows, and the word counts
      32767 readers. From buffer 0 it borrows from the count of buffer 1; from buffer 1 it
      borrows from the unused top bit. */
  lemma {:induction false} ReleaseNeedsAHolder(c: Counts, b: Buffer)
    requires c.Fits() && c.Of(b) == 0
    ensures var w := Released(Pack(c), b);
            && ReaderCount(w, b) == READER_MASK
            && ReaderCount(w, Other(b)) == if b == 0 then (if c.one == 0 then READER_MASK else c.one - 1) else c.zero
  {
    hide ReaderCount, ShiftLeft32;
    ShiftValues();
    if b == 0 {
      CountsOfWord(Released(Pack(c), 0), c.active, READER_MASK, if c.one == 0 then 0xffff else c.one - 1);
    } else {
      CountsOfWord(Released(Pack(c), 1), c.active, c.zero, 0xffff);
    }
  }
}
