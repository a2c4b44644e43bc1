/** CRC-32 (section 8 of RFC 1952), in the bitwise form of `lib_crash_crc32`. */
module Crc32 {
  import opened Bits
  import opened Endian

  const POLYNOMIAL: uint32 := 0xEDB8_8320
  const ALL_ONES: uint32 := 0xFFFF_FFFF

  /** One turn of the inner loop. */
  function BitStep(crc: uint32): (r: uint32)
  {
    Xor32(ShiftedOut(crc), if BitAnd(crc, 1) != 0 then POLYNOMIAL else 0);
    BitXor(ShiftedOut(crc), if BitAnd(crc, 1) != 0 then POLYNOMIAL else 0)
  }

  function ShiftedOut(crc: uint32): uint32 { ShiftRight(crc, 1) }

  function BitSteps(crc: uint32, n: nat): uint32
    decreases n, crc
  {
    if n == 0 then crc else BitSteps(BitStep(crc), n - 1)
  }

  /** One turn of the outer loop. */
  function ByteStep(crc: uint32, b: byte): uint32 {
    Xor32(crc, b);
    BitSteps(BitXor(crc, b), 8)
  }

  function Register(crc: uint32, data: Bytes): uint32
    decreases |data|
  {
    if data == [] then crc
    else ByteStep(Register(crc, data[..|data| - 1]), data[|data| - 1])
  }

  function Crc(data: Bytes): uint32 {
    ALL_ONES - Register(ALL_ONES, data)   // ~crc
  }

  /** The nested loops of the source compute `Crc`. */
  method Compute(data: Bytes) returns (r: uint32)
    ensures r == Crc(data)
  {
    var crc: uint32 := ALL_ONES;
    for index := 0 to |data|
      invariant crc == Register(ALL_ONES, data[..index])
    {
      assert data[..index + 1][..index] == data[..index];
      Xor32(crc, data[index]);
      crc := BitXor(crc, data[index]);
      ghost var start: uint32 := crc;
      for bit := 0 to 8
        invariant BitSteps(start, 8) == BitSteps(crc, 8 - bit)
      {
        crc := BitStep(crc);
      }
    }
    assert data[..|data|] == data;
    r := ALL_ONES - crc;
  }

  // ---- the bit step is linear and injective ----

  lemma {:induction false} BitStepByHalves(crc: uint32)
    ensures BitAnd(crc, 1) == crc % 2 && ShiftRight(crc, 1) == crc / 2
    ensures BitStep(crc) == BitXor(crc / 2, if crc % 2 == 1 then POLYNOMIAL else 0)
  {
    assert Pow2(1) == 2;
    AndMask(crc, 1);
    assert ShiftRight(crc, 1) == ShiftRight(crc / 2, 0);
  }

  lemma {:induction false} BitStepLinear(a: uint32, b: uint32)
    ensures BitXor(a, b) < W32
    ensures BitStep(BitXor(a, b)) == BitXor(BitStep(a), BitStep(b))
  {
    Xor32(a, b);
    BitStepByHalves(a);
    BitStepByHalves(b);
    BitStepByHalves(BitXor(a, b));
    XorHalf(a, b);
    var pa := if a % 2 == 1 then POLYNOMIAL else 0;
    var pb := if b % 2 == 1 then POLYNOMIAL else 0;
    XorRegroup(a / 2, pa, b / 2, pb);
    XorSelf(POLYNOMIAL);
    XorZero(POLYNOMIAL);
    XorZero(0);
  }

  /** (a ^ p) ^ (b ^ q) == (a ^ b) ^ (p ^ q). */
  lemma {:induction false} XorRegroup(a: nat, p: nat, b: nat, q: nat)
    ensures BitXor(BitXor(a, p), BitXor(b, q)) == BitXor(BitXor(a, b), BitXor(p, q))
  {
    XorAssociates(a, p, BitXor(b, q));
    XorAssociates(p, b, q);
    XorCommutes(p, b);
    XorAssociates(b, p, q);
    XorAssociates(a, b, BitXor(p, q));
  }

  lemma {:induction false} BitStepInjective(a: uint32, b: uint32)
    requires BitStep(a) == BitStep(b)
    ensures a == b
  {
    BitStepByHalves(a);
    BitStepByHalves(b);
    Pow2Values();
    XorZero(a / 2);
    XorZero(b / 2);
    XorTopBit(a / 2, POLYNOMIAL, 31);
    XorTopBit(b / 2, POLYNOMIAL, 31);
    if a % 2 == 1 && b % 2 == 1 {
      XorInjective(a / 2, b / 2, POLYNOMIAL);
    }
  }

  lemma {:induction false} BitStepsLinear(a: uint32, b: uint32, n: nat)
    ensures BitXor(a, b) < W32
    ensures BitSteps(BitXor(a, b), n) == BitXor(BitSteps(a, n), BitSteps(b, n))
    decreases n
  {
    BitStepLinear(a, b);
    if n != 0 {
      BitStepsLinear(BitStep(a), BitStep(b), n - 1);
    }
  }

  lemma {:induction false} BitStepsInjective(a: uint32, b: uint32, n: nat)
    requires BitSteps(a, n) == BitSteps(b, n)
    ensures a == b
    decreases n
  {
    if n != 0 {
      BitStepsInjective(BitStep(a), BitStep(b), n - 1);
      BitStepInjective(a, b);
    }
  }

  lemma {:induction false} BitStepsAdd(a: uint32, m: nat, n: nat)
    ensures BitSteps(a, m + n) == BitSteps(BitSteps(a, m), n)
    decreases m
  {
    if m != 0 {
      BitStepsAdd(BitStep(a), m - 1, n);
    }
  }

  /** A word whose low n bits are clear is simply shifted down. */
  lemma {:induction false} BitStepsShift(x: nat, n: nat)
    requires Pow2(n) * x < W32
    ensures x < W32 && BitSteps(Pow2(n) * x, n) == x
    decreases n
  {
    if n != 0 {
      var y := Pow2(n - 1) * x;
      assert Pow2(n) * x == 2 * y;
      BitStepByHalves(2 * y);
      XorZero(y);
      BitStepsShift(x, n - 1);
    }
  }

  lemma {:induction false} ByteStepInjective(c: uint32, d: uint32, b: byte)
    requires ByteStep(c, b) == ByteStep(d, b)
    ensures c == d
  {
    Xor32(c, b);
    Xor32(d, b);
    BitStepsInjective(BitXor(c, b), BitXor(d, b), 8);
    XorInjective(c, d, b);
  }

  // ---- bytes as one word ----

  lemma {:induction false} RegisterAppend(c: uint32, a: Bytes, b: Bytes)
    ensures Register(c, a + b) == Register(Register(c, a), b)
    decreases |b|
  {
    if b == [] {
      assert a + b == a;
    } else {
      assert (a + b)[..|a + b| - 1] == a + b[..|b| - 1];
      RegisterAppend(c, a, b[..|b| - 1]);
    }
  }

  lemma {:induction false} WordFits(data: Bytes)
    requires |data| <= 4
    ensures FromLittle(data) < W32
  {
    LittleInverse(data);
    Limits();
    if |data| < 4 { LimitMonotone(|data|, 4); }
  }

  /** Eight bit steps consume the lowest byte and shift the others down. */
  lemma {:induction false} LowByte(c: uint32, first: byte, high: nat)
    requires first + 256 * high < W32
    ensures BitXor(c, first + 256 * high) < W32 && high < W32
    ensures BitSteps(BitXor(c, first + 256 * high), 8) == BitXor(ByteStep(c, first), high)
  {
    hide BitXor, BitSteps, Pow2;
    Pow2Values();
    Xor32(c, first);
    XorDisjoint(first, high, 8);
    XorAssociates(c, first, 256 * high);
    BitStepsShift(high, 8);
    SplitSteps(BitXor(c, first), 256 * high);
  }

  lemma {:induction false} SplitSteps(a: uint32, b: uint32)
    ensures BitXor(a, b) < W32
    ensures BitSteps(BitXor(a, b), 8) == BitXor(BitSteps(a, 8), BitSteps(b, 8))
  {
    BitStepsLinear(a, b, 8);
  }

  /** Up to four bytes enter the register as one word. */
  lemma {:induction false} RegisterOfWord(c: uint32, data: Bytes)
    requires |data| <= 4
    ensures FromLittle(data) < W32 && BitXor(c, FromLittle(data)) < W32
    ensures Register(c, data) == BitSteps(BitXor(c, FromLittle(data)), 8 * |data|)
    decreases |data|
  {
    WordFits(data);
    Xor32(c, FromLittle(data));
    if data == [] {
      XorZero(c);
    } else {
      var first, rest := data[0], data[1..];
      assert data == [first] + rest;
      RegisterAppend(c, [first], rest);
      OneByte(c, first);
      LowByte(c, first, FromLittle(rest));
      RegisterOfWord(ByteStep(c, first), rest);
      BitStepsAdd(BitXor(c, FromLittle(data)), 8, 8 * |rest|);
    }
  }

  lemma {:induction false} OneByte(c: uint32, b: byte)
    ensures Register(c, [b]) == ByteStep(c, b)
  {
    assert [b][..0] == [];
  }

  lemma {:induction false} RegisterInjective(c: uint32, d: uint32, data: Bytes)
    requires Register(c, data) == Register(d, data)
    ensures c == d
    decreases |data|
  {
    if data != [] {
      var init := data[..|data| - 1];
      ByteStepInjective(Register(c, init), Register(d, init), data[|data| - 1]);
      RegisterInjective(c, d, init);
    }
  }

  /** Burst detection: two inputs that differ, and differ only inside a window of at most
      four consecutive bytes, never share a CRC. The inputs may have any length. */
  lemma {:induction false} BurstDetected(before: Bytes, a: Bytes, b: Bytes, after: Bytes)
    requires |a| == |b| <= 4 && a != b
    ensures Crc(before + a + after) != Crc(before + b + after)
  {
    if Crc(before + a + after) == Crc(before + b + after) {
      var c := Register(ALL_ONES, before);
      RegisterAppend(ALL_ONES, before + a, after);
      RegisterAppend(ALL_ONES, before + b, after);
      RegisterAppend(ALL_ONES, before, a);
      RegisterAppend(ALL_ONES, before, b);
      RegisterInjective(Register(c, a), Register(c, b), after);
      RegisterOfWord(c, a);
      RegisterOfWord(c, b);
      BitStepsInjective(BitXor(c, FromLittle(a)), BitXor(c, FromLittle(b)), 8 * |a|);
      XorCommutes(c, FromLittle(a));
      XorCommutes(c, FromLittle(b));
      XorInjective(FromLittle(a), FromLittle(b), c);
      LittleInverse(a);
      LittleInverse(b);
      assert false;
    }
  }

  /** The same, for sequences compared position by position. */
  lemma {:induction false} WindowChangeDetected(x: Bytes, y: Bytes, start: nat)
    requires |x| == |y| && x != y
    requires forall i :: 0 <= i < |x| && !(start <= i < start + 4) ==> x[i] == y[i]
    ensures Crc(x) != Crc(y)
  {
    var lo := if start <= |x| then start else |x|;
    var hi := if start + 4 <= |x| then start + 4 else |x|;
    assert x == x[..lo] + x[lo..hi] + x[hi..];
    assert y == x[..lo] + y[lo..hi] + x[hi..];
    BurstDetected(x[..lo], x[lo..hi], y[lo..hi], x[hi..]);
  }

  // ---- the table form of the standard ----

  /** Entry n of the table that `make_crc_table` of RFC 1952, section 8, builds. */
  function Entry(n: byte): uint32 { BitSteps(n, 8) }

  /** One turn of `update_crc` there: c = crc_table[(c ^ b) & 0xff] ^ (c >> 8). */
  function TableStep(crc: uint32, b: byte): uint32 {
    LowBits(BitXor(crc, b));
    Xor32(Entry(BitAnd(BitXor(crc, b), 0xff)), ShiftRight(crc, 8));
    BitXor(Entry(BitAnd(BitXor(crc, b), 0xff)), ShiftRight(crc, 8))
  }

  function TableRegister(crc: uint32, data: Bytes): uint32
    decreases |data|
  {
    if data == [] then crc
    else TableStep(TableRegister(crc, data[..|data| - 1]), data[|data| - 1])
  }

  lemma {:induction false} LowBits(x: nat)
    ensures BitAnd(x, 0xff) == x % 256
  {
    Pow2Values();
    AndMask(x, 8);
  }

  lemma {:induction false} ShiftByte(x: nat)
    ensures ShiftRight(x, 8) == x / 256
  {
    Pow2Values();
    ShiftRightDivides(x, 8);
  }

  /** Exclusive-or with a byte leaves what is above it. */
  lemma {:induction false} XorByte(crc: uint32, b: byte)
    ensures BitXor(crc, b) / 256 == crc / 256
  {
    var low, high := crc % 256, crc / 256;
    Pow2Values();
    XorBound(low, b, 8);
    XorDisjoint(low, high, 8);
    XorDisjoint(BitXor(low, b), high, 8);
    XorCommutes(low, 256 * high);
    XorAssociates(256 * high, low, b);
    XorCommutes(256 * high, BitXor(low, b));
    ModUnique(BitXor(crc, b), 256, high, BitXor(low, b));
  }

  lemma {:induction false} StepFromTable(crc: uint32, b: byte)
    ensures TableStep(crc, b) == ByteStep(crc, b)
  {
    hide BitXor, BitAnd, BitSteps, ShiftRight, Pow2;
    Xor32(crc, b);
    var x := BitXor(crc, b);
    var low, high := x % 256, x / 256;
    LowBits(x);
    ShiftByte(crc);
    XorByte(crc, b);
    Pow2Values();
    XorDisjoint(low, high, 8);
    SplitSteps(low, 256 * high);
    BitStepsShift(high, 8);
  }

  lemma {:induction false} RegisterFromTable(crc: uint32, data: Bytes)
    ensures TableRegister(crc, data) == Register(crc, data)
    decreases |data|
  {
    if data != [] {
      RegisterFromTable(crc, data[..|data| - 1]);
      StepFromTable(Register(crc, data[..|data| - 1]), data[|data| - 1]);
    }
  }

  /** The bitwise CRC of the source is the table-driven one of the standard, and of zlib. */
  lemma {:induction false} CrcFromTable(data: Bytes)
    ensures Crc(data) == 0xFFFF_FFFF - TableRegister(0xFFFF_FFFF, data)
  {
    RegisterFromTable(ALL_ONES, data);
  }

  /** The entries at 1, 2, 4, ..., 128 of the table, as the standard lists them. */
  const STANDARD_ENTRIES: seq<uint32> :=
    [0x7707_3096, 0xEE0E_612C, 0x076D_C419, 0x0EDB_8832, 0x1DB7_1064, 0x3B6E_20C8, 0x76DC_4190, 0xEDB8_8320]

  lemma {:induction false} TableEntry(k: nat)
    requires k < 8
    ensures Pow2(k) < 256 && Entry(Pow2(k)) == STANDARD_ENTRIES[k]
    decreases 8 - k
  {
    hide BitXor, BitStep, BitSteps;
    assert Pow2(7) == 128;
    if k == 7 {
      FirstEntry();
    } else {
      if k < 6 { Pow2Monotone(k + 1, 7); }
      TableEntry(k + 1);
      NextEntry(Pow2(k), STANDARD_ENTRIES[k + 1]);
      OddEntry(0x03B6_E20C, POLYNOMIAL);
    }
  }

  /** The other entries follow from these: the table is linear. */
  lemma {:induction false} TableIsLinear(a: byte, b: byte)
    ensures BitXor(a, b) < 256 && Entry(BitXor(a, b)) == BitXor(Entry(a), Entry(b))
  {
    Pow2Values();
    XorBound(a, b, 8);
    BitStepsLinear(a, b, 8);
  }

  lemma {:induction false} FirstEntry()
    ensures Entry(128) == POLYNOMIAL
  {
    hide BitXor, BitStep;
    assert Pow2(7) == 128;
    BitStepsShift(1, 7);
    BitStepsAdd(128, 7, 1);
    OneBitStep(1);
    BitStepByHalves(1);
    XorZero(POLYNOMIAL);
  }

  lemma {:induction false} OneBitStep(crc: uint32)
    ensures BitSteps(crc, 1) == BitStep(crc)
  {
    hide BitStep;
  }

  /** Half an index, one bit step more. */
  lemma {:induction false} NextEntry(n: byte, twice: uint32)
    requires 0 < n < 128 && Entry(2 * n) == twice
    ensures Entry(n) == BitXor(twice / 2, if twice % 2 == 1 then POLYNOMIAL else 0)
    ensures twice % 2 == 0 ==> Entry(n) == twice / 2
  {
    hide BitXor, BitStep;
    BitStepByHalves(2 * n);
    XorZero(n);
    assert BitSteps(2 * n, 9) == BitSteps(n, 8);
    BitStepsAdd(2 * n, 8, 1);
    OneBitStep(twice);
    BitStepByHalves(twice);
    XorZero(twice / 2);
  }

  lemma {:induction false} OddEntry(half: uint32, p: uint32)
    requires half == 0x03B6_E20C && p == 0xEDB8_8320
    ensures BitXor(half, p) == 0xEE0E_612C
  {
    hide BitXor, Pow2;
    Pow2Values();
    XorIs(0x0C, 0x20, 0x2C);
    XorIs(0xE2, 0x83, 0x61);
    XorIs(0xB6, 0xB8, 0x0E);
    XorIs(0x03, 0xED, 0xEE);
    XorSplit(0x0C, 0xE2, 0x20, 0x83, 8);
    XorSplit(0xB6, 0x03, 0xB8, 0xED, 8);
    XorSplit(0xE20C, 0x03B6, 0x8320, 0xEDB8, 16);
  }

  lemma {:induction false} XorIs(a: byte, b: byte, c: byte)
    requires EvenBits(a, b, c, 8)
    ensures BitXor(a, b) == c
  {
    assert Pow2(8) == 256;
    XorOfBits(a, b, c, 8);
  }

  /** At each of the low n bits the three numbers have an even number of ones. */
  predicate EvenBits(a: nat, b: nat, c: nat, n: nat)
    decreases n
  {
    n == 0 || ((a + b + c) % 2 == 0 && EvenBits(a / 2, b / 2, c / 2, n - 1))
  }

  lemma {:induction false} XorOfBits(a: nat, b: nat, c: nat, n: nat)
    requires a < Pow2(n) && b < Pow2(n) && c < Pow2(n) && EvenBits(a, b, c, n)
    ensures BitXor(a, b) == c
    decreases n
  {
    if n == 0 {
      XorZero(0);
    } else {
      hide BitXor, EvenBits, Pow2;
      PowerDoubles(n - 1);
      var p := Pow2(n - 1);
      assert a < 2 * p && b < 2 * p && c < 2 * p;
      EvenBitsNext(a, b, c, n - 1);
      XorOfBits(a / 2, b / 2, c / 2, n - 1);
      XorHalf(a, b);
      SameParity(a + b, c);
    }
  }

  lemma {:induction false} SameParity(a: nat, b: nat)
    requires (a + b) % 2 == 0
    ensures a % 2 == b % 2
  {
  }

  lemma {:induction false} EvenBitsNext(a: nat, b: nat, c: nat, n: nat)
    requires EvenBits(a, b, c, n + 1)
    ensures (a + b + c) % 2 == 0 && EvenBits(a / 2, b / 2, c / 2, n)
  {
  }

  // ---- bursts that start inside a byte ----

  lemma {:induction false} XorSplit(a: nat, x: nat, b: nat, y: nat, k: nat)
    requires a < Pow2(k) && b < Pow2(k)
    ensures BitXor(a + Pow2(k) * x, b + Pow2(k) * y) == BitXor(a, b) + Pow2(k) * BitXor(x, y)
    ensures BitXor(a, b) < Pow2(k)
  {
    hide BitXor, Pow2;
    XorBound(a, b, k);
    XorDisjoint(a, x, k);
    XorDisjoint(b, y, k);
    XorRegroup(a, Pow2(k) * x, b, Pow2(k) * y);
    XorScaled(x, y, k);
    XorDisjoint(BitXor(a, b), BitXor(x, y), k);
  }

  lemma {:induction false} XorScaled(x: nat, y: nat, k: nat)
    ensures BitXor(Pow2(k) * x, Pow2(k) * y) == Pow2(k) * BitXor(x, y)
  {
    hide BitXor;
    if k != 0 {
      var p := Pow2(k - 1);
      XorScaled(x, y, k - 1);
      DoubleProduct(p, x);
      DoubleProduct(p, y);
      DoubleProduct(p, BitXor(x, y));
      XorHalf(2 * (p * x), 2 * (p * y));
    }
  }

  lemma {:induction false} ZeroSteps(n: nat)
    ensures BitSteps(0, n) == 0
    decreases n
  {
    if n != 0 {
      BitStepByHalves(0);
      ZeroSteps(n - 1);
    }
  }

  /** n steps on a word that is not zero do not cancel its upper part. */
  lemma {:induction false} NoCancel(f: nat, g: nat, n: nat)
    requires f < Pow2(n) && 0 < f + Pow2(n) * g < W32
    ensures f < W32 && g < W32 && BitSteps(f, n) != g
  {
    hide BitXor, BitSteps, Pow2;
    Fits(f, g, Pow2(n));
    XorDisjoint(f, g, n);
    BitStepsLinear(f, Pow2(n) * g, n);
    BitStepsShift(g, n);
    if BitSteps(f, n) == g {
      XorSelf(g);
      ZeroSteps(n);
      BitStepsInjective(f + Pow2(n) * g, 0, n);
    }
  }

  lemma {:induction false} Fits(f: nat, g: nat, p: nat)
    requires p >= 1 && f + p * g < W32
    ensures f < W32 && g < W32 && p * g < W32
  {
    assert p * g >= g;
  }

  /** The registers after one byte each differ by what eight steps make of the difference. */
  lemma {:induction false} OneByteDifference(c: uint32, a: byte, b: byte)
    ensures BitXor(a, b) < W32 && BitXor(ByteStep(c, a), ByteStep(c, b)) == BitSteps(BitXor(a, b), 8)
  {
    Xor32(a, b);
    Xor32(c, a);
    Xor32(c, b);
    BitStepsLinear(BitXor(c, a), BitXor(c, b), 8);
    XorRegroup(c, a, c, b);
    XorSelf(c);
    XorZero(BitXor(a, b));
  }

  /** The first byte of a burst that starts at bit s: the part of it that falls there. */
  lemma {:induction false} BurstParts(a: Bytes, b: Bytes, s: nat, burst: nat) returns (f: nat, g: nat)
    requires |a| == |b| == 5 && s <= 8 && burst < W32
    requires BitXor(FromLittle(a), FromLittle(b)) == Pow2(s) * burst
    ensures f < Pow2(8 - s) && burst == f + Pow2(8 - s) * g
    ensures BitXor(a[0], b[0]) == Pow2(s) * f && BitXor(FromLittle(a[1..]), FromLittle(b[1..])) == g
  {
    hide BitXor, Pow2, FromLittle;
    f, g := SplitBurst(s, burst);
    XorOfBytes(a, b);
    OneSplit(g, Pow2(s) * f, BitXor(FromLittle(a[1..]), FromLittle(b[1..])), BitXor(a[0], b[0]));
  }

  lemma {:induction false} OneSplit(g: nat, f: nat, h: nat, e: nat)
    requires 256 * g + f == e + 256 * h && f < 256 && e < 256
    ensures g == h && f == e
  {
  }

  lemma {:induction false} SplitBurst(s: nat, burst: nat) returns (f: nat, g: nat)
    requires s <= 8
    ensures f < Pow2(8 - s) && burst == f + Pow2(8 - s) * g
    ensures Pow2(s) * burst == 256 * g + Pow2(s) * f && Pow2(s) * f < 256
  {
    hide Pow2;
    var p := Pow2(8 - s);
    f, g := burst % p, burst / p;
    assert burst == f + p * g;
    Pow2Values();
    Pow2Add(s, 8 - s);
    ScaledParts(Pow2(s), p, f, g);
  }

  /** The exclusive-or of two little-endian words, byte zero apart. */
  lemma {:induction false} XorOfBytes(a: Bytes, b: Bytes)
    requires a != [] && b != []
    ensures BitXor(FromLittle(a), FromLittle(b))
         == BitXor(a[0], b[0]) + 256 * BitXor(FromLittle(a[1..]), FromLittle(b[1..]))
    ensures BitXor(a[0], b[0]) < 256
  {
    hide BitXor, Pow2;
    Pow2Values();
    XorSplit(a[0], FromLittle(a[1..]), b[0], FromLittle(b[1..]), 8);
  }

  lemma {:induction false} ScaledParts(q: nat, p: nat, f: nat, g: nat)
    requires q * p == 256 && f < p && q >= 1
    ensures q * (f + p * g) == 256 * g + q * f && q * f < 256
  {
    assert q * (f + p * g) == q * f + (q * p) * g;
    assert q * (f + 1) <= q * p;
  }

  lemma {:induction false} BurstChangesRegister(c: uint32, a: Bytes, b: Bytes, s: nat, burst: nat)
    requires |a| == |b| == 5 && s <= 8 && 0 < burst < W32
    requires BitXor(FromLittle(a), FromLittle(b)) == Pow2(s) * burst
    ensures Register(c, a) != Register(c, b)
  {
    var f, g := BurstParts(a, b, s, burst);
    NoCancel(f, g, 8 - s);
    FirstByteOfBurst(a[0], b[0], s, f);
    OneByteDifference(c, a[0], b[0]);
    var ra, rb := ByteStep(c, a[0]), ByteStep(c, b[0]);
    FiveBytes(c, a);
    FiveBytes(c, b);
    if Register(c, a) == Register(c, b) {
      BitStepsInjective(BitXor(ra, FromLittle(a[1..])), BitXor(rb, FromLittle(b[1..])), 32);
      XorMoves(ra, FromLittle(a[1..]), rb, FromLittle(b[1..]));
    }
  }

  lemma {:induction false} FirstByteOfBurst(a: byte, b: byte, s: nat, f: nat)
    requires s <= 8 && BitXor(a, b) == Pow2(s) * f && f < W32
    ensures BitXor(a, b) < W32 && BitSteps(BitXor(a, b), 8) == BitSteps(f, 8 - s)
  {
    Xor32(a, b);
    BitStepsShift(f, s);
    BitStepsAdd(BitXor(a, b), s, 8 - s);
  }

  lemma {:induction false} FiveBytes(c: uint32, a: Bytes)
    requires |a| == 5
    ensures FromLittle(a[1..]) < W32 && BitXor(ByteStep(c, a[0]), FromLittle(a[1..])) < W32
    ensures Register(c, a) == BitSteps(BitXor(ByteStep(c, a[0]), FromLittle(a[1..])), 32)
  {
    assert a == [a[0]] + a[1..];
    RegisterAppend(c, [a[0]], a[1..]);
    OneByte(c, a[0]);
    RegisterOfWord(ByteStep(c, a[0]), a[1..]);
  }

  /** From p ^ x == q ^ y follows p ^ q == x ^ y. */
  lemma {:induction false} XorMoves(p: nat, x: nat, q: nat, y: nat)
    requires BitXor(p, x) == BitXor(q, y)
    ensures BitXor(p, q) == BitXor(x, y)
  {
    XorRegroup(p, x, q, y);
    XorSelf(BitXor(p, x));
    XorZero(BitXor(p, q));
    XorSelf(BitXor(x, y));
    XorInjective(BitXor(p, q), BitXor(x, y), BitXor(x, y));
  }

  /** Bursts of up to 32 bits, wherever they start: two inputs that differ only inside 32
      consecutive bits, in the order in which the bytes are sent, never share a CRC. Such a
      burst lies inside five bytes, whose difference is a 32-bit word shifted by s. */
  lemma {:induction false} BitBurstDetected(before: Bytes, a: Bytes, b: Bytes, after: Bytes, s: nat, burst: nat)
    requires |a| == |b| == 5 && s <= 8 && 0 < burst < W32
    requires BitXor(FromLittle(a), FromLittle(b)) == Pow2(s) * burst
    ensures Crc(before + a + after) != Crc(before + b + after)
  {
    var c := Register(ALL_ONES, before);
    BurstChangesRegister(c, a, b, s, burst);
    RegisterAppend(ALL_ONES, before + a, after);
    RegisterAppend(ALL_ONES, before + b, after);
    RegisterAppend(ALL_ONES, before, a);
    RegisterAppend(ALL_ONES, before, b);
    if Crc(before + a + after) == Crc(before + b + after) {
      RegisterInjective(Register(c, a), Register(c, b), after);
    }
  }
}
