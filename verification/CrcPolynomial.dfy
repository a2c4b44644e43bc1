/** The CRC as the standards define it (section 8 of RFC 1952, after ISO 3309): the remainder
    of a division of polynomials over the two-element field. */
module CrcPolynomial {
  import opened Bits
  import opened Endian
  import opened Crc32

  // Polynomials are numbers: bit k is the coefficient of x^k. The sum is the exclusive-or.

  /** x^32 + x^26 + x^23 + x^22 + x^16 + x^12 + x^11 + x^10 + x^8 + x^7 + x^5 + x^4 + x^2 + x + 1. */
  function Generator(): nat {
    Pow2(32) + Pow2(26) + Pow2(23) + Pow2(22) + Pow2(16) + Pow2(12) + Pow2(11) + Pow2(10)
    + Pow2(8) + Pow2(7) + Pow2(5) + Pow2(4) + Pow2(2) + Pow2(1) + Pow2(0)
  }

  function Times(p: nat, q: nat): nat
    decreases q
  {
    if q == 0 then 0 else BitXor(if q % 2 == 1 then p else 0, 2 * Times(p, q / 2))
  }

  /** The low n bits in reverse order. */
  function Reversed(x: nat, n: nat): (r: nat)
    ensures r < Pow2(n)
    decreases n
  {
    if n == 0 then 0 else Reversed(x / 2, n - 1) + Pow2(n - 1) * (x % 2)
  }

  /** The bits of a message in the order they are sent, the lowest of each byte first: the
      first bit is the coefficient of the highest power. */
  function Message(data: Bytes): nat
    decreases |data|
  {
    if data == [] then 0 else 256 * Message(data[..|data| - 1]) + Reversed(data[|data| - 1], 8)
  }

  /** r is the remainder of the dividend by the generator, with quotient q. */
  predicate Divides(dividend: nat, q: nat, r: nat) {
    r < 0x1_0000_0000 && dividend == BitXor(Times(Generator(), q), r)
  }

  ghost predicate IsRemainder(dividend: nat, r: nat) { exists q :: Divides(dividend, q, r) }

  /** The dividend of the standard: the message times x^32, with its first 32 bits inverted. */
  function Dividend(data: Bytes): nat {
    BitXor(Message(data) * 0x1_0000_0000, 0xFFFF_FFFF * Pow2(8 * |data|))
  }

  lemma {:induction false} GeneratorValue()
    ensures Generator() == 0x1_04C1_1DB7
  {
    hide Pow2;
    Pow2Values();
    LowPowers();
  }

  lemma {:induction false} LowPowers()
    ensures Pow2(0) == 1 && Pow2(2) == 4 && Pow2(4) == 16 && Pow2(5) == 32 && Pow2(7) == 128 && Pow2(10) == 1024
    ensures Pow2(11) == 2048 && Pow2(12) == 4096 && Pow2(22) == 0x40_0000 && Pow2(23) == 0x80_0000
    ensures Pow2(26) == 0x400_0000
  {
    Pow2Values();
    assert Pow2(10) == 4 * Pow2(8);
    assert Pow2(22) == 64 * Pow2(16) by { Pow2Add(6, 16); }
    assert Pow2(26) == 4 * Pow2(24);
  }

  // ---- products ----

  lemma {:induction false} TimesDouble(p: nat, q: nat)
    ensures Times(p, 2 * q) == 2 * Times(p, q)
  {
    if q != 0 {
      assert (2 * q) / 2 == q && (2 * q) % 2 == 0;
      XorZero(2 * Times(p, q));
    }
  }

  lemma {:induction false} TimesShift(p: nat, q: nat, n: nat)
    ensures Times(p, Pow2(n) * q) == Pow2(n) * Times(p, q)
  {
    if n != 0 {
      TimesShift(p, q, n - 1);
      DoubleProduct(Pow2(n - 1), q);
      DoubleProduct(Pow2(n - 1), Times(p, q));
      TimesDouble(p, Pow2(n - 1) * q);
    }
  }

  lemma {:induction false} TimesHalf(p: nat, q: nat)
    ensures Times(p, q) == BitXor(if q % 2 == 1 then p else 0, 2 * Times(p, q / 2))
  {
  }

  /** Multiplication distributes over the sum. */
  lemma {:induction false} TimesSum(p: nat, a: nat, b: nat)
    ensures Times(p, BitXor(a, b)) == BitXor(Times(p, a), Times(p, b))
    decreases a + b
  {
    if a != 0 || b != 0 {
      hide BitXor, Times;
      TimesHalf(p, a);
      TimesHalf(p, b);
      TimesHalf(p, BitXor(a, b));
      XorHalf(a, b);
      TimesSum(p, a / 2, b / 2);
      XorDoubled(Times(p, a / 2), Times(p, b / 2));
      XorRegroup(if a % 2 == 1 then p else 0, 2 * Times(p, a / 2), if b % 2 == 1 then p else 0, 2 * Times(p, b / 2));
      XorSelf(p);
      XorZero(p);
      XorZero(0);
    } else {
      XorZero(0);
    }
  }

  lemma {:induction false} XorDoubled(x: nat, y: nat)
    ensures BitXor(2 * x, 2 * y) == 2 * BitXor(x, y)
  {
    XorHalf(2 * x, 2 * y);
  }

  /** A product with the generator is 0 or has degree 32 at least. */
  lemma {:induction false} ProductDegree(q: nat)
    requires q != 0
    ensures Times(Generator(), q) >= 0x1_0000_0000
  {
    hide BitXor, Generator;
    var g := Generator();
    GeneratorValue();
    TimesHalf(g, q);
    if q / 2 != 0 {
      ProductDegree(q / 2);
      var t := 2 * Times(g, q / 2);
      XorZero(t);
      if BitXor(g, t) < 0x1_0000_0000 {
        SumIsSmall(g, t);
      }
    } else {
      assert Times(g, 0) == 0;
      XorZero(g);
    }
  }

  /** Numbers that differ above bit 32 have a sum that reaches bit 32. */
  lemma {:induction false} SumIsSmall(g: nat, t: nat)
    requires BitXor(g, t) < 0x1_0000_0000
    ensures g / 0x1_0000_0000 == t / 0x1_0000_0000
  {
    var s := BitXor(g, t);
    Pow2Values();
    XorAssociates(g, g, t);
    XorSelf(g);
    XorZero(t);
    XorLow(g, s, 32);
  }

  lemma {:induction false} XorLow(a: nat, low: nat, k: nat)
    requires low < Pow2(k)
    ensures BitXor(a, low) / Pow2(k) == a / Pow2(k)
  {
    var p := Pow2(k);
    hide BitXor, Pow2;
    var high, rest := a / p, a % p;
    assert a == rest + p * high;
    assert low == low + p * 0;
    XorSplit(rest, high, low, 0, k);
    XorZero(high);
    ModUnique(BitXor(a, low), p, high, BitXor(rest, low));
  }

  // ---- bits in reverse ----

  lemma {:induction false} ReversedSum(a: nat, b: nat, n: nat)
    ensures Reversed(BitXor(a, b), n) == BitXor(Reversed(a, n), Reversed(b, n))
    decreases n
  {
    if n == 0 {
      XorZero(0);
    } else {
      hide BitXor, Pow2;
      ReversedSum(a / 2, b / 2, n - 1);
      XorHalf(a, b);
      XorSplit(Reversed(a / 2, n - 1), a % 2, Reversed(b / 2, n - 1), b % 2, n - 1);
      OneBit(a, b);
    }
  }

  lemma {:induction false} OneBit(a: nat, b: nat)
    ensures BitXor(a % 2, b % 2) == (a + b) % 2
  {
  }

  lemma {:induction false} ReversedGrows(x: nat, n: nat)
    requires x < Pow2(n)
    ensures Reversed(x, n + 1) == 2 * Reversed(x, n)
    decreases n
  {
    if n == 0 {
      assert Reversed(0, 0) == 0;
    } else {
      ReversedGrows(x / 2, n - 1);
      DoubleProduct(Pow2(n - 1), x % 2);
    }
  }

  /** x is `low` in its low m bits and `high` above them. */
  predicate Parts(x: nat, low: nat, high: nat, m: nat) { low < Pow2(m) && x == low + Pow2(m) * high }

  /** Reversing the two parts apart. */
  lemma {:induction false} ReversedSplit(x: nat, low: nat, high: nat, m: nat, n: nat)
    requires Parts(x, low, high, m)
    ensures Reversed(x, m + n) == Reversed(high, n) + Pow2(n) * Reversed(low, m)
    decreases m
  {
    if m == 0 {
    } else {
      hide Parts, Reversed, Pow2;
      HalfOfParts(x, low, high, m - 1);
      ReversedSplit(x / 2, low / 2, high, m - 1, n);
      SplitNext(x, low, high, m - 1, n);
    }
  }

  lemma {:induction false} HalfOfParts(x: nat, low: nat, high: nat, m: nat)
    requires Parts(x, low, high, m + 1)
    ensures Parts(x / 2, low / 2, high, m) && x % 2 == low % 2
  {
    HalfOfSum(low, high, Pow2(m), x);
  }

  lemma {:induction false} SplitNext(x: nat, low: nat, high: nat, m: nat, n: nat)
    requires x % 2 == low % 2
    requires Reversed(x / 2, m + n) == Reversed(high, n) + Pow2(n) * Reversed(low / 2, m)
    ensures Reversed(x, m + 1 + n) == Reversed(high, n) + Pow2(n) * Reversed(low, m + 1)
  {
    hide Pow2, Reversed;
    ReversedNext(x, m + n);
    ReversedNext(low, m);
    Pow2Add(n, m);
    Assemble(Reversed(high, n), Pow2(n), Reversed(low / 2, m), Pow2(m), low % 2);
  }

  lemma {:induction false} HalfOfSum(low: nat, high: nat, p: nat, x: nat)
    requires x == low + (2 * p) * high
    ensures x / 2 == low / 2 + p * high && x % 2 == low % 2 && p * high >= 0
  {
    DoubleProduct(p, high);
    assert x == low + 2 * (p * high);
  }

  lemma {:induction false} ReversedNext(x: nat, n: nat)
    ensures Reversed(x, n + 1) == Reversed(x / 2, n) + Pow2(n) * (x % 2)
  {
  }

  lemma {:induction false} Assemble(high: nat, a: nat, x: nat, p: nat, bit: nat)
    requires bit <= 1
    ensures high + a * x + a * p * bit == high + a * (x + p * bit)
  {
    if bit == 1 {
      assert a * (x + p) == a * x + a * p;
    }
  }

  lemma {:induction false} ReversedZero(n: nat)
    ensures Reversed(0, n) == 0
  {
    if n != 0 {
      ReversedZero(n - 1);
    }
  }

  lemma {:induction false} ReversedByte(b: byte, n: nat)
    ensures Reversed(b, 8 + n) == Pow2(n) * Reversed(b, 8)
  {
    Pow2Values();
    ReversedSplit(b, b, 0, 8, n);
    ReversedZero(n);
  }

  // ---- the register as a remainder ----

  /** One bit step multiplies by x and reduces by the generator. */
  lemma {:induction false} StepIsTimesX(c: uint32)
    ensures 2 * Reversed(c, 32) == BitXor(if c % 2 == 1 then Generator() else 0, Reversed(BitStep(c), 32))
  {
    hide BitXor, BitStep, Generator, Reversed, Pow2;
    var h := c / 2;
    BitStepByHalves(c);
    LowBitGoesOut(c, h);
    if c % 2 == 1 {
      OddStep(h, POLYNOMIAL);
    } else {
      XorZero(h);
      XorZero(Reversed(h, 32));
    }
  }

  lemma {:induction false} LowBitGoesOut(c: uint32, h: nat)
    requires h == c / 2
    ensures 2 * Reversed(c, 32) == Reversed(h, 32) + 0x1_0000_0000 * (c % 2)
  {
    hide Pow2;
    Pow2Values();
    assert Reversed(c, 32) == Reversed(h, 31) + Pow2(31) * (c % 2);
    ReversedGrows(h, 31);
  }

  lemma {:induction false} OddStep(h: uint32, p: uint32)
    requires p == POLYNOMIAL
    ensures Reversed(h, 32) + 0x1_0000_0000 == BitXor(Generator(), Reversed(BitXor(h, p), 32))
  {
    hide BitXor, Generator, Reversed, Pow2;
    Pow2Values();
    ReversedSum(h, p, 32);
    PolynomialReversed(p);
    GeneratorValue();
    Reduces(Reversed(h, 32), 0x04C1_1DB7);
  }

  lemma {:induction false} Reduces(r: nat, low: nat)
    requires r < 0x1_0000_0000 && low < 0x1_0000_0000
    ensures BitXor(0x1_0000_0000 + low, BitXor(r, low)) == 0x1_0000_0000 + r
  {
    hide BitXor, Pow2;
    Pow2Values();
    XorDisjoint(low, 1, 32);
    XorDisjoint(r, 1, 32);
    XorCommutes(low, 0x1_0000_0000);
    XorCommutes(r, low);
    XorAssociates(0x1_0000_0000, low, BitXor(low, r));
    XorAssociates(low, low, r);
    XorSelf(low);
    XorZero(r);
    XorCommutes(0x1_0000_0000, r);
  }

  lemma {:induction false} PolynomialReversed(p: uint32)
    requires p == POLYNOMIAL
    ensures Reversed(p, 32) == 0x04C1_1DB7
  {
    hide Reversed, Mirrored, Pow2;
    MirroredValues();
    ByteOfNibbles(0xED, 0xE, 0xD);
    ByteOfNibbles(0xB8, 0xB, 0x8);
    ByteOfNibbles(0x83, 0x8, 0x3);
    ByteOfNibbles(0x20, 0x2, 0x0);
    FourBytes(p, 0xED, 0xB8, 0x83, 0x20);
  }

  lemma {:induction false} MirroredValues()
    ensures Mirrored(0x0) == 0x0 && Mirrored(0x2) == 0x4 && Mirrored(0x3) == 0xC && Mirrored(0x8) == 0x1
    ensures Mirrored(0xB) == 0xD && Mirrored(0xD) == 0xB && Mirrored(0xE) == 0x7 && Mirrored(0xF) == 0xF
  {
  }

  lemma {:induction false} FourBytes(x: uint32, a: byte, b: byte, c: byte, d: byte)
    requires x == 0x100_0000 * a + 0x1_0000 * b + 0x100 * c + d
    ensures Reversed(x, 32) == Reversed(a, 8) + 0x100 * Reversed(b, 8) + 0x1_0000 * Reversed(c, 8)
                               + 0x100_0000 * Reversed(d, 8)
  {
    hide Reversed, Pow2;
    Pow2Values();
    ReversedSplit(x, d, 0x1_0000 * a + 0x100 * b + c, 8, 24);
    ReversedSplit(0x1_0000 * a + 0x100 * b + c, c, 0x100 * a + b, 8, 16);
    ReversedSplit(0x100 * a + b, b, a, 8, 8);
  }

  lemma {:induction false} ByteOfNibbles(x: byte, high: nat, low: nat)
    requires high < 16 && low < 16 && x == 16 * high + low
    ensures Reversed(x, 8) == Mirrored(high) + 16 * Mirrored(low)
  {
    hide Pow2, Reversed, Mirrored;
    LowPowers();
    ReversedSplit(x, low, high, 4, 4);
    Nibble(high);
    Nibble(low);
  }

  function Mirrored(x: nat): nat { 8 * (x % 2) + 4 * (x / 2 % 2) + 2 * (x / 4 % 2) + x / 8 % 2 }

  lemma {:induction false} Nibble(x: nat)
    ensures Reversed(x, 4) == Mirrored(x)
  {
    LowPowers();
    assert x / 2 / 2 == x / 4 && x / 4 / 2 == x / 8;
    assert Reversed(x / 8, 1) == x / 8 % 2 by { assert Reversed(x / 8 / 2, 0) == 0; }
    assert Reversed(x / 4, 2) == Reversed(x / 8, 1) + 2 * (x / 4 % 2) by { assert Pow2(1) == 2; }
    assert Reversed(x / 2, 3) == Reversed(x / 4, 2) + 4 * (x / 2 % 2);
  }

  /** One more step: the remainder doubles, and the quotient takes the bit that went out. */
  lemma {:induction false} QuotientNext(x: nat, q: nat, r: nat, bit: nat, s: nat)
    requires x == BitXor(Times(Generator(), q), r) && bit <= 1
    requires 2 * r == BitXor(if bit == 1 then Generator() else 0, s)
    ensures 2 * x == BitXor(Times(Generator(), BitXor(2 * q, bit)), s)
  {
    hide BitXor, Generator, Times;
    var g := Generator();
    XorDoubled(Times(g, q), r);
    TimesDouble(g, q);
    TimesBit(g, bit);
    TimesSum(g, 2 * q, bit);
    XorAssociates(Times(g, 2 * q), Times(g, bit), s);
  }

  lemma {:induction false} TimesBit(g: nat, bit: nat)
    requires bit <= 1
    ensures Times(g, bit) == if bit == 1 then g else 0
  {
    if bit == 1 {
      assert Times(g, 0) == 0;
      XorZero(g);
    }
  }

  lemma {:induction false} StepsAreTimes(c: uint32, n: nat) returns (q: nat)
    ensures Pow2(n) * Reversed(c, 32) == BitXor(Times(Generator(), q), Reversed(BitSteps(c, n), 32))
    decreases n
  {
    hide BitXor, BitStep, Generator, Reversed, Times;
    if n == 0 {
      q := 0;
      TimesBit(Generator(), 0);
      XorZero(Reversed(c, 32));
    } else {
      q := StepsAreTimes(c, n - 1);
      q := LastStep(c, n - 1, q);
    }
  }

  lemma {:induction false} LastStep(c: uint32, n: nat, before: nat) returns (q: nat)
    requires Pow2(n) * Reversed(c, 32) == BitXor(Times(Generator(), before), Reversed(BitSteps(c, n), 32))
    ensures Pow2(n + 1) * Reversed(c, 32) == BitXor(Times(Generator(), q), Reversed(BitSteps(c, n + 1), 32))
  {
    hide BitXor, BitStep, BitSteps, Generator, Times, Reversed, Pow2;
    var e := BitSteps(c, n);
    BitStepsAdd(c, n, 1);
    OneBitStep(e);
    StepIsTimesX(e);
    QuotientNext(Pow2(n) * Reversed(c, 32), before, Reversed(e, 32), e % 2, Reversed(BitStep(e), 32));
    PowerDoubles(n);
    DoubleProduct(Pow2(n), Reversed(c, 32));
    q := BitXor(2 * before, e % 2);
  }

  // ---- whole messages ----

  /** A byte in the register is eight bits of the message. */
  lemma {:induction false} ByteEnters(c: uint32, b: byte) returns (q: nat)
    ensures BitXor(256 * Reversed(c, 32), Reversed(b, 8) * 0x1_0000_0000)
         == BitXor(Times(Generator(), q), Reversed(ByteStep(c, b), 32))
  {
    hide BitXor, BitSteps, Generator, Times, Reversed, Pow2;
    Pow2Values();
    Xor32(c, b);
    q := StepsAreTimes(BitXor(c, b), 8);
    ReversedSum(c, b, 32);
    ReversedByte(b, 24);
    XorScaled(Reversed(c, 32), Reversed(b, 32), 8);
  }

  /** The dividend grows by the bits of a byte. */
  lemma {:induction false} DividendNext(data: Bytes, b: byte)
    ensures Dividend(data + [b]) == BitXor(256 * Dividend(data), Reversed(b, 8) * 0x1_0000_0000)
  {
    hide BitXor, Reversed, Pow2;
    Pow2Values();
    assert (data + [b])[..|data|] == data;
    var m, i, low := Message(data), 0xFFFF_FFFF * Pow2(8 * |data|), Reversed(b, 8);
    Pow2Add(8, 8 * |data|);
    XorScaled(m * 0x1_0000_0000, i, 8);
    Rearrange(m, low, 256 * i);
  }

  lemma {:induction false} Rearrange(m: nat, low: nat, i: nat)
    requires low < 256
    ensures BitXor((256 * m + low) * 0x1_0000_0000, i)
         == BitXor(BitXor(256 * (m * 0x1_0000_0000), i), low * 0x1_0000_0000)
  {
    hide BitXor, Pow2;
    Pow2Values();
    var top, shifted := m * 0x1_0000_0000, low * 0x1_0000_0000;
    XorDisjoint(low, m, 8);
    XorScaled(low, 256 * m, 32);
    XorCommutes(shifted, 256 * top);
    XorAssociates(256 * top, shifted, i);
    XorCommutes(shifted, i);
    XorAssociates(256 * top, i, shifted);
  }

  lemma {:induction false} DividendNothing()
    ensures Dividend([]) == 0xFFFF_FFFF
  {
    hide BitXor;
    assert Pow2(8 * 0) == 1;
    XorZero(0xFFFF_FFFF);
  }

  lemma {:induction false} OnesReversed(ones: uint32)
    requires ones == 0xFFFF_FFFF
    ensures Reversed(ones, 32) == 0xFFFF_FFFF
  {
    hide Reversed, Mirrored, Pow2;
    MirroredValues();
    ByteOfNibbles(0xFF, 0xF, 0xF);
    FourBytes(ones, 0xFF, 0xFF, 0xFF, 0xFF);
  }

  /** The register of the source, read in reverse, is the remainder so far. */
  lemma {:induction false} RegisterIsTheRemainder(data: Bytes) returns (q: nat)
    ensures Divides(Dividend(data), q, Reversed(Register(0xFFFF_FFFF, data), 32))
    decreases |data|
  {
    hide BitXor, Generator, Times, Reversed, Dividend;
    Pow2Values();
    if data == [] {
      q := 0;
      DividendNothing();
      OnesReversed(0xFFFF_FFFF);
      TimesBit(Generator(), 0);
      XorZero(0xFFFF_FFFF);
    } else {
      var init, b := data[..|data| - 1], data[|data| - 1];
      assert data == init + [b];
      var before := RegisterIsTheRemainder(init);
      q := RemainderNext(init, b, before);
    }
  }

  lemma {:induction false} RemainderNext(data: Bytes, b: byte, before: nat) returns (q: nat)
    requires Divides(Dividend(data), before, Reversed(Register(0xFFFF_FFFF, data), 32))
    ensures Divides(Dividend(data + [b]), q, Reversed(Register(0xFFFF_FFFF, data + [b]), 32))
  {
    hide BitXor, Generator, Times, Reversed, Dividend, ByteStep, Pow2;
    var c, g := Register(0xFFFF_FFFF, data), Generator();
    assert (data + [b])[..|data|] == data;
    var more := ByteEnters(c, b);
    Pow2Values();
    DividendNext(data, b);
    XorScaled(Times(g, before), Reversed(c, 32), 8);
    TimesShift(g, before, 8);
    TimesSum(g, 256 * before, more);
    q := BitXor(256 * before, more);
    XorAssociates(Times(g, 256 * before), 256 * Reversed(c, 32), Reversed(b, 8) * 0x1_0000_0000);
    XorAssociates(Times(g, 256 * before), Times(g, more), Reversed(ByteStep(c, b), 32));
  }

  /** Division by the generator has one remainder. */
  lemma {:induction false} RemainderIsUnique(dividend: nat, p: nat, r: nat, q: nat, s: nat)
    requires Divides(dividend, p, r) && Divides(dividend, q, s)
    ensures p == q && r == s
  {
    hide BitXor, Generator, Times;
    var g := Generator();
    XorRegroup(Times(g, p), r, Times(g, q), s);
    XorSelf(dividend);
    TimesSum(g, p, q);
    Xor32(r, s);
    SameWhenSumIsZero(Times(g, BitXor(p, q)), BitXor(r, s));
    if BitXor(p, q) != 0 {
      ProductDegree(BitXor(p, q));
    } else {
      TimesBit(g, 0);
    }
    SameWhenSumIsZero(p, q);
    SameWhenSumIsZero(r, s);
  }

  lemma {:induction false} SameWhenSumIsZero(a: nat, b: nat)
    ensures BitXor(a, b) == 0 <==> a == b
  {
    XorSelf(b);
    if BitXor(a, b) == 0 {
      XorInjective(a, b, b);
    }
  }

  /** The CRC is the one of the standard. A word is the CRC of the data if and only if its
      complement, read in reverse, is the remainder of the dividend by the generator. */
  lemma {:induction false} CrcIsTheRemainder(data: Bytes, crc: uint32)
    ensures crc == Crc(data) <==> IsRemainder(Dividend(data), Reversed(0xFFFF_FFFF - crc, 32))
  {
    hide BitXor, Divides, Reversed, Dividend, Register, Pow2;
    var c, d := Register(0xFFFF_FFFF, data), 0xFFFF_FFFF - crc;
    var q := RegisterIsTheRemainder(data);
    Pow2Values();
    if IsRemainder(Dividend(data), Reversed(d, 32)) {
      var p :| Divides(Dividend(data), p, Reversed(d, 32));
      RemainderIsUnique(Dividend(data), q, Reversed(c, 32), p, Reversed(d, 32));
      ReversedInjective(c, d, 32);
    }
  }

  lemma {:induction false} ReversedInjective(a: nat, b: nat, n: nat)
    requires a < Pow2(n) && b < Pow2(n) && Reversed(a, n) == Reversed(b, n)
    ensures a == b
    decreases n
  {
    if n != 0 {
      var p := Pow2(n - 1);
      ModUnique(Reversed(a, n), p, a % 2, Reversed(a / 2, n - 1));
      ModUnique(Reversed(b, n), p, b % 2, Reversed(b / 2, n - 1));
      ReversedInjective(a / 2, b / 2, n - 1);
    }
  }
}
