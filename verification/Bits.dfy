/** Fixed-width unsigned arithmetic and the bitwise operators of C, on natural numbers.
    Every C expression with `&`, `^`, `>>` or `<<` in the modelled code is written with
    the functions below, so the identities with division and remainder are proved here
    rather than assumed. */
module Bits {

  const W16: int := 0x1_0000
  const W32: int := 0x1_0000_0000

  type byte = x: int | 0 <= x < 256
  type uint16 = x: int | 0 <= x < 0x1_0000
  type uint32 = x: int | 0 <= x < 0x1_0000_0000
  type Bytes = seq<byte>

  /** Unsigned addition and subtraction with wrap-around. */
  function Add16(a: uint16, b: uint16): uint16 { (a + b) % W16 }
  function Add32(a: uint32, b: uint32): uint32 { (a + b) % W32 }
  function Sub32(a: uint32, b: uint32): uint32 { (a - b) % W32 }

  function Pow2(k: nat): (p: nat)
    ensures p >= 1
  {
    if k == 0 then 1 else 2 * Pow2(k - 1)
  }

  function BitAnd(a: nat, b: nat): (r: nat)
    ensures r <= a && r <= b
  {
    if a == 0 || b == 0 then 0
    else (if a % 2 == 1 && b % 2 == 1 then 1 else 0) + 2 * BitAnd(a / 2, b / 2)
  }

  function BitXor(a: nat, b: nat): nat {
    if a == 0 && b == 0 then 0
    else (if a % 2 != b % 2 then 1 else 0) + 2 * BitXor(a / 2, b / 2)
  }

  function BitOr(a: nat, b: nat): nat {
    if a == 0 && b == 0 then 0
    else (if a % 2 == 1 || b % 2 == 1 then 1 else 0) + 2 * BitOr(a / 2, b / 2)
  }

  function ShiftRight(a: nat, k: nat): (r: nat)
    ensures r <= a
    decreases k, a
  {
    if k == 0 then a else ShiftRight(a / 2, k - 1)
  }

  function ShiftLeft32(a: uint32, k: nat): uint32 { (a * Pow2(k)) % W32 }

  /** The test both queues use on their capacity: `(v != 0) && ((v & (v - 1)) == 0)`. */
  predicate IsPowerOfTwo(v: nat) {
    v != 0 && BitAnd(v, v - 1) == 0
  }

  lemma {:induction false} ShiftRightDivides(a: nat, k: nat)
    ensures ShiftRight(a, k) == a / Pow2(k)
  {
    if k != 0 {
      assert ShiftRight(a, k) == ShiftRight(a / 2, k - 1) && Pow2(k) == 2 * Pow2(k - 1);
      ShiftRightDivides(a / 2, k - 1);
      QuotientOfHalf(a, Pow2(k - 1));
    }
  }

  lemma {:induction false} Pow2Values()
    ensures Pow2(1) == 2 && Pow2(8) == 256 && Pow2(15) == 0x8000 && Pow2(16) == W16
    ensures Pow2(24) == 0x100_0000 && Pow2(31) == 0x8000_0000 && Pow2(32) == W32
  {
    assert Pow2(4) == 16;
    assert Pow2(8) == 16 * Pow2(4);
    assert Pow2(12) == 16 * Pow2(8);
    assert Pow2(15) == 8 * Pow2(12);
    assert Pow2(16) == 2 * Pow2(15);
    assert Pow2(20) == 16 * Pow2(16);
    assert Pow2(24) == 16 * Pow2(20);
    assert Pow2(28) == 16 * Pow2(24);
    assert Pow2(31) == 8 * Pow2(28);
  }

  lemma {:induction false} PowerDoubles(k: nat)
    ensures Pow2(k + 1) == 2 * Pow2(k)
  {
  }

  lemma {:induction false} Pow2Add(a: nat, b: nat)
    ensures Pow2(a + b) == Pow2(a) * Pow2(b)
  {
    if a != 0 {
      Pow2Add(a - 1, b);
      assert Pow2(a + b) == 2 * Pow2(a - 1 + b);
    }
  }

  lemma {:induction false} Pow2Monotone(a: nat, b: nat)
    requires a < b
    ensures 2 * Pow2(a) <= Pow2(b)
    decreases b
  {
    if a + 1 < b {
      Pow2Monotone(a, b - 1);
    }
  }

  /** Bit k of a number. */
  function Bit(a: nat, k: nat): nat { a / Pow2(k) % 2 }

  lemma {:induction false} BitOfHalf(a: nat, k: nat)
    ensures Bit(a, 0) == a % 2 && Bit(a, k + 1) == Bit(a / 2, k)
  {
    QuotientOfHalf(a, Pow2(k));
  }

  /** The three operators work on each bit by itself. */
  lemma {:induction false} BitByBit(a: nat, b: nat, k: nat)
    ensures Bit(BitAnd(a, b), k) == if Bit(a, k) == 1 && Bit(b, k) == 1 then 1 else 0
    ensures Bit(BitOr(a, b), k) == if Bit(a, k) == 1 || Bit(b, k) == 1 then 1 else 0
    ensures Bit(BitXor(a, b), k) == if Bit(a, k) != Bit(b, k) then 1 else 0
    decreases k
  {
    hide Bit;
    Halves(a, b);
    BitOfHalf(a, if k == 0 then 0 else k - 1);
    BitOfHalf(b, if k == 0 then 0 else k - 1);
    BitOfHalf(BitAnd(a, b), if k == 0 then 0 else k - 1);
    BitOfHalf(BitOr(a, b), if k == 0 then 0 else k - 1);
    BitOfHalf(BitXor(a, b), if k == 0 then 0 else k - 1);
    if k != 0 {
      BitByBit(a / 2, b / 2, k - 1);
    }
  }

  lemma {:induction false} Halves(a: nat, b: nat)
    ensures BitAnd(a, b) == BitAnd(a / 2, b / 2) * 2 + (if a % 2 == 1 && b % 2 == 1 then 1 else 0)
    ensures BitOr(a, b) == BitOr(a / 2, b / 2) * 2 + (if a % 2 == 1 || b % 2 == 1 then 1 else 0)
    ensures BitXor(a, b) == BitXor(a / 2, b / 2) * 2 + (if a % 2 != b % 2 then 1 else 0)
  {
  }

  /** Masking with 2^k - 1 keeps the remainder by 2^k. */
  lemma {:induction false} AndMask(a: nat, k: nat)
    ensures BitAnd(a, Pow2(k) - 1) == a % Pow2(k)
  {
    if k != 0 && a != 0 {
      hide BitAnd;
      var p := Pow2(k - 1);
      AndMask(a / 2, k - 1);
      AndOdd(a, p);
      HalfMod(a, p);
    } else {
      assert BitAnd(a, Pow2(k) - 1) == 0;
    }
  }

  lemma {:induction false} AndOdd(a: nat, p: nat)
    requires p > 0
    ensures BitAnd(a, 2 * p - 1) == a % 2 + 2 * BitAnd(a / 2, p - 1)
  {
    assert (2 * p - 1) / 2 == p - 1 && (2 * p - 1) % 2 == 1;
  }

  lemma {:induction false} HalfMod(a: nat, p: nat)
    requires p > 0
    ensures a % (2 * p) == a % 2 + 2 * ((a / 2) % p)
  {
    var q, r := (a / 2) / p, (a / 2) % p;
    assert a / 2 == p * q + r;
    DoubleProduct(p, q);
    ModUnique(a, 2 * p, q, a % 2 + 2 * r);
  }

  lemma {:induction false} ModUnique(a: int, m: nat, q: int, r: nat)
    requires m > 0 && a == m * q + r && r < m
    ensures a % m == r && a / m == q
  {
    var d := a / m - q;
    assert a == m * (a / m) + a % m;
    assert m * d == r - a % m;
    MultipleIsFar(m, d);
  }

  /** Counting modulo 2^32. */
  lemma {:induction false} WrapIncrement(n: nat)
    ensures Add32(n % W32, 1) == (n + 1) % W32
  {
  }

  lemma {:induction false} WrapIncrement16(n: nat)
    ensures Add16(n % W16, 1) == (n + 1) % W16
  {
  }

  /** The wrapped difference of two wrapped counts less than 2^32 apart is exact. */
  lemma {:induction false} WrapDifference(a: nat, p: nat)
    requires p <= a < p + W32
    ensures Sub32(a % W32, p % W32) == a - p
  {
    var d := p / W32 - a / W32;
    assert a % W32 - p % W32 == W32 * d + (a - p);
    ModUnique(a % W32 - p % W32, W32, d, a - p);
  }

  lemma {:induction false} MultipleIsFar(m: int, d: int)
    requires m >= 0
    ensures d >= 1 ==> m * d >= m
    ensures d <= -1 ==> m * d <= -m
  {
  }

  /** C's power-of-two test accepts exactly the powers of two. */
  lemma {:induction false} PowerOfTwoTest(v: nat) returns (k: nat)
    ensures IsPowerOfTwo(v) ==> v == Pow2(k)
  {
    k := 0;
    if v > 1 && IsPowerOfTwo(v) {
      if v % 2 == 1 {
        assert (v - 1) / 2 == v / 2;
        AndSelf(v / 2);
        assert false;
      }
      assert (v - 1) / 2 == v / 2 - 1;
      k := PowerOfTwoTest(v / 2);
      k := k + 1;
    }
  }

  lemma {:induction false} AndSelf(a: nat)
    ensures BitAnd(a, a) == a
  {
    if a != 0 {
      AndSelf(a / 2);
    }
  }

  lemma {:induction false} PowersPassTheTest(k: nat)
    ensures IsPowerOfTwo(Pow2(k))
  {
    if k != 0 {
      PowersPassTheTest(k - 1);
      assert (2 * Pow2(k - 1) - 1) / 2 == Pow2(k - 1) - 1;
    }
  }

  /** A power of two that fits in 32 bits divides 2^32, so reducing an index first by
      2^32 and then by the capacity is the same as reducing it by the capacity. */
  lemma {:induction false} WrapKeepsSlot(n: nat, capacity: uint32)
    requires IsPowerOfTwo(capacity)
    ensures (n % W32) % capacity == n % capacity
    ensures BitAnd(n % W32, capacity - 1) == n % capacity
  {
    var k, cofactor := CapacityDivides(capacity);
    ModOfMod(n, capacity, cofactor);
    AndMask(n % W32, k);
  }

  lemma {:induction false} CapacityDivides(capacity: uint32) returns (k: nat, cofactor: nat)
    requires IsPowerOfTwo(capacity)
    ensures capacity == Pow2(k) && capacity <= 0x8000_0000
    ensures cofactor > 0 && capacity * cofactor == W32
  {
    k := PowerOfTwoTest(capacity);
    ExponentBound(k);
    cofactor := Pow2(32 - k);
    Pow2Add(k, 32 - k);
    Pow2Values();
  }

  lemma {:induction false} ExponentBound(k: nat)
    requires Pow2(k) < W32
    ensures k <= 31 && Pow2(k) <= 0x8000_0000
  {
    Pow2Values();
    if k > 32 {
      Pow2Monotone(32, k);
    } else if k < 31 {
      Pow2Monotone(k, 31);
    }
  }

  lemma {:induction false} ModOfMod(n: nat, c: nat, d: nat)
    requires c > 0 && d > 0
    ensures c * d > 0 && (n % (c * d)) % c == n % c
  {
    var m := c * d;
    assert m >= 1;
    var q, r := n / m, n % m;
    assert n == m * q + r;
    assert r == c * (r / c) + r % c;
    assert m * q == c * (d * q) by { assert c * d * q == c * (d * q); }
    assert n == c * (d * q + r / c) + r % c;
    ModUnique(n, c, d * q + r / c, r % c);
  }

  // ---- exclusive or ----

  lemma {:induction false} XorZero(a: nat)
    ensures BitXor(a, 0) == a && BitXor(0, a) == a
  {
    if a != 0 {
      XorZero(a / 2);
    }
  }

  lemma {:induction false} XorCommutes(a: nat, b: nat)
    ensures BitXor(a, b) == BitXor(b, a)
  {
    if a != 0 || b != 0 {
      XorCommutes(a / 2, b / 2);
    }
  }

  lemma {:induction false} XorSelf(a: nat)
    ensures BitXor(a, a) == 0
  {
    if a != 0 {
      XorSelf(a / 2);
    }
  }

  lemma {:induction false} XorAssociates(a: nat, b: nat, c: nat)
    ensures BitXor(BitXor(a, b), c) == BitXor(a, BitXor(b, c))
    decreases a + b + c
  {
    if a != 0 || b != 0 || c != 0 {
      XorAssociates(a / 2, b / 2, c / 2);
      XorHalf(a, b);
      XorHalf(b, c);
      XorHalf(BitXor(a, b), c);
      XorHalf(a, BitXor(b, c));
    }
  }

  lemma {:induction false} XorHalf(a: nat, b: nat)
    ensures BitXor(a, b) / 2 == BitXor(a / 2, b / 2)
    ensures BitXor(a, b) % 2 == (a + b) % 2
    ensures BitXor(a, b) == (a + b) % 2 + 2 * BitXor(a / 2, b / 2)
  {
    var high := BitXor(a / 2, b / 2);
    Parity(a, b);
    assert BitXor(a, b) == (a + b) % 2 + 2 * high;
  }

  lemma {:induction false} Parity(a: nat, b: nat)
    ensures (a + b) % 2 == if a % 2 != b % 2 then 1 else 0
  {
  }

  /** Cancelling: exclusive or with a fixed word is injective. */
  lemma {:induction false} XorInjective(a: nat, b: nat, c: nat)
    requires BitXor(a, c) == BitXor(b, c)
    ensures a == b
  {
    XorAssociates(a, c, c);
    XorAssociates(b, c, c);
    XorSelf(c);
    XorZero(a);
    XorZero(b);
  }

  lemma {:induction false} XorBound(a: nat, b: nat, k: nat)
    requires a < Pow2(k) && b < Pow2(k)
    ensures BitXor(a, b) < Pow2(k)
  {
    if k != 0 {
      XorBound(a / 2, b / 2, k - 1);
    }
  }

  lemma {:induction false} Xor32(a: uint32, b: uint32)
    ensures BitXor(a, b) < W32
  {
    Pow2Values();
    XorBound(a, b, 32);
  }

  /** The top bit of one operand survives when the other operand lacks it. */
  lemma {:induction false} XorTopBit(a: nat, b: nat, k: nat)
    requires a < Pow2(k) <= b < Pow2(k + 1)
    ensures BitXor(a, b) >= Pow2(k)
  {
    if k != 0 {
      XorTopBit(a / 2, b / 2, k - 1);
    }
  }

  /** Operands that share no bit positions: exclusive or is addition. */
  lemma {:induction false} XorDisjoint(a: nat, b: nat, k: nat)
    requires a < Pow2(k)
    ensures BitXor(a, Pow2(k) * b) == a + Pow2(k) * b
  {
    if k == 0 {
      XorZero(b);
    } else {
      XorDisjoint(a / 2, b, k - 1);
      DoubleProduct(Pow2(k - 1), b);
      XorEven(a, Pow2(k - 1) * b);
    }
  }

  lemma {:induction false} XorEven(a: nat, x: nat)
    ensures BitXor(a, 2 * x) == a % 2 + 2 * BitXor(a / 2, x)
  {
    assert (2 * x) / 2 == x && (2 * x) % 2 == 0;
  }

  lemma {:induction false} OrDisjoint(a: nat, b: nat, k: nat)
    requires a < Pow2(k)
    ensures BitOr(Pow2(k) * b, a) == a + Pow2(k) * b
  {
    if k == 0 {
      OrZero(b);
    } else {
      OrDisjoint(a / 2, b, k - 1);
      DoubleProduct(Pow2(k - 1), b);
      OrEven(Pow2(k - 1) * b, a);
    }
  }

  lemma {:induction false} OrEven(x: nat, a: nat)
    ensures BitOr(2 * x, a) == a % 2 + 2 * BitOr(x, a / 2)
  {
    assert (2 * x) / 2 == x && (2 * x) % 2 == 0;
  }

  lemma {:induction false} DoubleProduct(p: nat, b: nat)
    ensures (2 * p) * b == 2 * (p * b)
    ensures p * b >= 0
  {
  }

  lemma {:induction false} OrZero(a: nat)
    ensures BitOr(a, 0) == a
  {
    if a != 0 {
      OrZero(a / 2);
    }
  }

  /** Setting a clear bit adds its weight. */
  lemma {:induction false} OrSetsBit(w: nat, k: nat)
    requires w / Pow2(k) % 2 == 0
    ensures BitOr(w, Pow2(k)) == w + Pow2(k)
  {
    if k == 0 {
      OrZero(w / 2);
    } else {
      QuotientOfHalf(w, Pow2(k - 1));
      OrSetsBit(w / 2, k - 1);
    }
  }

  lemma {:induction false} QuotientOfHalf(w: nat, p: nat)
    requires p > 0
    ensures w / (2 * p) == (w / 2) / p
  {
    var q := (w / 2) / p;
    var r := w / 2 - p * q;
    assert 0 <= r < p;
    assert w == 2 * p * q + (2 * r + w % 2);
    ModUnique(w, 2 * p, q, 2 * r + w % 2);
  }
}
