/** Multi-byte integers as byte sequences, in both byte orders. */
module Endian {
  import opened Bits

  function LittleEndian(w: nat, n: nat): (b: Bytes)
    ensures |b| == n
  {
    if n == 0 then [] else [w % 256] + LittleEndian(w / 256, n - 1)
  }

  function FromLittle(b: Bytes): nat {
    if b == [] then 0 else b[0] + 256 * FromLittle(b[1..])
  }

  function BigEndian(w: nat, n: nat): (b: Bytes)
    ensures |b| == n
  {
    if n == 0 then [] else BigEndian(w / 256, n - 1) + [w % 256]
  }

  function FromBig(b: Bytes): nat
    decreases |b|
  {
    if b == [] then 0 else 256 * FromBig(b[..|b| - 1]) + b[|b| - 1]
  }

  /** 256^n. */
  function Limit(n: nat): (l: nat)
    ensures l >= 1
  {
    if n == 0 then 1 else 256 * Limit(n - 1)
  }

  lemma {:induction false} Limits()
    ensures Limit(1) == 256 && Limit(2) == W16 && Limit(4) == W32
  {
  }

  lemma {:induction false} LimitMonotone(a: nat, b: nat)
    requires a < b
    ensures Limit(a) < Limit(b)
    decreases b
  {
    if a + 1 < b {
      LimitMonotone(a, b - 1);
    }
  }

  lemma {:induction false} LittleRoundTrip(w: nat, n: nat)
    requires w < Limit(n)
    ensures FromLittle(LittleEndian(w, n)) == w
  {
    if n != 0 {
      LittleRoundTrip(w / 256, n - 1);
      assert LittleEndian(w, n)[1..] == LittleEndian(w / 256, n - 1);
    }
  }

  lemma {:induction false} LittleInverse(b: Bytes)
    ensures LittleEndian(FromLittle(b), |b|) == b
    ensures FromLittle(b) < Limit(|b|)
  {
    if b != [] {
      LittleInverse(b[1..]);
      assert FromLittle(b) / 256 == FromLittle(b[1..]) && FromLittle(b) % 256 == b[0];
      assert b == [b[0]] + b[1..];
    }
  }

  lemma {:induction false} BigAppend(high: Bytes, low: byte)
    ensures FromBig(high + [low]) == 256 * FromBig(high) + low
  {
    var b := high + [low];
    assert b[..|b| - 1] == high;
  }

  lemma {:induction false} BigLast(w: nat, n: nat)
    requires n > 0
    ensures BigEndian(w, n) == BigEndian(w / 256, n - 1) + [w % 256]
  {
  }

  lemma {:induction false} HighBelow(w: nat, n: nat)
    requires n > 0 && w < Limit(n)
    ensures w / 256 < Limit(n - 1) && w == 256 * (w / 256) + w % 256
  {
  }

  lemma {:induction false} BigRoundTrip(w: nat, n: nat)
    requires w < Limit(n)
    ensures FromBig(BigEndian(w, n)) == w
  {
    hide FromBig, BigEndian, Limit;
    if n == 0 {
      BigNothing(w);
    } else {
      HighBelow(w, n);
      BigRoundTrip(w / 256, n - 1);
      BigLast(w, n);
      BigAppend(BigEndian(w / 256, n - 1), w % 256);
    }
  }

  lemma {:induction false} BigNothing(w: nat)
    requires w < Limit(0)
    ensures FromBig(BigEndian(w, 0)) == w
  {
  }

  lemma {:induction false} BigBound(b: Bytes)
    ensures FromBig(b) < Limit(|b|)
    decreases |b|
  {
    if b != [] {
      BigBound(b[..|b| - 1]);
    }
  }

  lemma {:induction false} LittleInjective(a: nat, b: nat, n: nat)
    requires a < Limit(n) && b < Limit(n) && LittleEndian(a, n) == LittleEndian(b, n)
    ensures a == b
  {
    LittleRoundTrip(a, n);
    LittleRoundTrip(b, n);
  }

  lemma {:induction false} LittleTwoBytes(h: uint16)
    ensures LittleEndian(h, 2) == [h % 256, h / 256]
  {
    assert h / 256 % 256 == h / 256;
    assert LittleEndian(h / 256, 1) == [h / 256] + LittleEndian(0, 0);
    assert LittleEndian(h, 2) == [h % 256] + LittleEndian(h / 256, 1);
  }

  /** The bytes of a word, lowest first and highest first. */
  function LowFirst(w: uint32): (b: Bytes)
    ensures |b| == 4
  {
    [w % 256, w / 256 % 256, w / 65536 % 256, w / 16777216]
  }

  function HighFirst(w: uint32): (b: Bytes)
    ensures |b| == 4
  {
    [w / 16777216, w / 65536 % 256, w / 256 % 256, w % 256]
  }

  lemma {:induction false} LowFirstBytes(w: uint32)
    ensures LittleEndian(w, 4) == LowFirst(w)
  {
    var w1, w2, w3 := w / 256, w / 65536, w / 16777216;
    assert w1 / 256 == w2 && w2 / 256 == w3;
    assert w3 % 256 == w3;
    assert LittleEndian(w3, 1) == [w3] + LittleEndian(0, 0);
    assert LittleEndian(w2, 2) == [w2 % 256] + LittleEndian(w3, 1);
    assert LittleEndian(w1, 3) == [w1 % 256] + LittleEndian(w2, 2);
    assert LittleEndian(w, 4) == [w % 256] + LittleEndian(w1, 3);
  }

  lemma {:induction false} HighFirstBytes(w: uint32)
    ensures BigEndian(w, 4) == HighFirst(w)
  {
    var w1, w2, w3 := w / 256, w / 65536, w / 16777216;
    assert w1 / 256 == w2 && w2 / 256 == w3;
    assert w3 % 256 == w3;
    assert BigEndian(w3, 1) == BigEndian(0, 0) + [w3];
    assert BigEndian(w2, 2) == BigEndian(w3, 1) + [w2 % 256];
    assert BigEndian(w1, 3) == BigEndian(w2, 2) + [w1 % 256];
  }
}
