/** The bits of a string value (internal/storage/bitmap.go). */
module Bitmaps {
  import opened Arithmetic
  import opened Order

  const MAX_BIT_OFFSET: int := 0xffff_ffff

  function Pow2(n: nat): (w: nat)
    ensures w > 0
  {
    if n == 0 then 1 else 2 * Pow2(n - 1)
  }

  /** The weight of a bit in its byte, the first one the heaviest. */
  function BitWeight(offset: nat): nat {
    Pow2(7 - offset % 8)
  }

  function BitOf(b: nat, w: nat): (bit: int)
    requires w > 0
    ensures bit == 0 || bit == 1
  {
    (b / w) % 2
  }

  /** `bitAt` */
  function BitAt(data: Bytes, offset: nat): int {
    if offset / 8 >= |data| then 0 else BitOf(data[offset / 8], BitWeight(offset))
  }

  /** `setBitInByte` */
  function WithBit(b: byte, n: nat, bit: int): byte
    requires n < 8 && (bit == 0 || bit == 1)
  {
    var w := Pow2(n);
    BitFits(b, n);
    if BitOf(b, w) == bit then b else if bit == 1 then b + w else b - w
  }

  function Zeros(n: nat): (r: Bytes)
    ensures |r| == n && forall i | 0 <= i < n :: r[i] == 0
  {
    seq(n, _ => 0)
  }

  /** The payload of SETBIT: long enough for the bit, otherwise as it was. */
  function SetBitIn(data: Bytes, offset: nat, bit: int): Bytes
    requires bit == 0 || bit == 1
  {
    var i := offset / 8;
    var payload := if i < |data| then data else data + Zeros(i + 1 - |data|);
    payload[i := WithBit(payload[i], 7 - offset % 8, bit)]
  }

  lemma {:induction false} Pow2Sum(a: nat, b: nat)
    ensures Pow2(a + b) == Pow2(a) * Pow2(b)
  {
    if a > 0 {
      Pow2Sum(a - 1, b);
    }
  }

  /** A bit that is not set lies below the next multiple of twice its weight. */
  lemma {:induction false} SameBlock(x: nat, w: nat, j: nat)
    requires w > 0 && j > 0 && BitOf(x, w) == 0
    ensures (x + w) / (2 * w * j) == x / (2 * w * j)
  {
    var half, r, v := x / w / 2, x % w, 2 * w * j;
    assert x == 2 * w * half + r by {
      assert x / w == 2 * half;
      assert x == w * (x / w) + r;
    }
    var p, s := half / j, half % j;
    assert half == j * p + s;
    assert 2 * w * half == v * p + 2 * w * s;
    Gap(s, j, 2 * w);
    assert s * (2 * w) + 2 * w <= j * (2 * w);
    Quotient(p, 2 * w * s + r, v);
    Quotient(p, 2 * w * s + r + w, v);
  }

  lemma {:induction false} Pow2Ratio(a: nat, b: nat)
    requires a < b
    ensures Pow2(b) == 2 * Pow2(a) * Pow2(b - a - 1)
  {
    Pow2Sum(a, b - a);
    assert Pow2(b - a) == 2 * Pow2(b - a - 1);
    assert Pow2(a) * (2 * Pow2(b - a - 1)) == 2 * Pow2(a) * Pow2(b - a - 1);
  }

  lemma {:induction false} LighterBit(b: nat, v: nat, k: nat)
    requires v > 0
    ensures BitOf(b + 2 * v * k, v) == BitOf(b, v)
  {
    assert 2 * v * k == v * (2 * k);
    Shift(b, v, 2 * k);
    EvenAdded(b / v, k);
  }

  lemma EvenAdded(a: nat, k: nat)
    ensures (a + 2 * k) % 2 == a % 2
  {
  }

  /** Setting a bit that is not set changes that bit only. */
  lemma {:induction false} BitJoins(b: nat, n: nat, m: nat)
    requires BitOf(b, Pow2(n)) == 0
    ensures BitOf(b + Pow2(n), Pow2(m)) == if m == n then 1 else BitOf(b, Pow2(m))
  {
    hide Pow2;
    var w, v := Pow2(n), Pow2(m);
    if m == n {
      Shift(b, w, 1);
    } else if m < n {
      hide BitOf;
      Pow2Ratio(m, n);
      LighterBit(b, v, Pow2(n - m - 1));
    } else {
      Pow2Ratio(n, m);
      SameBlock(b, w, Pow2(m - n - 1));
    }
  }

  /** Clearing a bit that is set leaves one that setting it again undoes. */
  lemma {:induction false} BitLeaves(b: nat, n: nat)
    requires BitOf(b, Pow2(n)) == 1
    ensures b >= Pow2(n) && BitOf(b - Pow2(n), Pow2(n)) == 0
  {
    var w := Pow2(n);
    if b < w {
      Quotient(0, b, w);
      assert w * 0 + b == b;
    }
    Shift(b - w, w, 1);
  }

  lemma {:induction false} BitFits(b: byte, n: nat)
    requires n < 8
    ensures if BitOf(b, Pow2(n)) == 0 then b + Pow2(n) < 256 else b >= Pow2(n)
  {
    if BitOf(b, Pow2(n)) == 0 {
      var j := Pow2(7 - n);
      Pow2Sum(n, 7 - n);
      assert Pow2(7) == 128;
      assert 2 * Pow2(n) * j == 256;
      SameBlock(b, Pow2(n), j);
    } else {
      BitLeaves(b, n);
    }
  }

  lemma BitReplaced(b: byte, n: nat, bit: int, m: nat)
    requires n < 8 && (bit == 0 || bit == 1)
    ensures BitOf(WithBit(b, n, bit), Pow2(m)) == if m == n then bit else BitOf(b, Pow2(m))
  {
    hide BitOf, Pow2;
    if BitOf(b, Pow2(n)) == 0 {
      BitJoins(b, n, m);
    } else {
      BitLeaves(b, n);
      BitJoins(b - Pow2(n), n, m);
      BitJoins(b - Pow2(n), n, n);
    }
  }

  lemma NoBits(n: nat)
    ensures BitOf(0, Pow2(n)) == 0
  {
    Quotient(0, 0, Pow2(n));
  }

  /** A byte is its eight bits, the first the heaviest. */
  lemma ByteOfBits(data: Bytes, i: nat)
    requires i < |data|
    ensures
      data[i] == 128 * BitAt(data, 8 * i) + 64 * BitAt(data, 8 * i + 1) + 32 * BitAt(data, 8 * i + 2)
                 + 16 * BitAt(data, 8 * i + 3) + 8 * BitAt(data, 8 * i + 4) + 4 * BitAt(data, 8 * i + 5)
                 + 2 * BitAt(data, 8 * i + 6) + BitAt(data, 8 * i + 7)
  {
    hide BitAt;
    SmallPowers();
    BitIs(data, i, 0);
    BitIs(data, i, 1);
    BitIs(data, i, 2);
    BitIs(data, i, 3);
    BitIs(data, i, 4);
    BitIs(data, i, 5);
    BitIs(data, i, 6);
    BitIs(data, i, 7);
    hide Pow2;
    EightBits(data[i]);
  }

  lemma BitIs(data: Bytes, i: nat, j: nat)
    requires i < |data| && j < 8
    ensures BitAt(data, 8 * i + j) == (data[i] as int) / Pow2(7 - j) % 2
  {
    hide Pow2;
    assert (8 * i + j) / 8 == i && (8 * i + j) % 8 == j;
  }

  lemma SmallPowers()
    ensures Pow2(0) == 1 && Pow2(1) == 2 && Pow2(2) == 4 && Pow2(3) == 8
    ensures Pow2(4) == 16 && Pow2(5) == 32 && Pow2(6) == 64 && Pow2(7) == 128
  {
    assert Pow2(3) == 8;
    assert Pow2(6) == 64;
  }

  lemma EightBits(b: int)
    requires 0 <= b < 256
    ensures b == 128 * (b / 128 % 2) + 64 * (b / 64 % 2) + 32 * (b / 32 % 2) + 16 * (b / 16 % 2)
                 + 8 * (b / 8 % 2) + 4 * (b / 4 % 2) + 2 * (b / 2 % 2) + b / 1 % 2
  {
    var b1, b2, b3 := b / 2, b / 4, b / 8;
    var b4, b5, b6, b7 := b / 16, b / 32, b / 64, b / 128;
    assert b2 == b1 / 2 && b3 == b2 / 2 && b4 == b3 / 2;
    assert b5 == b4 / 2 && b6 == b5 / 2 && b7 == b6 / 2 && b7 / 2 == 0;
    assert b == 2 * b1 + b % 2 && b1 == 2 * b2 + b1 % 2 && b2 == 2 * b3 + b2 % 2 && b3 == 2 * b4 + b3 % 2;
    assert b4 == 2 * b5 + b4 % 2 && b5 == 2 * b6 + b5 % 2 && b6 == 2 * b7 + b6 % 2 && b7 == b7 % 2;
  }

  /** SETBIT sets the bit at its offset and no other, in a string just long enough. */
  lemma BitSet(data: Bytes, offset: nat, bit: int, o: nat)
    requires bit == 0 || bit == 1
    ensures BitAt(SetBitIn(data, offset, bit), o) == if o == offset then bit else BitAt(data, o)
    ensures |SetBitIn(data, offset, bit)| == if offset / 8 < |data| then |data| else offset / 8 + 1
  {
    hide BitOf, WithBit, Pow2;
    var i := offset / 8;
    NoBits(7 - o % 8);
    if o / 8 == i {
      BitReplaced(if i < |data| then data[i] else 0, 7 - offset % 8, bit, 7 - o % 8);
    }
  }
}
