/**
 Morton codes (`interleave64`, `deinterleave64` in internal/command/geo.go): the bit
 tricks on machine words, and the numbers they compute.
 */
module Morton {

  // ----- on words -----

  function SpreadBits(value: bv64): bv64 {
    var s0 := value;
    var s1 := (s0 | (s0 << 16)) & 0x0000FFFF0000FFFF;
    var s2 := (s1 | (s1 << 8)) & 0x00FF00FF00FF00FF;
    var s3 := (s2 | (s2 << 4)) & 0x0F0F0F0F0F0F0F0F;
    var s4 := (s3 | (s3 << 2)) & 0x3333333333333333;
    (s4 | (s4 << 1)) & 0x5555555555555555
  }

  function SquashBits(spread: bv64): bv64 {
    var v0 := spread & 0x5555555555555555;
    var v1 := (v0 | (v0 >> 1)) & 0x3333333333333333;
    var v2 := (v1 | (v1 >> 2)) & 0x0F0F0F0F0F0F0F0F;
    var v3 := (v2 | (v2 >> 4)) & 0x00FF00FF00FF00FF;
    var v4 := (v3 | (v3 >> 8)) & 0x0000FFFF0000FFFF;
    (v4 | (v4 >> 16)) & 0x00000000FFFFFFFF
  }

  function Interleave(x: bv64, y: bv64): bv64 {
    SpreadBits(x) | (SpreadBits(y) << 1)
  }

  function Deinterleave(word: bv64): (bv64, bv64) {
    (SquashBits(word), SquashBits(word >> 1))
  }

  lemma InterleaveInverse(x: bv64, y: bv64)
    requires x <= 0xFFFFFFFF && y <= 0xFFFFFFFF
    ensures Deinterleave(Interleave(x, y)) == (x, y)
  {
  }

  lemma DeinterleaveInverse(word: bv64)
    ensures Interleave(Deinterleave(word).0, Deinterleave(word).1) == word
  {
  }

  function Low(word: bv64): bv64 {
    word & 1
  }

  function Half(word: bv64): bv64 {
    word >> 1
  }

  /** `even` in the even places and `odd` in the odd ones. */
  function Join(even: bv64, odd: bv64): bv64 {
    even | (odd << 1)
  }

  predicate Even(word: bv64) {
    word & 0xAAAAAAAAAAAAAAAA == 0
  }

  predicate Small(word: bv64) {
    word <= 0xFFFFFFFF
  }

  lemma InterleaveJoin(x: bv64, y: bv64)
    ensures Interleave(x, y) == Join(SpreadBits(x), SpreadBits(y))
    ensures Even(SpreadBits(x)) && Even(SpreadBits(y))
  {
  }

  lemma SpreadStep(x: bv64)
    requires Small(x)
    ensures Low(SpreadBits(x)) == Low(x) && Half(Half(SpreadBits(x))) == SpreadBits(Half(x)) && Small(Half(x))
  {
  }

  lemma JoinStep(a: bv64, b: bv64)
    requires Even(a) && Even(b)
    ensures Low(Join(a, b)) == Low(a) && Low(Half(Join(a, b))) == Low(b)
    ensures Half(Half(Join(a, b))) == Join(Half(Half(a)), Half(Half(b)))
  {
  }

  /** The lowest two bits of a code are the lowest bits of its halves; the rest is the code of the rest. */
  lemma InterleaveStep(x: bv64, y: bv64)
    requires Small(x) && Small(y)
    ensures Low(Interleave(x, y)) == Low(x) && Low(Half(Interleave(x, y))) == Low(y)
    ensures Half(Half(Interleave(x, y))) == Interleave(Half(x), Half(y))
  {
    hide SpreadBits, Interleave, Low, Half, Join, Even, Small;
    InterleaveJoin(x, y);
    InterleaveJoin(Half(x), Half(y));
    SpreadStep(x);
    SpreadStep(y);
    JoinStep(SpreadBits(x), SpreadBits(y));
  }

  // ----- as numbers -----

  /** The number in the lowest `n` bits of a word. */
  ghost function Val(word: bv64, n: nat): nat {
    if n == 0 then 0 else Bit(word) + 2 * Val(Half(word), n - 1)
  }

  ghost function Bit(word: bv64): nat {
    if Low(word) == 1 then 1 else 0
  }

  lemma ValNone(word: bv64)
    ensures Val(word, 0) == 0
  {
  }

  lemma {:induction false} ValStep(word: bv64, n: nat)
    requires n > 0
    ensures Val(word, n) == Bit(word) + 2 * Val(Half(word), n - 1)
  {
  }

  /** The number whose binary digits are those of `x` and `y` in turn, the lowest of `x` first. */
  function Weave(x: nat, y: nat): nat
    decreases x + y, y
  {
    if x == 0 && y == 0 then 0 else x % 2 + 2 * Weave(y, x / 2)
  }

  lemma {:induction false} Digit(d: nat, t: nat)
    requires d < 2
    ensures (d + 2 * t) % 2 == d && (d + 2 * t) / 2 == t
  {
  }

  lemma {:induction false} WeaveRule(x: nat, y: nat)
    ensures Weave(x, y) == x % 2 + 2 * Weave(y, x / 2)
  {
    if x == 0 && y == 0 {
      assert Weave(0, 0) == 0;
    }
  }

  lemma {:induction false} WeaveStep(x: nat, y: nat)
    ensures Weave(x, y) == x % 2 + 2 * Weave(y, x / 2)
    ensures Weave(x, y) % 2 == x % 2 && Weave(x, y) / 2 == Weave(y, x / 2)
  {
    hide Weave;
    WeaveRule(x, y);
    Digit(x % 2, Weave(y, x / 2));
  }

  lemma {:induction false} WeaveTwice(x: nat, y: nat)
    ensures Weave(x, y) == x % 2 + 2 * (y % 2) + 4 * Weave(x / 2, y / 2)
    ensures Weave(x, y) / 2 / 2 == Weave(x / 2, y / 2)
  {
    hide Weave;
    WeaveStep(x, y);
    WeaveStep(y, x / 2);
  }

  /** Every second binary digit, from the lowest. */
  function Evens(n: nat): nat {
    if n == 0 then 0 else n % 2 + 2 * Evens(n / 2 / 2)
  }

  function Odds(n: nat): nat {
    Evens(n / 2)
  }

  lemma {:induction false} EvensOfWeave(x: nat, y: nat)
    ensures Evens(Weave(x, y)) == x
    decreases x + y
  {
    if x != 0 || y != 0 {
      EvensOfWeave(x / 2, y / 2);
      WeaveStep(x, y);
      WeaveTwice(x, y);
    }
  }

  lemma {:induction false} Unweave(x: nat, y: nat)
    ensures Evens(Weave(x, y)) == x && Odds(Weave(x, y)) == y
  {
    hide Weave, Evens;
    EvensOfWeave(x, y);
    WeaveStep(x, y);
    EvensOfWeave(y, x / 2);
  }

  lemma {:induction false} EvensStep(n: nat)
    ensures Evens(n) % 2 == n % 2 && Evens(n) / 2 == Odds(n / 2)
  {
    var rest := Odds(n / 2);
    assert Evens(n) == n % 2 + 2 * rest by {
      EvensRule(n);
    }
    hide Evens, Odds;
    Digit(n % 2, rest);
  }

  lemma {:induction false} EvensRule(n: nat)
    ensures Evens(n) == n % 2 + 2 * Evens(n / 2 / 2)
  {
    if n == 0 {
      assert Evens(0) == 0;
    }
  }

  lemma {:induction false} Reweave(n: nat)
    ensures Weave(Evens(n), Odds(n)) == n
  {
    if n != 0 {
      EvensStep(n);
      Reweave(n / 2);
      WeaveStep(Evens(n), Odds(n));
    }
  }

  /** The interleaving of words is the weaving of numbers. */
  lemma {:induction false} InterleaveWeaves(x: bv64, y: bv64, n: nat)
    requires Small(x) && Small(y)
    ensures Val(Interleave(x, y), 2 * n) == Weave(Val(x, n), Val(y, n))
    decreases n
  {
    hide Interleave, Low, Half, Small, Weave, Val;
    ValNone(x);
    ValNone(y);
    ValNone(Interleave(x, y));
    if n > 0 {
      ValStep(x, n);
      ValStep(y, n);
      ValStep(Interleave(x, y), 2 * n);
      ValStep(Half(Interleave(x, y)), 2 * n - 1);
      Digit(Bit(x), Val(Half(x), n - 1));
      Digit(Bit(y), Val(Half(y), n - 1));
      InterleaveStep(x, y);
      HalfSmall(x);
      HalfSmall(y);
      InterleaveWeaves(Half(x), Half(y), n - 1);
      WeaveTwice(Val(x, n), Val(y, n));
    } else {
      WeaveNone();
    }
  }

  lemma WeaveNone()
    ensures Weave(0, 0) == 0
  {
  }

  lemma HalfSmall(x: bv64)
    requires Small(x)
    ensures Small(Half(x))
  {
  }

  lemma SquashSmall(word: bv64)
    ensures Small(SquashBits(word))
  {
  }

  lemma {:induction false} DeinterleaveUnweaves(word: bv64, n: nat)
    ensures Val(Deinterleave(word).0, n) == Evens(Val(word, 2 * n))
    ensures Val(Deinterleave(word).1, n) == Odds(Val(word, 2 * n))
  {
    var a, b := SquashBits(word), SquashBits(word >> 1);
    SquashSmall(word);
    SquashSmall(word >> 1);
    DeinterleaveInverse(word);
    hide Interleave, Low, Half, Small, SquashBits, Weave, Evens, Odds, Val;
    InterleaveWeaves(a, b, n);
    Unweave(Val(a, n), Val(b, n));
  }

  // ----- shifts -----

  /** `n` shifted right by `k` binary digits, or by `k` pairs of them. */
  function Shr(n: nat, k: nat): nat
    decreases k
  {
    if k == 0 then n else Shr(n / 2, k - 1)
  }

  function ShrPairs(n: nat, k: nat): nat
    decreases k
  {
    if k == 0 then n else ShrPairs(n / 2 / 2, k - 1)
  }

  /** `n` shifted left. */
  function Shl(n: nat, k: nat): nat {
    if k == 0 then n else 2 * Shl(n, k - 1)
  }

  function ShlPairs(n: nat, k: nat): nat {
    if k == 0 then n else 4 * ShlPairs(n, k - 1)
  }

  /** Shifting right by `k` gives `m` for the numbers from `m` shifted left on to before the next. */
  lemma {:induction false} ShrIs(n: nat, k: nat, m: nat)
    ensures Shr(n, k) == m <==> Shl(m, k) <= n < Shl(m + 1, k)
    decreases k
  {
    if k > 0 {
      ShrIs(n / 2, k - 1, m);
    }
  }

  lemma {:induction false} ShrPairsIs(n: nat, k: nat, m: nat)
    ensures ShrPairs(n, k) == m <==> ShlPairs(m, k) <= n < ShlPairs(m + 1, k)
    decreases k
  {
    if k > 0 {
      ShrPairsIs(n / 2 / 2, k - 1, m);
    }
  }

  /** Leading digits of a code are the code of leading digits. */
  lemma {:induction false} WeavePrefix(x: nat, y: nat, k: nat)
    ensures ShrPairs(Weave(x, y), k) == Weave(Shr(x, k), Shr(y, k))
    decreases k
  {
    hide Weave;
    if k > 0 {
      WeavePrefix(x / 2, y / 2, k - 1);
      WeaveTwice(x, y);
    }
  }

  lemma {:induction false} WeaveFits(x: nat, y: nat, n: nat)
    ensures Weave(x, y) < ShlPairs(1, n) <==> x < Shl(1, n) && y < Shl(1, n)
    decreases n
  {
    hide Weave;
    WeaveTwice(x, y);
    if n > 0 {
      WeaveFits(x / 2, y / 2, n - 1);
    } else {
      WeaveZero(x, y);
    }
  }

  lemma {:induction false} WeaveZero(x: nat, y: nat)
    ensures Weave(x, y) == 0 <==> x == 0 && y == 0
    decreases x + y
  {
    if x != 0 || y != 0 {
      hide Weave;
      WeaveTwice(x, y);
      WeaveZero(x / 2, y / 2);
    }
  }
}
