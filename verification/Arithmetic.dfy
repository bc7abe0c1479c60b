/** Remainders. */
module Arithmetic {
  lemma {:induction false} Gap(p: int, q: int, n: nat)
    ensures p < q ==> p * n + n <= q * n
  {
    if p < q {
      var d := q - p - 1;
      assert d * n >= 0;
      assert q * n == (p + 1 + d) * n == p * n + n + d * n;
    }
  }

  lemma {:induction false} Modulo(c: nat, q: int, n: nat)
    requires n > 0 && c < n
    ensures (c + q * n) % n == c
  {
    var x := c + q * n;
    var p, r := x / n, x % n;
    assert x == p * n + r;
    Gap(p, q, n);
    Gap(q, p, n);
  }

  /** Going round `n` places from any start comes to each of them. */
  lemma {:induction false} Rotation(start: nat, n: nat, place: nat) returns (steps: nat)
    requires place < n
    ensures steps < n && (start + steps) % n == place
  {
    var q, s := start / n, start % n;
    assert start == q * n + s;
    if place >= s {
      steps := place - s;
      assert start + steps == place + q * n;
      Modulo(place, q, n);
    } else {
      steps := place - s + n;
      assert start + steps == place + (q + 1) * n;
      Modulo(place, q + 1, n);
    }
  }

  /** It comes to none of them twice. */
  lemma {:induction false} RotationOnce(start: nat, a: nat, b: nat, n: nat)
    requires a < b < n
    ensures (start + a) % n != (start + b) % n
  {
    var p, q := (start + a) / n, (start + b) / n;
    assert start + a == p * n + (start + a) % n;
    assert start + b == q * n + (start + b) % n;
    Gap(p, q, n);
    Gap(q, p, n);
  }

  lemma {:induction false} Quotient(q: int, r: int, n: nat)
    requires 0 <= r < n
    ensures (n * q + r) / n == q
  {
    var x := n * q + r;
    var p := x / n;
    assert x == p * n + x % n;
    Gap(p, q, n);
    Gap(q, p, n);
  }

  lemma {:induction false} Shift(b: int, n: nat, k: int)
    requires n > 0
    ensures (b + n * k) / n == b / n + k
  {
    var q, r := b / n, b % n;
    assert b + n * k == n * (q + k) + r;
    Quotient(q + k, r, n);
  }
}
