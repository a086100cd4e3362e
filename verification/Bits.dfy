/**
 Bitwise `|` and `&` on unsigned integers, written out bit by bit, and the
 facts that let the shift-and-mask code of the codecs be read as arithmetic.
 */
module Bits {

  type Byte = b: int | 0 <= b < 256

  function Pow2(k: nat): (p: nat)
    ensures p > 0
  {
    if k == 0 then 1 else 2 * Pow2(k - 1)
  }

  function Or(a: nat, b: nat): nat
    decreases a + b
  {
    if a == 0 && b == 0 then 0
    else (if a % 2 == 1 || b % 2 == 1 then 1 else 0) + 2 * Or(a / 2, b / 2)
  }

  function And(a: nat, b: nat): nat
    decreases a + b
  {
    if a == 0 && b == 0 then 0
    else (if a % 2 == 1 && b % 2 == 1 then 1 else 0) + 2 * And(a / 2, b / 2)
  }

  lemma {:induction false} OrZero(a: nat)
    ensures Or(a, 0) == a && Or(0, a) == a
  {
    if a > 0 {
      OrZero(a / 2);
    }
  }

  lemma {:induction false} AndZero(a: nat)
    ensures And(a, 0) == 0 && And(0, a) == 0
  {
    if a > 0 {
      AndZero(a / 2);
    }
  }

  /** `(d << k) | c` is addition as soon as `c` fits in the low `k` bits. */
  lemma {:induction false} OrDisjoint(d: nat, c: nat, k: nat)
    requires c < Pow2(k)
    ensures Or(d * Pow2(k), c) == d * Pow2(k) + c
  {
    if k == 0 {
      OrZero(d);
    } else {
      var x := d * Pow2(k);
      assert x == 2 * (d * Pow2(k - 1));
      OrDisjoint(d, c / 2, k - 1);
    }
  }

  /** Masking with `2^k - 1` keeps the remainder modulo `2^k`. */
  lemma {:induction false} AndMask(x: nat, k: nat)
    ensures And(x, Pow2(k) - 1) == x % Pow2(k)
  {
    hide And, Pow2;
    if k == 0 {
      assert Pow2(0) == 1 by { Pow2Zero(); }
      AndZero(x);
    } else {
      var p := Pow2(k - 1);
      assert Pow2(k) == 2 * p by { Pow2Step(k); }
      AndMask(x / 2, k - 1);
      AndOdd(x, p - 1);
      ModHalf(x, p);
    }
  }

  lemma {:induction false} Pow2Zero()
    ensures Pow2(0) == 1
  {
  }

  lemma {:induction false} Pow2Step(k: nat)
    requires k > 0
    ensures Pow2(k) == 2 * Pow2(k - 1)
  {
  }

  lemma {:induction false} AndOdd(x: nat, m: nat)
    ensures And(x, 2 * m + 1) == x % 2 + 2 * And(x / 2, m)
  {
    assert (2 * m + 1) / 2 == m && (2 * m + 1) % 2 == 1;
  }

  lemma {:induction false} ModHalf(x: nat, m: nat)
    requires m > 0
    ensures x % (2 * m) == x % 2 + 2 * ((x / 2) % m)
  {
    var q, r := (x / 2) / m, (x / 2) % m;
    assert x / 2 == q * m + r;
    assert x == x % 2 + 2 * (q * m + r) == (2 * m) * q + (x % 2 + 2 * r);
    DivModUnique(x, 2 * m, q, x % 2 + 2 * r);
  }

  lemma {:induction false} DivModUnique(x: int, m: int, q: int, r: int)
    requires m > 0 && 0 <= r < m && x == m * q + r
    ensures x / m == q && x % m == r
  {
    var d := x / m - q;
    assert m * d == r - x % m by {
      assert x == m * (x / m) + x % m;
    }
    if d > 0 {
      AtLeastOne(m, d);
    } else if d < 0 {
      AtLeastOne(m, -d);
    }
  }

  lemma {:induction false} AtLeastOne(m: int, d: int)
    requires m > 0 && d > 0
    ensures m * d >= m
  {
  }

  function ShiftLeft(m: nat, k: nat): nat
  {
    if k == 0 then m else 2 * ShiftLeft(m, k - 1)
  }

  function ShiftRight(x: nat, k: nat): nat
  {
    if k == 0 then x else ShiftRight(x / 2, k - 1)
  }

  lemma {:induction false} ShiftLeftZero(k: nat)
    ensures ShiftLeft(0, k) == 0
  {
    if k > 0 {
      ShiftLeftZero(k - 1);
    }
  }

  /** A mask shifted by `k` looks only at the bits above `k`. */
  lemma {:induction false} AndShifted(x: nat, m: nat, k: nat)
    ensures And(x, ShiftLeft(m, k)) == ShiftLeft(And(ShiftRight(x, k), m), k)
  {
    if k > 0 {
      AndShifted(x / 2, m, k - 1);
    }
  }

  lemma {:induction false} DivDiv(x: nat, p: nat)
    requires p > 0
    ensures x / (2 * p) == (x / 2) / p
  {
    var q, r := (x / 2) / p, (x / 2) % p;
    assert x == (2 * p) * q + (x % 2 + 2 * r);
    DivModUnique(x, 2 * p, q, x % 2 + 2 * r);
  }

  lemma {:induction false} ShiftRightIsDiv(x: nat, k: nat)
    ensures ShiftRight(x, k) == x / Pow2(k)
  {
    if k > 0 {
      ShiftRightIsDiv(x / 2, k - 1);
      DivDiv(x, Pow2(k - 1));
    }
  }

  /** The two high bits of a byte are both set exactly from 192 on. */
  lemma {:induction false} TopTwoBits(x: Byte)
    ensures And(x, 192) == 192 <==> x >= 192
  {
    AndShifted(x, 3, 6);
    assert ShiftLeft(3, 6) == 192;
    ShiftRightIsDiv(x, 6);
    assert Pow2(6) == 64;
    var t := x / 64;
    assert Pow2(2) == 4;
    AndMask(t, 2);
    ShiftLeftZero(6);
    assert ShiftLeft(1, 6) == 64 && ShiftLeft(2, 6) == 128;
    assert t == 0 || t == 1 || t == 2 || t == 3;
  }

  /** Bit 15 of a 16-bit value. */
  lemma {:induction false} TopBit16(x: nat)
    requires x < 65536
    ensures And(x, 32768) == 0 <==> x < 32768
  {
    AndShifted(x, 1, 15);
    assert ShiftLeft(1, 15) == 32768;
    ShiftLeftZero(15);
    ShiftRightIsDiv(x, 15);
    assert Pow2(15) == 32768;
    assert Pow2(1) == 2;
    AndMask(x / 32768, 1);
  }
}
