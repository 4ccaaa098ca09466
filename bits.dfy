/**
 * Python's `<<`, `|` and `&` on non-negative integers (which Python never
 * truncates), defined bit by bit from the least significant end.
 */
module Bits {

  function Pow2(k: nat): (r: nat)
    ensures r >= 1
  {
    if k == 0 then 1 else 2 * Pow2(k - 1)
  }

  /** `x << k` */
  function Shl(x: nat, k: nat): nat {
    x * Pow2(k)
  }

  /** `x | y` */
  function Or(x: nat, y: nat): nat
    decreases x + y
  {
    if x == 0 && y == 0 then 0
    else 2 * Or(x / 2, y / 2) + (if x % 2 == 1 || y % 2 == 1 then 1 else 0)
  }

  /** `x & y` */
  function And(x: nat, y: nat): nat
    decreases x + y
  {
    if x == 0 || y == 0 then 0
    else 2 * And(x / 2, y / 2) + (if x % 2 == 1 && y % 2 == 1 then 1 else 0)
  }

  /** Or-ing a value that fits below bit `k` into a multiple of `2^k` is addition. */
  lemma {:induction false} OrLowBits(a: nat, k: nat, b: nat)
    requires b < Pow2(k)
    ensures Or(a * Pow2(k), b) == a * Pow2(k) + b
  {
    if k == 0 {
      OrZero(a);
    } else {
      var p := Pow2(k - 1);
      var q := a * p;
      assert a * Pow2(k) == 2 * q by {
        assert Pow2(k) == 2 * p;
        MulTwice(a, p);
      }
      var x := 2 * q;
      if x != 0 || b != 0 {
        assert x / 2 == q && x % 2 == 0;
        assert b / 2 < p;
        OrLowBits(a, k - 1, b / 2);
        assert Or(x, b) == 2 * Or(q, b / 2) + b % 2;
      }
    }
  }

  lemma MulTwice(a: nat, p: nat)
    ensures a * (2 * p) == 2 * (a * p)
  {
  }

  lemma {:induction false} OrZero(x: nat)
    ensures Or(x, 0) == x
    decreases x
  {
    if x != 0 {
      OrZero(x / 2);
    }
  }

  /** Masking a value below `2^k` with `2^k - 1` leaves it unchanged. */
  lemma {:induction false} AndMask(x: nat, k: nat)
    requires x < Pow2(k)
    ensures And(x, Pow2(k) - 1) == x
    decreases x
  {
    var m := Pow2(k) - 1;
    if x != 0 {
      var p := Pow2(k - 1);
      assert m / 2 == p - 1 && m % 2 == 1;
      AndMask(x / 2, k - 1);
    }
  }

  lemma Pow2Values()
    ensures Pow2(8) == 256 && Pow2(10) == 1024 && Pow2(12) == 4096
  {
    assert Pow2(4) == 16;
    assert Pow2(8) == 256;
  }
}
