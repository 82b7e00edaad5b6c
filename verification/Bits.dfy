/** Powers of two and bitwise or, on unbounded naturals. */
module Bits {

  function Pow2(k: nat): (p: nat)
    ensures p > 0
  {
    if k == 0 then 1 else 2 * Pow2(k - 1)
  }

  function Or(a: nat, b: nat): nat
    decreases a + b
  {
    if a == 0 && b == 0 then 0
    else 2 * Or(a / 2, b / 2) + (if a % 2 == 1 || b % 2 == 1 then 1 else 0)
  }

  lemma {:induction false} OrZero(a: nat)
    ensures Or(a, 0) == a && Or(0, a) == a
  {
    if a > 0 { OrZero(a / 2); }
  }

  lemma {:induction false} OrBounds(a: nat, b: nat, k: nat)
    requires a < Pow2(k) && b < Pow2(k)
    ensures a <= Or(a, b) < Pow2(k) && b <= Or(a, b)
    decreases k
  {
    if k > 0 && (a > 0 || b > 0) { OrBounds(a / 2, b / 2, k - 1); }
  }

  function LowBit(a: nat, b: nat): nat {
    if a % 2 == 1 || b % 2 == 1 then 1 else 0
  }

  lemma OrStep(a: nat, b: nat)
    ensures Or(a, b) == 2 * Or(a / 2, b / 2) + LowBit(a, b)
  {
  }

  /** Or works field by field. */
  lemma {:induction false} OrFields(a: nat, b: nat, c: nat, d: nat, k: nat)
    requires b < Pow2(k) && d < Pow2(k)
    ensures Or(a * Pow2(k) + b, c * Pow2(k) + d) == Or(a, c) * Pow2(k) + Or(b, d)
    decreases k
  {
    if k == 0 {
      OrZero(0);
      assert a * Pow2(0) + b == a && c * Pow2(0) + d == c && Or(a, c) * Pow2(0) == Or(a, c);
    } else {
      OrFields(a, b / 2, c, d / 2, k - 1);
      OrFieldsStep(a, b, c, d, Pow2(k - 1));
    }
  }

  lemma OrFieldsStep(a: nat, b: nat, c: nat, d: nat, p: nat)
    requires Or(a * p + b / 2, c * p + d / 2) == Or(a, c) * p + Or(b / 2, d / 2)
    ensures Or(a * (2 * p) + b, c * (2 * p) + d) == Or(a, c) * (2 * p) + Or(b, d)
  {
    hide Or;
    var x, y := a * (2 * p) + b, c * (2 * p) + d;
    Halve(a, b, p);
    Halve(c, d, p);
    OrStep(x, y);
    OrStep(b, d);
    assert LowBit(x, y) == LowBit(b, d);
    assert Or(a, c) * (2 * p) == 2 * (Or(a, c) * p);
  }

  lemma Halve(a: nat, b: nat, p: nat)
    ensures (a * (2 * p) + b) / 2 == a * p + b / 2
    ensures (a * (2 * p) + b) % 2 == b % 2
  {
    assert a * (2 * p) == 2 * (a * p);
  }

  lemma AwayFromZero(m: int, d: int)
    requires m >= 0
    ensures d >= 1 ==> m * d >= m
    ensures d <= -1 ==> m * d <= -m
  {
  }
}
