/**
 Remainders of integers of either sign.
 */
module Modular {

  lemma ModAddMultiple(b: int, k: int, p: nat)
    requires p >= 1
    ensures (b + k * p) % p == b % p
  {
    var q, r := b / p, b % p;
    assert b + k * p == (q + k) * p + r;
    ModUnique((q + k) * p + r, p, q + k, r);
  }

  lemma ModUnique(x: int, p: nat, q: int, r: nat)
    requires p >= 1 && r < p && x == q * p + r
    ensures x % p == r
  {
    var q', r' := DivModInt(x, p);
    if q' < q { StepInt(p, q', q); }
    if q < q' { StepInt(p, q, q'); }
  }

  lemma DivModInt(x: int, p: nat) returns (q: int, r: nat)
    requires p >= 1
    ensures r == x % p && x == q * p + r && r < p
  {
    q, r := x / p, x % p;
  }

  lemma StepInt(p: nat, q: int, q': int)
    requires q < q'
    ensures q * p + p <= q' * p
  {
    assert (q' - q - 1) * p >= 0;
    assert (q' - q - 1) * p == q' * p - q * p - p;
  }

  lemma QuotientShrinks(x: nat, y: nat)
    requires y >= 1
    ensures 0 <= x / y <= x
  {
  }

  lemma MultipleIsZero(q: int, p: nat)
    requires p >= 1
    ensures (q * p) % p == 0
  {
    ModUnique(q * p, p, q, 0);
  }

  /** What wrapping takes away is a multiple of the modulus. */
  lemma WrappedDiffers(v: int, p: nat)
    requires p >= 1
    ensures (v % p - v) % p == 0
  {
    var q, r := DivModInt(v, p);
    assert (-q) * p == -(q * p);
    MultipleIsZero(-q, p);
  }

  /** Rounding a quotient down does not take it further from zero. */
  lemma FloorRange(n: int, p: nat)
    requires p >= 1
    ensures var q := n / p; q * p <= n < q * p + p && (if n >= 0 then 0 <= q <= n else n <= q < 0)
  {
    var q, r := n / p, n % p;
    assert n == q * p + r;
    if q > 0 {
      ProductAtLeast(q, p);
    } else if q < 0 {
      ProductAtLeast(-q, p);
      assert (-q) * p == -(q * p);
      if q + 1 < 0 { ProductAtLeast(-q - 1, p); assert (-q - 1) * p == -(q * p) - p; }
    }
  }

  lemma ProductAtLeast(q: nat, p: nat)
    requires p >= 1
    ensures q * p >= q
  {
  }
}
