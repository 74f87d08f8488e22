/**
 Knuth's TwoSum over the integers of `FloatGrid`: six rounded operations recover, exactly,
 what the first of them rounded away.
 */
module TwoSum {
  import opened Powers
  import opened FloatGrid

  /** Round an exact integer to the nearest number of the format, ties to even. */
  function Rn(h: nat, v: int): int
    requires h >= 1
  {
    var g: int := Grid(h, Round(h, 1, Abs(v)));
    if v < 0 then -g else g
  }

  lemma RepNegate(h: nat, v: int)
    requires h >= 1
    ensures Rep(h, v) <==> Rep(h, -v)
  {
  }

  lemma GridZero(h: nat)
    requires h >= 1
    ensures Grid(h, 0) == 0 && Round(h, 1, 0) == 0
  {
    RoundBeats(h, 1, 0, 0);
  }

  lemma RnIsRep(h: nat, v: int)
    requires h >= 1
    ensures Rep(h, Rn(h, v)) && Rn(h, -v) == -Rn(h, v)
  {
    GridIsRep(h, Round(h, 1, Abs(v)));
    RepNegate(h, Rn(h, v));
    hide Rep, Grid;
    RoundBeats(h, 1, 0, 0);
    GridZero(h);
  }

  lemma RnNearest(h: nat, v: int, w: int)
    requires h >= 1 && Rep(h, w)
    ensures Abs(v - Rn(h, v)) <= Abs(v - w)
  {
    RoundBeats(h, 1, Abs(v), Floor(h, Abs(w)));
    RoundBeats(h, 1, Abs(v), 0);
  }

  lemma RnExact(h: nat, v: int)
    requires h >= 1 && Rep(h, v)
    ensures Rn(h, v) == v
  {
    RnNearest(h, v, v);
  }

  lemma ZeroIsRep(h: nat)
    requires h >= 1
    ensures Rep(h, 0) && Rn(h, 0) == 0
  {
    RnExact(h, 0);
  }

  lemma {:induction false} RnScale(h: nat, q: int, k: nat)
    requires h >= 1 && h % 2 == 0
    ensures Rn(h, q * Pow2(k)) == Rn(h, q) * Pow2(k)
  {
    if k == 0 {
      assert q * 1 == q && Rn(h, q) * 1 == Rn(h, q);
    } else {
      RnScale(h, q, k - 1);
      Pow2Twice(q, k);
      Pow2Twice(Rn(h, q), k);
      RnDouble(h, q * Pow2(k - 1));
    }
  }

  lemma RnDouble(h: nat, v: int)
    requires h >= 1 && h % 2 == 0
    ensures Rn(h, 2 * v) == 2 * Rn(h, v)
  {
    var a := Abs(v);
    assert Abs(2 * v) == 2 * a;
    if 2 * a < 2 * h {
      RepScale(h, v, 0);
      RepScale(h, 2 * v, 0);
      assert v * 1 == v && 2 * v * 1 == 2 * v;
      RnExact(h, v);
      RnExact(h, 2 * v);
    } else {
      RoundDouble(h, a);
      assert Grid(h, h + Round(h, 1, a)) == 2 * Grid(h, Round(h, 1, a));
    }
  }

  lemma RoundDouble(h: nat, a: nat)
    requires h >= 1 && h % 2 == 0 && a >= h
    ensures Round(h, 1, 2 * a) == h + Round(h, 1, a) >= 2 * h
  {
    hide *;
    FloorDouble(h, a);
    var n := Floor(h, a);
    RoundAtOne(h, a);
    RoundAtOne(h, 2 * a);
    ChooseDouble(h, n, Grid(h, n), Grid(h, n + 1), a);
  }

  lemma ChooseDouble(h: nat, n: nat, lo: int, hi: int, v: int)
    requires h % 2 == 0
    ensures Choose(h + n, 2 * lo, 2 * hi, 2 * v) == h + Choose(n, lo, hi, v) >= h + n
  {
  }

  lemma RoundAtOne(h: nat, v: nat)
    requires h >= 1
    ensures var n := Floor(h, v); Round(h, 1, v) == Choose(n, Grid(h, n), Grid(h, n + 1), v)
  {
    hide Floor, Grid, Choose;
    assert v / 1 == v;
  }

  // ----- three exactness lemmas -----

  /** Two numbers on a common scale, on which one of them has a short significand. */
  lemma CommonScale(h: nat, x: int, y: int) returns (X: int, Y: int, t: nat)
    requires h >= 1 && Rep(h, x) && Rep(h, y)
    ensures x == X * Pow2(t) && y == Y * Pow2(t)
    ensures Abs(X) < 2 * h || Abs(Y) < 2 * h
  {
    var m, j := RepForm(h, Abs(x));
    var n, k := RepForm(h, Abs(y));
    t := if j <= k then j else k;
    var X' := Rescale(m, j, t);
    var Y' := Rescale(n, k, t);
    X := Signed(x, X', t);
    Y := Signed(y, Y', t);
  }

  lemma Signed(x: int, m: nat, t: nat) returns (X: int)
    requires Abs(x) == m * Pow2(t)
    ensures x == X * Pow2(t) && Abs(X) == m
  {
    X := m;
    if x < 0 {
      X := -X;
      NegMul(m, t);
    }
  }

  lemma Distribute(a: int, b: int, p: nat)
    ensures (a + b) * p == a * p + b * p
  {
  }

  lemma NegMul(a: int, t: nat)
    ensures (-a) * Pow2(t) == -(a * Pow2(t))
  {
  }

  lemma Rescale(m: nat, j: nat, t: nat) returns (X: nat)
    requires t <= j
    ensures m * Pow2(j) == X * Pow2(t) && (t == j ==> X == m)
  {
    Pow2Add(j - t, t);
    X := m * Pow2(j - t);
    var a, b := Pow2(j - t), Pow2(t);
    assert m * (a * b) == (m * a) * b;
  }

  lemma CancelScale(a: int, b: int, t: nat)
    requires Abs(a * Pow2(t)) <= Abs(b * Pow2(t))
    ensures Abs(a) <= Abs(b)
  {
    hide Pow2, Abs;
    AbsScale(a, Pow2(t));
    AbsScale(b, Pow2(t));
    if Abs(a) > Abs(b) {
      ScaleMonotone(Abs(b) + 1, Abs(a), Pow2(t));
    }
  }

  lemma AbsScale(a: int, p: nat)
    ensures Abs(a * p) == Abs(a) * p
  {
    if a < 0 {
      assert (-a) * p == -(a * p);
      ScaleMonotone(a, 0, p);
    }
  }

  /** On the common scale of `x` and `y`, anything no larger than either is a number. */
  lemma RepBelowBoth(h: nat, X: int, Y: int, t: nat, q: int)
    requires h >= 1 && (Abs(X) < 2 * h || Abs(Y) < 2 * h)
    requires Abs(q * Pow2(t)) <= Abs(X * Pow2(t)) && Abs(q * Pow2(t)) <= Abs(Y * Pow2(t))
    ensures Rep(h, q * Pow2(t))
  {
    CancelScale(q, X, t);
    CancelScale(q, Y, t);
    RepScale(h, q, t);
  }

  /** The rounding error of an addition is itself a number, no larger than either operand. */
  lemma AdditionErrorIsRep(h: nat, x: int, y: int)
    requires h >= 1 && h % 2 == 0 && Rep(h, x) && Rep(h, y)
    ensures Rep(h, x + y - Rn(h, x + y))
    ensures Abs(x + y - Rn(h, x + y)) <= Abs(x) && Abs(x + y - Rn(h, x + y)) <= Abs(y)
  {
    hide Rep, Rn, Pow2;
    var X, Y, t := CommonScale(h, x, y);
    RnNearest(h, x + y, x);
    RnNearest(h, x + y, y);
    var q := X + Y;
    Distribute(X, Y, Pow2(t));
    RnScale(h, q, t);
    var e := q - Rn(h, q);
    Distribute(e, Rn(h, q), Pow2(t));
    RepBelowBoth(h, X, Y, t, e);
  }

  /** Sterbenz: a sum that cancels below both operands is exact. */
  lemma CancellingSumIsRep(h: nat, x: int, y: int)
    requires h >= 1 && Rep(h, x) && Rep(h, y)
    requires Abs(x + y) <= Abs(x) && Abs(x + y) <= Abs(y)
    ensures Rep(h, x + y)
  {
    var X, Y, t := CommonScale(h, x, y);
    hide Rep, Pow2;
    Distribute(X, Y, Pow2(t));
    RepBelowBoth(h, X, Y, t, X + Y);
  }

  /** Dekker: subtracting the larger operand from a rounded sum is exact. */
  lemma SumMinusLargerIsRep(h: nat, x: int, y: int)
    requires h >= 1 && h % 2 == 0 && Rep(h, x) && Rep(h, y) && Abs(y) <= Abs(x)
    ensures Rep(h, Rn(h, x + y) - x)
  {
    hide Rep, Rn;
    if x >= 0 {
      SumMinusLargerIsRepPositive(h, x, y);
    } else {
      RepNegate(h, x);
      RepNegate(h, y);
      SumMinusLargerIsRepPositive(h, -x, -y);
      RnIsRep(h, x + y);
      assert -x + -y == -(x + y);
      RepNegate(h, Rn(h, -x + -y) - (-x));
    }
  }

  lemma SumMinusLargerIsRepPositive(h: nat, x: nat, y: int)
    requires h >= 1 && h % 2 == 0 && Rep(h, x) && Rep(h, y) && Abs(y) <= x
    ensures Rep(h, Rn(h, x + y) - x)
  {
    hide Rep, Rn, Pow2;
    var m, j := RepForm(h, x);
    if y >= 0 {
      GrowingSum(h, x, y, m, j);
    } else if x + y <= -y {
      CancellingSumIsRep(h, x, y);
      RnExact(h, x + y);
    } else if j == 0 {
      Pow2Unit(m);
      Pow2Unit(x + y);
      RepScale(h, x + y, 0);
      RnExact(h, x + y);
    } else {
      ShrinkingSum(h, x, y, m, j);
    }
  }

  /** The sum stays on the scale of `x`, at most doubling it. */
  lemma GrowingSum(h: nat, x: nat, y: nat, m: nat, j: nat)
    requires h >= 1 && h % 2 == 0 && Rep(h, x) && y <= x
    requires x == m * Pow2(j) && m < 2 * h && (j > 0 ==> m >= h)
    ensures Rep(h, Rn(h, x + y) - x)
  {
    hide Rep, Rn, Pow2;
    var z := Rn(h, x + y);
    RnIsRep(h, x + y);
    RnNearest(h, x + y, x);
    RepDouble(h, x);
    RnNearest(h, x + y, 2 * x);
    ScaleMonotone(m, 2 * h, Pow2(j));
    var q := z;
    if j > 0 {
      ScaleMonotone(h, m, Pow2(j));
      q := RepSpacing(h, z, j);
    } else {
      Pow2Unit(z);
    }
    DiffOnScale(h, z, x, q, m, j);
  }

  /** The sum stays above half of `x`, so on half the scale of `x`. */
  lemma ShrinkingSum(h: nat, x: nat, y: int, m: nat, j: nat)
    requires h >= 1 && h % 2 == 0 && Rep(h, x) && y < 0 < -y < x + y
    requires x == m * Pow2(j) && h <= m < 2 * h && j > 0
    ensures Rep(h, Rn(h, x + y) - x)
  {
    hide Rep, Rn, Pow2;
    var z, half := Rn(h, x + y), m * Pow2(j - 1);
    RnIsRep(h, x + y);
    RnNearest(h, x + y, x);
    Pow2Twice(m, j);
    RepScale(h, m, j - 1);
    RnNearest(h, x + y, half);
    ScaleMonotone(h, m, Pow2(j - 1));
    ScaleMonotone(m, 2 * h, Pow2(j - 1));
    var q := RepSpacing(h, z, j - 1);
    Distribute(m, m, Pow2(j - 1));
    DiffOnScale(h, z, x, q, m + m, j - 1);
  }

  /** Both on scale `2^t`, and no further apart than `2h` steps. */
  lemma DiffOnScale(h: nat, z: nat, x: nat, q: nat, m: nat, t: nat)
    requires h >= 1 && z == q * Pow2(t) && x == m * Pow2(t)
    requires Abs(z - x) <= 2 * h * Pow2(t)
    ensures Rep(h, z - x)
  {
    hide Rep, Pow2;
    Distribute(q - m, m, Pow2(t));
    CancelScale(q - m, 2 * h, t);
    RepScale(h, q - m, t);
  }

  // ----- TwoSum -----

  /** The residual that TwoSum computes for `a + b`. */
  function Residual(h: nat, a: int, b: int): int
    requires h >= 1
  {
    var sum := Rn(h, a + b);
    var shifted := Rn(h, sum - a);
    var unshifted := Rn(h, sum - shifted);
    Rn(h, Rn(h, a - unshifted) + Rn(h, b - shifted))
  }

  /** For every pair of numbers, whichever is larger, the residual is what the sum lost. */
  lemma ResidualIsExact(h: nat, a: int, b: int)
    requires h >= 1 && h % 2 == 0 && Rep(h, a) && Rep(h, b)
    ensures Residual(h, a, b) == a + b - Rn(h, a + b)
  {
    hide Rep, Rn;
    var s := Rn(h, a + b);
    RnIsRep(h, a + b);
    AdditionErrorIsRep(h, a, b);
    RnExact(h, a + b - s);
    ZeroIsRep(h);
    RnExact(h, a);
    RnExact(h, b);
    if Abs(a) >= Abs(b) {
      SumMinusLargerIsRep(h, a, b);
      RnExact(h, s - a);
    } else if s != a + b {
      SumDominatesSmaller(h, a, b);
      var bv := Rn(h, s - a);
      RepNegate(h, a);
      SumMinusLargerIsRep(h, s, -a);
      assert s + -a == s - a;
      RepNegate(h, bv - s);
      assert -(bv - s) == s - bv;
      RnExact(h, s - bv);
      AdditionErrorIsRep(h, s, -a);
      RepNegate(h, s + -a - bv);
      assert -(s + -a - bv) == a - (s - bv);
      RnExact(h, a - (s - bv));
      RepNegate(h, a + b - s);
      assert -(a + b - s) == s - (a + b);
      SumMinusLargerIsRep(h, b, s - (a + b));
      assert b + (s - (a + b)) == s - a;
      RepNegate(h, bv - b);
      assert -(bv - b) == b - bv;
      RnExact(h, b - bv);
      assert a - (s - bv) + (b - bv) == a + b - s;
    }
  }

  lemma SumDominatesSmaller(h: nat, a: int, b: int)
    requires h >= 1 && Rep(h, a) && Rep(h, b) && Abs(a) < Abs(b) && Rn(h, a + b) != a + b
    ensures Abs(Rn(h, a + b)) >= Abs(a)
  {
    hide Rep, Rn;
    RepNegate(h, a);
    if Abs(a + b) <= Abs(a) {
      CancellingSumIsRep(h, a, b);
      RnExact(h, a + b);
    } else {
      RnNearest(h, a + b, a);
      RnNearest(h, a + b, -a);
    }
  }
}
