/**
 The non-negative numbers of a binary floating-point format, as integers.

 A format is fixed by `h`, the value of its hidden bit (2^23 for binary32, 2^52 for
 binary64).  The magnitude bits of a number, read as an integer, are its *ordinal*.
 `Grid(h, n)` is the number with ordinal `n`, in units of the smallest subnormal.
 Every value is then an integer, so no machine float and no real number is needed.
 */
module FloatGrid {
  import opened Powers

  function Abs(x: int): nat { if x < 0 then -x else x }

  /** The value of ordinal `n`.  Adding `h` to an ordinal adds one to the exponent field. */
  function Grid(h: nat, n: nat): nat
    requires h >= 1
    decreases n
  {
    if n < 2 * h then n else 2 * Grid(h, n - h)
  }

  /** `Grid` agrees with the field-by-field decoding of an IEEE 754 interchange format. */
  lemma {:induction false} GridDecodesFields(h: nat, exponent: nat, fraction: nat)
    requires h >= 1 && fraction < h
    ensures Grid(h, exponent * h + fraction) ==
            if exponent == 0 then fraction else (h + fraction) * Pow2(exponent - 1)
    decreases exponent
  {
    if exponent == 0 {
    } else if exponent == 1 {
      Pow2Unit(h + fraction);
    } else {
      assert exponent * h == (exponent - 1) * h + h;
      assert (exponent - 1) * h == (exponent - 2) * h + h;
      GridDecodesFields(h, exponent - 1, fraction);
      Pow2Twice(h + fraction, exponent - 1);
      GridShift(h, (exponent - 1) * h + fraction);
    }
  }

  lemma {:induction false} GridStep(h: nat, n: nat)
    requires h >= 1
    ensures Grid(h, n) < Grid(h, n + 1)
    decreases n
  {
    if n >= 2 * h {
      GridStep(h, n - h);
    }
  }

  lemma {:induction false} GridMonotone(h: nat, m: nat, n: nat)
    requires h >= 1 && m <= n
    ensures Grid(h, m) <= Grid(h, n)
    ensures m < n ==> Grid(h, m) < Grid(h, n)
    decreases n
  {
    if m < n {
      GridStep(h, n - 1);
      GridMonotone(h, m, n - 1);
    }
  }

  /** The largest ordinal whose value does not exceed `v`. */
  function Floor(h: nat, v: nat): (n: nat)
    requires h >= 1
    ensures Grid(h, n) <= v < Grid(h, n + 1)
    ensures v >= h ==> n >= h
    decreases v
  {
    if v < 2 * h then v
    else h + Floor(h, v / 2)
  }

  lemma FloorOfGrid(h: nat, n: nat)
    requires h >= 1
    ensures Floor(h, Grid(h, n)) == n
  {
    var f := Floor(h, Grid(h, n));
    if f < n { GridMonotone(h, f + 1, n); }
    if n < f { GridMonotone(h, n, f); }
  }

  // ----- rounding -----

  /** Round-to-nearest, ties to the even ordinal, onto the grid scaled by `s`. */
  function Round(h: nat, s: nat, v: nat): nat
    requires h >= 1 && s >= 1
  {
    var n := ScaledFloor(h, s, v);
    Choose(n, Point(h, s, n), Point(h, s, n + 1), v)
  }

  /** The value of ordinal `n` when the smallest subnormal is worth `s`. */
  function Point(h: nat, s: nat, n: nat): nat
    requires h >= 1
  {
    Grid(h, n) * s
  }

  /** The largest ordinal whose scaled value does not exceed `v`. */
  function ScaledFloor(h: nat, s: nat, v: nat): (n: nat)
    requires h >= 1 && s >= 1
    ensures Point(h, s, n) <= v < Point(h, s, n + 1)
  {
    var n := Floor(h, v / s);
    DivBounds(v, s, Grid(h, n), Grid(h, n + 1));
    n
  }

  /** Of the neighbours `lo` and `hi` of `v`, with ordinals `n` and `n + 1`, the nearer, or the even one. */
  function Choose(n: nat, lo: int, hi: int, v: int): nat {
    if v - lo < hi - v || (v - lo == hi - v && n % 2 == 0) then n else n + 1
  }

  /** roundTiesToEven of IEEE 754-2019, section 4.3.1: no number is nearer, and a tie went to the even one. */
  ghost predicate IsNearestEven(h: nat, s: nat, v: nat, r: nat)
    requires h >= 1
  {
    forall k: nat ::
      && Abs(v - Point(h, s, r)) <= Abs(v - Point(h, s, k))
      && (k != r && Abs(v - Point(h, s, r)) == Abs(v - Point(h, s, k)) ==> r % 2 == 0)
  }

  lemma DivBounds(v: nat, s: nat, a: nat, b: nat)
    requires s >= 1 && a <= v / s < b
    ensures a * s <= v < b * s
  {
    var q := v / s;
    assert v == q * s + v % s;
    ScaleMonotone(a, q, s);
    ScaleMonotone(q + 1, b, s);
  }

  lemma ScaleMonotone(a: int, b: int, s: nat)
    requires a <= b
    ensures a * s <= b * s
  {
    assert 0 <= (b - a) * s;
  }

  lemma PointMonotone(h: nat, s: nat, m: nat, n: nat)
    requires h >= 1 && s >= 1 && m <= n
    ensures Point(h, s, m) <= Point(h, s, n)
    ensures m < n ==> Point(h, s, m) < Point(h, s, n)
  {
    hide Grid;
    GridMonotone(h, m, n);
    ScaleMonotone(Grid(h, m), Grid(h, n), s);
    if m < n {
      ScaleMonotone(Grid(h, m) + 1, Grid(h, n), s);
    }
  }

  lemma ScaledFloorUnique(h: nat, s: nat, v: nat, n: nat)
    requires h >= 1 && s >= 1 && Point(h, s, n) <= v < Point(h, s, n + 1)
    ensures ScaledFloor(h, s, v) == n
  {
    hide Point, ScaledFloor;
    var f := ScaledFloor(h, s, v);
    if f < n { PointMonotone(h, s, f + 1, n); }
    if n < f { PointMonotone(h, s, n + 1, f); }
  }

  lemma RoundIsNearestEven(h: nat, s: nat, v: nat)
    requires h >= 1 && s >= 1
    ensures IsNearestEven(h, s, v, Round(h, s, v))
  {
    forall k: nat {
      RoundBeats(h, s, v, k);
    }
  }

  lemma RoundBeats(h: nat, s: nat, v: nat, k: nat)
    requires h >= 1 && s >= 1
    ensures var r := Round(h, s, v);
            && Abs(v - Point(h, s, r)) <= Abs(v - Point(h, s, k))
            && (k != r && Abs(v - Point(h, s, r)) == Abs(v - Point(h, s, k)) ==> r % 2 == 0)
  {
    hide Point, ScaledFloor;
    var n := ScaledFloor(h, s, v);
    if k <= n {
      PointMonotone(h, s, k, n);
    } else {
      PointMonotone(h, s, n + 1, k);
    }
  }

  lemma NearestEvenIsUnique(h: nat, s: nat, v: nat, r: nat, r': nat)
    requires h >= 1 && s >= 1
    requires IsNearestEven(h, s, v, r) && IsNearestEven(h, s, v, r')
    ensures r == r'
  {
    hide IsNearestEven;
    if r < r' {
      NearestEvenNotAbove(h, s, v, r, r');
    } else if r' < r {
      NearestEvenNotAbove(h, s, v, r', r);
    }
  }

  lemma NearestEvenNotAbove(h: nat, s: nat, v: nat, lo: nat, hi: nat)
    requires h >= 1 && s >= 1 && lo < hi && IsNearestEven(h, s, v, lo)
    ensures !IsNearestEven(h, s, v, hi)
  {
    hide Point;
    PointMonotone(h, s, lo, lo + 1);
    PointMonotone(h, s, lo + 1, hi);
  }

  // ----- representable integers -----

  /** Some number of the format has this value (signs are kept separately, as IEEE 754 does). */
  predicate Rep(h: nat, v: int)
    requires h >= 1
  {
    Grid(h, Floor(h, Abs(v))) == Abs(v)
  }

  lemma GridIsRep(h: nat, n: nat)
    requires h >= 1
    ensures Rep(h, Grid(h, n))
  {
    FloorOfGrid(h, n);
  }

  lemma RepDouble(h: nat, v: int)
    requires h >= 1
    ensures Rep(h, v) ==> Rep(h, 2 * v)
  {
    var a := Abs(v);
    assert Abs(2 * v) == 2 * a;
    if a >= h {
      FloorDouble(h, a);
    }
  }

  lemma FloorDouble(h: nat, a: nat)
    requires h >= 1 && a >= h
    ensures var n := Floor(h, a);
            && Floor(h, 2 * a) == h + n >= 2 * h
            && Grid(h, h + n) == 2 * Grid(h, n) && Grid(h, h + n + 1) == 2 * Grid(h, n + 1)
  {
    hide *;
    var n := Floor(h, a);
    FloorOfTwice(h, a, 2 * a);
    GridShift(h, n);
    GridShift(h, n + 1);
  }

  lemma FloorOfTwice(h: nat, a: nat, b: nat)
    requires h >= 1 && a >= h && b == 2 * a
    ensures Floor(h, b) == h + Floor(h, a)
  {
    hide Grid;
    assert b / 2 == a;
  }

  lemma GridShift(h: nat, n: nat)
    requires n >= h >= 1
    ensures Grid(h, h + n) == 2 * Grid(h, n)
  {
    assert h + n - h == n;
  }


  lemma SmallIsRep(h: nat, v: int)
    requires h >= 1 && Abs(v) <= 2 * h
    ensures Rep(h, v)
  {
  }

  lemma {:induction false} RepScale(h: nat, m: int, k: nat)
    requires h >= 1 && Abs(m) <= 2 * h
    ensures Rep(h, m * Pow2(k))
  {
    if k == 0 {
      Pow2Unit(m);
      SmallIsRep(h, m);
    } else {
      hide Rep, Pow2;
      RepScale(h, m, k - 1);
      Pow2Twice(m, k);
      RepDouble(h, m * Pow2(k - 1));
    }
  }

  lemma RepHalve(h: nat, v: nat)
    requires h >= 1 && Rep(h, v) && v >= 2 * h
    ensures v % 2 == 0 && Rep(h, v / 2)
  {
    assert v == 2 * Grid(h, Floor(h, v) - h);
    GridIsRep(h, Floor(h, v) - h);
  }

  /** Every number is `m * 2^k` with a significand below `2h`, normalised unless `k` is zero. */
  lemma {:induction false} RepForm(h: nat, v: nat) returns (m: nat, k: nat)
    requires h >= 1 && Rep(h, v)
    ensures v == m * Pow2(k) && m < 2 * h
    ensures k > 0 ==> m >= h
    decreases v
  {
    hide Rep, Pow2;
    if v < 2 * h {
      m, k := v, 0;
      Pow2Unit(v);
    } else {
      RepHalve(h, v);
      m, k := RepForm(h, v / 2);
      if k == 0 { Pow2Unit(m); }
      k := k + 1;
      Pow2Twice(m, k);
    }
  }

  /** Numbers of at least `h * 2^t` are spaced `2^t` apart. */
  lemma {:induction false} RepSpacing(h: nat, v: nat, t: nat) returns (q: nat)
    requires h >= 1 && Rep(h, v) && v >= h * Pow2(t)
    ensures v == q * Pow2(t)
  {
    if t == 0 {
      q := v;
      assert v * 1 == v;
    } else {
      Pow2Twice(h, t);
      ScaleMonotone(1, Pow2(t - 1), h);
      RepHalve(h, v);
      q := RepSpacing(h, v / 2, t - 1);
      Pow2Twice(q, t);
    }
  }
}
