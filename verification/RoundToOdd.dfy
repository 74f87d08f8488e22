/**
 Rounding to odd in a wide format and then to nearest in a narrow one is a single rounding
 to nearest, because every narrow number and every midpoint of two narrow numbers is a wide
 number with an even ordinal.
 */
module RoundToOdd {
  import opened Powers
  import opened FloatGrid

  /** Exact values keep their ordinal; any other goes to its odd neighbour. */
  function RoundOdd(h: nat, v: nat): nat
    requires h >= 1
  {
    var n := Floor(h, v);
    if Grid(h, n) == v || n % 2 == 1 then n else n + 1
  }

  /** A wide number with an even ordinal. */
  predicate EvenPoint(h: nat, t: nat)
    requires h >= 1
  {
    Rep(h, t) && Floor(h, t) % 2 == 0
  }

  /** A value that is not on the wide grid and its odd rounding lie on the same side of every even point. */
  lemma OddStaysOnSide(h: nat, v: nat, t: nat)
    requires h >= 1 && !Rep(h, v) && EvenPoint(h, t)
    ensures var w := Grid(h, RoundOdd(h, v)); v != t && w != t && (v < t <==> w < t)
  {
    hide Grid, Floor, RoundOdd, EvenPoint, Rep;
    OddNeighbour(h, v);
    EvenPointIs(h, t);
    SideOfOrdinals(h, v, Floor(h, v), Floor(h, t), RoundOdd(h, v));
  }

  lemma OddNeighbour(h: nat, v: nat)
    requires h >= 1 && !Rep(h, v)
    ensures var n, r := Floor(h, v), RoundOdd(h, v);
            Grid(h, n) < v < Grid(h, n + 1) && r % 2 == 1 && (r == n || r == n + 1)
  {
    hide Grid, Floor;
  }

  lemma EvenPointIs(h: nat, t: nat)
    requires h >= 1 && EvenPoint(h, t)
    ensures Grid(h, Floor(h, t)) == t && Floor(h, t) % 2 == 0
  {
    hide Grid, Floor;
  }

  lemma SideOfOrdinals(h: nat, v: nat, n: nat, e: nat, r: nat)
    requires h >= 1 && Grid(h, n) < v < Grid(h, n + 1)
    requires e % 2 == 0 && r % 2 == 1 && (r == n || r == n + 1)
    ensures v != Grid(h, e) && Grid(h, r) != Grid(h, e)
    ensures v < Grid(h, e) <==> Grid(h, r) < Grid(h, e)
  {
    hide Grid;
    if r < e {
      GridMonotone(h, r, e);
      GridMonotone(h, n + 1, e);
    } else {
      GridMonotone(h, e, r);
      GridMonotone(h, e, n);
    }
  }

  lemma {:induction false} EvenOrdinal(h: nat, m: nat, k: nat)
    requires h >= 1 && h % 2 == 0 && m < h && k >= 1
    ensures EvenPoint(h, m * Pow2(k))
  {
    hide Rep, Pow2;
    RepScale(h, m, k);
    Pow2Twice(m, k);
    if k == 1 {
      Pow2Unit(m);
    } else {
      EvenOrdinal(h, m, k - 1);
      EvenOrdinalStep(h, m * Pow2(k - 1));
    }
  }

  lemma EvenOrdinalStep(h: nat, v: nat)
    requires h >= 1 && h % 2 == 0 && Floor(h, v) % 2 == 0
    ensures Floor(h, 2 * v) % 2 == 0
  {
    hide Floor;
    if v >= h {
      FloorOfTwice(h, v, 2 * v);
    } else {
      SmallFloor(h, 2 * v);
    }
  }

  lemma SmallFloor(h: nat, v: nat)
    requires h >= 1 && v < 2 * h
    ensures Floor(h, v) == v
  {
  }

  /** Twice the midpoint of two neighbours has two significant bits more than they have. */
  lemma {:induction false} MidpointForm(h: nat, n: nat) returns (m: nat, k: nat)
    requires h >= 1
    ensures Grid(h, n) + Grid(h, n + 1) == m * Pow2(k) && m < 4 * h
    decreases n
  {
    if n < 2 * h {
      m, k := Grid(h, n) + Grid(h, n + 1), 0;
      Pow2Unit(m);
    } else {
      m, k := MidpointForm(h, n - h);
      k := k + 1;
      hide Pow2;
      Pow2Twice(m, k);
    }
  }

  /** Half way from one narrow number to the next. */
  function Midpoint(h: nat, d: nat, n: nat): nat
    requires h >= 1 && d >= 1
  {
    (Grid(h, n) + Grid(h, n + 1)) * Pow2(d - 1)
  }

  lemma MidpointIsHalfway(h: nat, d: nat, n: nat)
    requires h >= 1 && d >= 1
    ensures 2 * Midpoint(h, d, n) == Point(h, Pow2(d), n) + Point(h, Pow2(d), n + 1)
  {
    hide Grid, Pow2;
    var lo, hi, p := Grid(h, n), Grid(h, n + 1), Pow2(d);
    Pow2Twice(lo + hi, d);
    assert (lo + hi) * p == lo * p + hi * p;
  }

  /** The narrow points are even in the wide format (`H`), and so are their midpoints. */
  lemma NarrowPointIsEven(H: nat, h: nat, d: nat, n: nat)
    requires h >= 1 && H % 2 == 0 && 2 * h <= H && d >= 1
    ensures EvenPoint(H, Point(h, Pow2(d), n))
  {
    hide Grid, Pow2, EvenPoint;
    GridIsRep(h, n);
    var m, k := RepForm(h, Grid(h, n));
    Pow2Add(k, d);
    Regroup(m, Pow2(k), Pow2(d));
    EvenOrdinal(H, m, k + d);
  }

  lemma NarrowMidpointIsEven(H: nat, h: nat, d: nat, n: nat)
    requires h >= 1 && H % 2 == 0 && 4 * h <= H && d >= 2
    ensures EvenPoint(H, Midpoint(h, d, n))
  {
    hide Grid, Pow2, EvenPoint;
    var m, k := MidpointForm(h, n);
    Pow2Add(k, d - 1);
    Regroup(m, Pow2(k), Pow2(d - 1));
    EvenOrdinal(H, m, k + d - 1);
  }

  lemma Regroup(m: nat, a: nat, b: nat)
    ensures m * (a * b) == m * a * b
  {
  }

  /** The double rounding is innocuous: for every `v`, with at least two spare bits of significand. */
  lemma OddThenNearest(H: nat, h: nat, d: nat, v: nat)
    requires h >= 1 && H % 2 == 0 && 4 * h <= H && d >= 2
    ensures Round(h, Pow2(d), Grid(H, RoundOdd(H, v))) == Round(h, Pow2(d), v)
  {
    if Rep(H, v) {
      assert Grid(H, RoundOdd(H, v)) == v;
    } else {
      NonRepOddThenNearest(H, h, d, v);
    }
  }

  lemma NonRepOddThenNearest(H: nat, h: nat, d: nat, v: nat)
    requires h >= 1 && H % 2 == 0 && 4 * h <= H && d >= 2 && !Rep(H, v)
    ensures Round(h, Pow2(d), Grid(H, RoundOdd(H, v))) == Round(h, Pow2(d), v)
  {
    hide *;
    var w, s := Grid(H, RoundOdd(H, v)), Pow2(d);
    var n := ScaledFloor(h, s, v);
    NarrowPointIsEven(H, h, d, n);
    NarrowPointIsEven(H, h, d, n + 1);
    NarrowMidpointIsEven(H, h, d, n);
    OddStaysOnSide(H, v, Point(h, s, n));
    OddStaysOnSide(H, v, Point(h, s, n + 1));
    OddStaysOnSide(H, v, Midpoint(h, d, n));
    MidpointIsHalfway(h, d, n);
    SameSideSameRound(h, s, v, w);
  }

  lemma SameSideSameRound(h: nat, s: nat, v: nat, w: nat)
    requires h >= 1 && s >= 1
    requires var n := ScaledFloor(h, s, v);
             var lo, hi := Point(h, s, n), Point(h, s, n + 1);
             && lo <= w < hi && 2 * v != lo + hi && 2 * w != lo + hi
             && (2 * v < lo + hi <==> 2 * w < lo + hi)
    ensures Round(h, s, v) == Round(h, s, w)
  {
    hide ScaledFloor, Point;
    ScaledFloorUnique(h, s, w, ScaledFloor(h, s, v));
  }
}
