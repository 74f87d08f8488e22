/**
 The replacement `fmaf`: a binary32 fused multiply-add made of binary64 operations.

 A float is NaN or a sign and the ordinal of its magnitude; the ordinal one past the largest
 finite number is infinity, exactly as in the interchange encodings.  Values are integers in
 units of 2^-1074, the smallest binary64 subnormal.
 */
module Fmaf {
  import opened Powers
  import opened FloatGrid
  import opened TwoSum
  import opened RoundToOdd

  datatype Float = NaN | Num(neg: bool, ord: nat)

  const H32: nat := 0x80_0000
  const H64: nat := 0x10_0000_0000_0000
  const INF32: nat := 0x7F80_0000
  const INF64: nat := 0x7FF0_0000_0000_0000
  const SIGN64: nat := 0x8000_0000_0000_0000

  /** The smallest binary64 subnormal is 2^-UNIT64; the smallest binary32 one is 2^GAP times that. */
  const UNIT64: nat := 1074
  const GAP: nat := 925

  type Single = f: Float | f.Num? ==> f.ord <= INF32 witness NaN
  type Double = d: Float | d.Num? ==> d.ord <= INF64 witness NaN

  function Min(a: nat, b: nat): nat { if a <= b then a else b }

  function Signed(neg: bool, magnitude: int): int { if neg then -magnitude else magnitude }

  // ----- binary64 operations, each rounding once (IEEE 754-2019, section 5.4.1) -----

  /** `magnitude / s` rounded to binary64, overflowing to infinity. */
  function Encode64(neg: bool, magnitude: nat, s: nat): Double
    requires s >= 1
  {
    Num(neg, Min(Round(H64, s, magnitude), INF64))
  }

  function Encode32(neg: bool, magnitude: nat): Single {
    Num(neg, Min(Round(H32, Pow2(GAP), magnitude), INF32))
  }

  function Value(d: Double): int
    requires d.Num?
  {
    Signed(d.neg, Grid(H64, d.ord))
  }

  function Widen(f: Single): Double {
    if f.NaN? then NaN
    else if f.ord == INF32 then Num(f.neg, INF64)
    else Encode64(f.neg, Point(H32, Pow2(GAP), f.ord), 1)
  }

  function Narrow(d: Double): Single {
    if d.NaN? then NaN
    else if d.ord == INF64 then Num(d.neg, INF32)
    else Encode32(d.neg, Grid(H64, d.ord))
  }

  function Mul(x: Double, y: Double): Double {
    if x.NaN? || y.NaN? then NaN
    else if x.ord == INF64 || y.ord == INF64 then
      if x.ord == 0 || y.ord == 0 then NaN else Num(x.neg != y.neg, INF64)
    else Encode64(x.neg != y.neg, Grid(H64, x.ord) * Grid(H64, y.ord), Pow2(UNIT64))
  }

  function Add(x: Double, y: Double): Double {
    if x.NaN? || y.NaN? then NaN
    else if x.ord == INF64 then (if y.ord == INF64 && x.neg != y.neg then NaN else x)
    else if y.ord == INF64 then y
    else
      var v := Value(x) + Value(y);
      if v == 0 then Num(x.neg && y.neg, 0) else Encode64(v < 0, Abs(v), 1)
  }

  function Negate(x: Double): Double {
    if x.NaN? then NaN else Num(!x.neg, x.ord)
  }

  function Sub(x: Double, y: Double): Double { Add(x, Negate(y)) }

  predicate Positive(d: Double) { d.Num? && !d.neg && d.ord > 0 }
  predicate Negative(d: Double) { d.Num? && d.neg && d.ord > 0 }

  // ----- the code -----

  function ToBits(d: Double): (bits: nat)
    ensures bits < 2 * SIGN64
  {
    if d.NaN? then 0x7FF8_0000_0000_0000
    else if d.neg then SIGN64 + d.ord else d.ord
  }

  function FromBits(bits: nat): Double
    requires bits < 2 * SIGN64
  {
    var ord := if bits >= SIGN64 then bits - SIGN64 else bits;
    if ord > INF64 then NaN else Num(bits >= SIGN64, ord)
  }

  lemma BitsRoundTrip(d: Double)
    ensures FromBits(ToBits(d)) == d
  {
  }

  /** Move an even significand one bit pattern up or down; 64-bit arithmetic wraps. */
  function Nudge(sum: Double, grow: bool): Double {
    var bits := ToBits(sum);
    if bits % 2 != 0 then sum
    else FromBits((if grow then bits + 1 else bits + 2 * SIGN64 - 1) % (2 * SIGN64))
  }

  function TwoSumResidual(product: Double, c: Double): Double {
    var sum := Add(product, c);
    var shifted := Sub(sum, product);
    Add(Sub(product, Sub(sum, shifted)), Sub(c, shifted))
  }

  function Fmaf(x: Single, y: Single, z: Single): Single {
    var product, c := Mul(Widen(x), Widen(y)), Widen(z);
    var sum := Add(product, c);
    var residual := TwoSumResidual(product, c);
    if Positive(residual) then Narrow(Nudge(sum, Positive(sum)))
    else if Negative(residual) then Narrow(Nudge(sum, Negative(sum)))
    else Narrow(sum)
  }

  // ----- the specification -----

  /** `x * y + z` for finite operands, exactly, in units of 2^-1074. */
  function ExactFma(x: Single, y: Single, z: Single): int
    requires x.Num? && y.Num? && z.Num?
  {
    Signed(x.neg != y.neg, Grid(H32, x.ord) * Grid(H32, y.ord) * Pow2(2 * GAP - UNIT64))
    + Signed(z.neg, Point(H32, Pow2(GAP), z.ord))
  }

  /** fusedMultiplyAdd of IEEE 754-2019: one rounding of the exact result; NaNs are not told apart. */
  function FusedMultiplyAdd(x: Single, y: Single, z: Single): Single {
    if x.NaN? || y.NaN? || z.NaN? then NaN
    else if x.ord == INF32 || y.ord == INF32 then
      if x.ord == 0 || y.ord == 0 then NaN
      else if z.ord == INF32 && z.neg != (x.neg != y.neg) then NaN
      else Num(x.neg != y.neg, INF32)
    else if z.ord == INF32 then z
    else
      var v := ExactFma(x, y, z);
      if v == 0 then Num((x.neg != y.neg) && z.neg, 0) else Encode32(v < 0, Abs(v))
  }

  // ----- range -----

  const LIMIT: nat := 2046

  lemma LargestBinade()
    ensures Grid(H64, INF64) == H64 * Pow2(LIMIT)
  {
    hide Grid, Pow2;
    GridDecodesFields(H64, 2047, 0);
  }

  lemma RoundInRange(v: nat)
    requires v < Pow2(LIMIT)
    ensures Round(H64, 1, v) < INF64
    ensures Grid(H64, Round(H64, 1, v)) <= 2 * v
  {
    hide Round, Grid, Pow2;
    var r := Round(H64, 1, v);
    RoundBeats(H64, 1, v, 0);
    GridZero(H64);
    LargestBinade();
    if r >= INF64 {
      GridMonotone(H64, INF64, r);
    }
  }

  lemma RoundExact(h: nat, s: nat, n: nat)
    requires h >= 1 && s >= 1
    ensures Round(h, s, Point(h, s, n)) == n
  {
    hide Round, Point;
    var r := Round(h, s, Point(h, s, n));
    RoundBeats(h, s, Point(h, s, n), n);
    if r < n { PointMonotone(h, s, r, n); }
    if n < r { PointMonotone(h, s, n, r); }
  }

  /** `d` is the finite number with value `v`. */
  predicate Holds(d: Double, v: int) {
    d.Num? && d.ord < INF64 && Value(d) == v
  }

  lemma EncodeExact(neg: bool, u: nat, s: nat)
    requires s >= 1 && Rep(H64, u) && u < Pow2(LIMIT)
    ensures var d := Encode64(neg, u * s, s); d.neg == neg && Holds(d, Signed(neg, u))
  {
    var n := Floor(H64, u);
    assert Grid(H64, n) == u;
    hide Grid, Floor, Round, Pow2;
    assert Point(H64, s, n) == u * s;
    RoundExact(H64, s, n);
    LargestBinade();
    if n >= INF64 { GridMonotone(H64, INF64, n); }
  }

  // ----- the operands and the product are exact -----

  /** Bounds in exponents: a finite binary32 is below 2^SPAN smallest subnormals. */
  const SPAN: nat := 277

  lemma Pow2At23()
    ensures Pow2(23) == H32
  {
    assert Pow2(8) == 0x100 && Pow2(16) == 0x1_0000;
  }

  lemma SingleBound(n: nat)
    requires n < INF32
    ensures Grid(H32, n) < Pow2(SPAN)
  {
    hide Grid, Pow2;
    GridDecodesFields(H32, 255, 0);
    GridMonotone(H32, n, INF32);
    Pow2At23();
    Pow2Add(23, 254);
  }

  lemma ProductBelow(a: nat, b: nat, i: nat, j: nat)
    requires a < Pow2(i) && b <= Pow2(j)
    ensures a * b < Pow2(i + j)
  {
    hide Pow2;
    Pow2Add(i, j);
    ScaleMonotone(b, Pow2(j), a);
    ScaleMonotone(a + 1, Pow2(i), Pow2(j));
    Distribute(a, 1, Pow2(j));
  }

  lemma WidenHolds(f: Single)
    requires f.Num? && f.ord < INF32
    ensures var p := Point(H32, Pow2(GAP), f.ord);
            Holds(Widen(f), Signed(f.neg, p)) && Widen(f).neg == f.neg && p < Pow2(SPAN + GAP)
  {
    hide Grid, Pow2, Encode64, Holds, Rep;
    var p := Point(H32, Pow2(GAP), f.ord);
    SingleBound(f.ord);
    ProductBelow(Grid(H32, f.ord), Pow2(GAP), SPAN, GAP);
    NarrowPointIsEven(H64, H32, GAP, f.ord);
    Pow2Monotone(SPAN + GAP, LIMIT);
    EncodeExact(f.neg, p, 1);
  }

  /** The product of two binary32 significands fits binary64, at every exponent. */
  lemma ProductIsRep(m: nat, n: nat)
    ensures Rep(H64, Grid(H32, m) * Grid(H32, n) * Pow2(2 * GAP - UNIT64))
  {
    hide Grid, Pow2, Rep;
    GridIsRep(H32, m);
    GridIsRep(H32, n);
    var a, j := RepForm(H32, Grid(H32, m));
    var b, k := RepForm(H32, Grid(H32, n));
    ScaledProductIsRep(a, j, b, k, 2 * GAP - UNIT64);
  }

  lemma ScaledProductIsRep(a: nat, j: nat, b: nat, k: nat, e: nat)
    requires a < 2 * H32 && b < 2 * H32
    ensures Rep(H64, (a * Pow2(j)) * (b * Pow2(k)) * Pow2(e))
  {
    hide Pow2, Rep;
    Pow2Add(j, k);
    Pow2Add(j + k, e);
    Shuffle(a, Pow2(j), b, Pow2(k), Pow2(e));
    SignificandProduct(a, b);
    RepScale(H64, a * b, j + k + e);
  }

  lemma Shuffle(a: nat, p: nat, b: nat, q: nat, r: nat)
    ensures (a * p) * (b * q) * r == (a * b) * (p * q * r)
  {
    assert (a * p) * (b * q) == (a * b) * (p * q);
    assert (a * b) * (p * q) * r == (a * b) * (p * q * r);
  }

  lemma SignificandProduct(a: nat, b: nat)
    requires a < 2 * H32 && b < 2 * H32
    ensures a * b <= 2 * H64
  {
    ScaleMonotone(a, 2 * H32, b);
    ScaleMonotone(b, 2 * H32, 2 * H32);
  }

  lemma ProductHolds(x: Single, y: Single)
    requires x.Num? && x.ord < INF32 && y.Num? && y.ord < INF32
    ensures var p := Grid(H32, x.ord) * Grid(H32, y.ord) * Pow2(2 * GAP - UNIT64);
            var product := Mul(Widen(x), Widen(y));
            && Holds(product, Signed(x.neg != y.neg, p)) && product.neg == (x.neg != y.neg)
            && p < Pow2(2 * SPAN + 2 * GAP - UNIT64)
  {
    hide Grid, Pow2, Rep, Encode64, Widen;
    var m, n, e := Grid(H32, x.ord), Grid(H32, y.ord), 2 * GAP - UNIT64;
    var p := m * n * Pow2(e);
    WidenHolds(x);
    WidenHolds(y);
    SingleBound(x.ord);
    SingleBound(y.ord);
    ProductBelow(m, n, SPAN, SPAN);
    ProductBelow(m * n, Pow2(e), 2 * SPAN, e);
    Pow2Monotone(2 * SPAN + e, LIMIT);
    ProductIsRep(x.ord, y.ord);
    Pow2Add(GAP, GAP);
    Pow2Add(e, UNIT64);
    ProductScale(m, n, Pow2(GAP), Pow2(e), Pow2(UNIT64));
    EncodeExact(x.neg != y.neg, p, Pow2(UNIT64));
  }

  lemma ProductScale(m: nat, n: nat, g: nat, e: nat, u: nat)
    requires g * g == e * u
    ensures (m * g) * (n * g) == m * n * e * u
  {
    assert (m * g) * (n * g) == (m * n) * (g * g);
    assert (m * n) * (e * u) == m * n * e * u;
  }

  // ----- sums -----

  /** While nothing overflows, an addition rounds the exact sum once, and keeps its sign. */
  lemma AddHolds(x: Double, y: Double, u: int, v: int)
    requires Holds(x, u) && Holds(y, v) && Abs(u) + Abs(v) < Pow2(LIMIT)
    ensures Holds(Add(x, y), Rn(H64, u + v))
    ensures Abs(Rn(H64, u + v)) <= 2 * (Abs(u) + Abs(v))
    ensures u + v != 0 ==> Add(x, y) == Num(u + v < 0, Round(H64, 1, Abs(u + v)))
    ensures u + v == 0 ==> Add(x, y) == Num(x.neg && y.neg, 0)
  {
    hide Grid, Round, Pow2;
    RoundInRange(Abs(u + v));
    GridZero(H64);
  }

  lemma NegateHolds(x: Double, u: int)
    requires Holds(x, u)
    ensures Holds(Negate(x), -u)
  {
    hide Grid;
  }

  lemma SubHolds(x: Double, y: Double, u: int, v: int)
    requires Holds(x, u) && Holds(y, v) && Abs(u) + Abs(v) < Pow2(LIMIT)
    ensures Holds(Sub(x, y), Rn(H64, u - v))
    ensures Abs(Rn(H64, u - v)) <= 2 * (Abs(u) + Abs(v))
  {
    hide Holds, Pow2, Add, Rn;
    NegateHolds(y, v);
    AddHolds(x, Negate(y), u, -v);
  }

  /** Six rounded operations on held values, in the order of TwoSum. */
  lemma SixOperations(product: Double, c: Double, p: int, q: int, r: int)
    requires var sum, s := Add(product, c), Rn(H64, p + q);
             var shifted, t := Sub(sum, product), Rn(H64, s - p);
             && r == Rn(H64, Rn(H64, p - Rn(H64, s - t)) + Rn(H64, q - t))
             && Holds(Add(Sub(product, Sub(sum, shifted)), Sub(c, shifted)), r)
    ensures Holds(TwoSumResidual(product, c), r) && r == Residual(H64, p, q)
  {
    hide Holds, Rn, Add, Sub;
  }

  /** `d` is finite, its value is `v`, and that is at most `bound`. */
  predicate Within(d: Double, v: int, bound: nat) {
    Holds(d, v) && Abs(v) <= bound
  }

  lemma AddWithin(x: Double, y: Double, u: int, v: int, a: nat, b: nat)
    requires Within(x, u, a) && Within(y, v, b) && a + b < Pow2(LIMIT)
    ensures Within(Add(x, y), Rn(H64, u + v), 2 * (a + b))
  {
    hide Holds, Pow2, Add, Rn, Abs;
    AddHolds(x, y, u, v);
  }

  lemma SubWithin(x: Double, y: Double, u: int, v: int, a: nat, b: nat)
    requires Within(x, u, a) && Within(y, v, b) && a + b < Pow2(LIMIT)
    ensures Within(Sub(x, y), Rn(H64, u - v), 2 * (a + b))
  {
    hide Holds, Pow2, Sub, Rn, Abs;
    SubHolds(x, y, u, v);
  }

  /** The six operations never leave the finite range, so the residual is TwoSum's. */
  lemma ResidualHolds(product: Double, c: Double, p: int, q: int, bound: nat)
    requires Holds(product, p) && Holds(c, q) && Abs(p) <= bound && Abs(q) <= bound
    requires 256 * bound < Pow2(LIMIT)
    ensures Holds(TwoSumResidual(product, c), Residual(H64, p, q))
  {
    hide Holds, Rn, Pow2, Add, Sub, TwoSumResidual, Residual, Abs;
    assert Within(product, p, bound) && Within(c, q, bound);
    var sum, s := Add(product, c), Rn(H64, p + q);
    var shifted, t := Sub(sum, product), Rn(H64, s - p);
    hide Within;
    FirstThree(product, c, p, q, bound);
    LastThree(product, c, Sub(sum, shifted), shifted, p, q, Rn(H64, s - t), t, bound);
    SixOperations(product, c, p, q, Rn(H64, Rn(H64, p - Rn(H64, s - t)) + Rn(H64, q - t)));
  }

  lemma FirstThree(product: Double, c: Double, p: int, q: int, bound: nat)
    requires Within(product, p, bound) && Within(c, q, bound) && 256 * bound < Pow2(LIMIT)
    ensures var sum, s := Add(product, c), Rn(H64, p + q);
            var shifted, t := Sub(sum, product), Rn(H64, s - p);
            Within(shifted, t, 10 * bound) && Within(Sub(sum, shifted), Rn(H64, s - t), 28 * bound)
  {
    hide Within, Rn, Pow2, Add, Sub;
    AddWithin(product, c, p, q, bound, bound);
    var sum, s := Add(product, c), Rn(H64, p + q);
    SubWithin(sum, product, s, p, 4 * bound, bound);
    SubWithin(sum, Sub(sum, product), s, Rn(H64, s - p), 4 * bound, 10 * bound);
  }

  lemma LastThree(product: Double, c: Double, unshifted: Double, shifted: Double, p: int, q: int, u: int, t: int,
                  bound: nat)
    requires Within(product, p, bound) && Within(c, q, bound) && 256 * bound < Pow2(LIMIT)
    requires Within(unshifted, u, 28 * bound) && Within(shifted, t, 10 * bound)
    ensures Holds(Add(Sub(product, unshifted), Sub(c, shifted)), Rn(H64, Rn(H64, p - u) + Rn(H64, q - t)))
  {
    hide Within, Rn, Pow2, Add, Sub, Holds;
    SubWithin(product, unshifted, p, u, bound, 28 * bound);
    SubWithin(c, shifted, q, t, bound, 10 * bound);
    var left, right := Sub(product, unshifted), Sub(c, shifted);
    AddWithin(left, right, Rn(H64, p - u), Rn(H64, q - t), 58 * bound, 22 * bound);
    WithinHolds(Add(left, right), Rn(H64, Rn(H64, p - u) + Rn(H64, q - t)), 160 * bound);
  }

  lemma WithinHolds(d: Double, v: int, bound: nat)
    requires Within(d, v, bound)
    ensures Holds(d, v)
  {
  }

  // ----- the nudge is a rounding to odd -----

  lemma OddInRange(m: nat)
    requires m < Pow2(LIMIT)
    ensures RoundOdd(H64, m) < INF64
  {
    hide Grid, Pow2, Floor;
    GridDecodesFields(H64, 2046, 0);
    ScaleMonotone(2, H64, Pow2(LIMIT - 1));
    Pow2Twice(1, LIMIT);
    var n := Floor(H64, m);
    if n >= 2046 * H64 { GridMonotone(H64, 2046 * H64, n); }
  }

  lemma NudgeIsRoundOdd(neg: bool, m: nat, grow: bool)
    requires !Rep(H64, m) && Round(H64, 1, m) < INF64
    requires grow <==> Grid(H64, Round(H64, 1, m)) < m
    ensures Nudge(Num(neg, Round(H64, 1, m)), grow) == Num(neg, RoundOdd(H64, m))
  {
    var n, r := Floor(H64, m), Round(H64, 1, m);
    RoundAtOne(H64, m);
    hide Grid, Floor, Round;
    assert r == n || r == n + 1;
    assert grow <==> r == n;
    NudgedBits(neg, r, grow);
  }

  lemma NudgedBits(neg: bool, r: nat, grow: bool)
    requires r < INF64 && (r == 0 ==> grow)
    ensures Nudge(Num(neg, r), grow) ==
            Num(neg, if r % 2 == 1 then r else if grow then r + 1 else r - 1)
  {
    var sum := Num(neg, r);
    var bits := ToBits(sum);
    var next := if grow then r + 1 else r - 1;
    assert bits % 2 == r % 2;
    if r % 2 == 0 {
      WrapBits(bits, grow);
      BitsRoundTrip(Num(neg, next));
      assert ToBits(Num(neg, next)) == if grow then bits + 1 else bits - 1;
    }
  }

  /** One up or down does not wrap here. */
  lemma WrapBits(bits: nat, grow: bool)
    requires bits + 1 < 2 * SIGN64 && (bits == 0 ==> grow)
    ensures (if grow then bits + 1 else bits + 2 * SIGN64 - 1) % (2 * SIGN64) == if grow then bits + 1 else bits - 1
  {
    if !grow { assert bits + 2 * SIGN64 - 1 == bits - 1 + 2 * SIGN64; }
  }

  lemma SignOfHeld(d: Double, v: int)
    requires Holds(d, v)
    ensures Positive(d) <==> v > 0
    ensures Negative(d) <==> v < 0
    ensures Rep(H64, v)
  {
    hide Grid, Rep;
    GridZero(H64);
    GridMonotone(H64, 0, d.ord);
    GridIsRep(H64, d.ord);
    RepNegate(H64, Grid(H64, d.ord));
  }

  /** A sum that lost something is not zero, and neither is the exact value. */
  lemma InexactSum(v: int)
    requires Rn(H64, v) != v
    ensures !Rep(H64, Abs(v)) && v != 0 && Rn(H64, v) != 0
  {
    hide Rep, Rn;
    ZeroIsRep(H64);
    if Rep(H64, Abs(v)) {
      RepNegate(H64, Abs(v));
      RnExact(H64, v);
    }
    SmallIsRep(H64, 1);
    SmallIsRep(H64, -1);
    RnNearest(H64, v, if v > 0 then 1 else -1);
  }

  /** What the last two steps of `Fmaf` return, given the exact value `v` of `product + c`. */
  lemma NudgeThenNarrow(v: int, grow: bool)
    requires Abs(v) < Pow2(LIMIT) && Rn(H64, v) != v
    requires grow <==> Abs(Rn(H64, v)) < Abs(v)
    ensures Round(H64, 1, Abs(v)) < INF64
    ensures Narrow(Nudge(Num(v < 0, Round(H64, 1, Abs(v))), grow)) == Encode32(v < 0, Abs(v))
  {
    var m := Abs(v);
    InexactSum(v);
    RoundInRange(m);
    OddInRange(m);
    assert Abs(Rn(H64, v)) == Grid(H64, Round(H64, 1, m));
    hide Grid, Round, RoundOdd, Rep, Rn, Nudge, Pow2;
    NudgeIsRoundOdd(v < 0, m, grow);
    OddThenNearest(H64, H32, GAP, m);
  }

  // ----- the theorem -----

  lemma FiniteOperands(x: Single, y: Single, z: Single)
    requires x.Num? && x.ord < INF32 && y.Num? && y.ord < INF32 && z.Num? && z.ord < INF32
    ensures Fmaf(x, y, z) == FusedMultiplyAdd(x, y, z)
  {
    hide Grid, Pow2, Holds, Widen, Mul, Add, TwoSumResidual, Residual, Rn, Rep, Round, Nudge, Narrow, Encode32;
    var product, c := Mul(Widen(x), Widen(y)), Widen(z);
    ProductHolds(x, y);
    WidenHolds(z);
    var p := Signed(x.neg != y.neg, Grid(H32, x.ord) * Grid(H32, y.ord) * Pow2(2 * GAP - UNIT64));
    var q := Signed(z.neg, Point(H32, Pow2(GAP), z.ord));
    var bound := Pow2(2 * SPAN + 2 * GAP - UNIT64);
    Pow2Monotone(SPAN + GAP, 2 * SPAN + 2 * GAP - UNIT64);
    BoundFits();
    HeldOperands(product, c, p, q, bound);
  }

  lemma BoundFits()
    ensures 256 * Pow2(2 * SPAN + 2 * GAP - UNIT64) < Pow2(LIMIT)
  {
    hide Pow2;
    Pow2At8();
    Pow2Add(8, 2 * SPAN + 2 * GAP - UNIT64);
    Pow2Monotone(2 * SPAN + 2 * GAP - UNIT64 + 8, LIMIT);
  }

  lemma Pow2At8()
    ensures Pow2(8) == 256
  {
  }

  /** The steps after the product, for any finite binary64 operands that stay in range. */
  lemma HeldOperands(product: Double, c: Double, p: int, q: int, bound: nat)
    requires Holds(product, p) && Holds(c, q) && Abs(p) <= bound && Abs(q) <= bound
    requires 256 * bound < Pow2(LIMIT)
    ensures var sum, residual := Add(product, c), TwoSumResidual(product, c);
            (if Positive(residual) then Narrow(Nudge(sum, Positive(sum)))
             else if Negative(residual) then Narrow(Nudge(sum, Negative(sum)))
             else Narrow(sum)) ==
            if p + q == 0 then Num(product.neg && c.neg, 0) else Encode32(p + q < 0, Abs(p + q))
  {
    hide Grid, Pow2, Holds, Add, TwoSumResidual, Residual, Rn, Rep, Round, Nudge, Narrow, Encode32, Positive, Negative;
    var v, s := p + q, Rn(H64, p + q);
    AddHolds(product, c, p, q);
    ResidualHolds(product, c, p, q, bound);
    SignOfHeld(product, p);
    SignOfHeld(c, q);
    ResidualIsExact(H64, p, q);
    SignOfHeld(TwoSumResidual(product, c), v - s);
    SignOfHeld(Add(product, c), s);
    if s == v {
      NarrowExact(Add(product, c), v);
    } else {
      InexactSum(v);
      RnKeepsSign(v);
      NudgeThenNarrow(v, Abs(s) < Abs(v));
    }
  }

  lemma RnKeepsSign(v: int)
    ensures v >= 0 ==> Rn(H64, v) >= 0
    ensures v <= 0 ==> Rn(H64, v) <= 0
  {
    hide Rn, Rep;
    ZeroIsRep(H64);
    RnNearest(H64, v, 0);
  }

  lemma NarrowExact(sum: Double, v: int)
    requires Holds(sum, v)
    ensures Narrow(sum) == if v == 0 then Num(sum.neg, 0) else Encode32(v < 0, Abs(v))
  {
    hide Grid, Round, Pow2;
    GridZero(H64);
    GridMonotone(H64, 0, sum.ord);
    GridZero32();
  }

  lemma GridZero32()
    ensures Round(H32, Pow2(GAP), 0) == 0
  {
    hide Round, Pow2;
    RoundExact(H32, Pow2(GAP), 0);
    assert Point(H32, Pow2(GAP), 0) == 0;
  }

  lemma WidenClass(f: Single)
    ensures Widen(f).NaN? <==> f.NaN?
    ensures f.Num? ==> Widen(f).neg == f.neg
    ensures f.Num? ==> (Widen(f).ord == INF64 <==> f.ord == INF32)
    ensures f.Num? ==> (Widen(f).ord == 0 <==> f.ord == 0)
  {
    if f.Num? && f.ord < INF32 {
      hide Grid, Pow2, Widen, Point;
      WidenHolds(f);
      GridZero(H64);
      PointZero();
      GridMonotone(H64, 0, Widen(f).ord);
      PointMonotone(H32, Pow2(GAP), 0, f.ord);
    }
  }

  lemma PointZero()
    ensures Point(H32, Pow2(GAP), 0) == 0
  {
    hide Pow2;
  }

  /** NaNs and infinities: the residual is then a NaN, and the sum is already the answer. */
  lemma SpecialOperands(x: Single, y: Single, z: Single)
    requires x.NaN? || y.NaN? || z.NaN? || x.ord == INF32 || y.ord == INF32 || z.ord == INF32
    ensures Fmaf(x, y, z) == FusedMultiplyAdd(x, y, z)
  {
    hide Widen, Grid, Pow2, Encode64, Encode32;
    WidenClass(x);
    WidenClass(y);
    WidenClass(z);
    if x.Num? && y.Num? && x.ord < INF32 && y.ord < INF32 {
      ProductHolds(x, y);
    }
  }

  /** For every three binary32 values, special ones included, `fmaf` rounds exactly once. */
  lemma FmafIsFusedMultiplyAdd(x: Single, y: Single, z: Single)
    ensures Fmaf(x, y, z) == FusedMultiplyAdd(x, y, z)
  {
    if x.Num? && y.Num? && z.Num? && x.ord < INF32 && y.ord < INF32 && z.ord < INF32 {
      FiniteOperands(x, y, z);
    } else {
      SpecialOperands(x, y, z);
    }
  }

  /**
   The same, without naming a rounding function: unless the exact value is zero, the result has its sign and
   the one ordinal that is nearest to it with ties to even, infinity above the largest.
   */
  lemma FmafIsNearestEven(x: Single, y: Single, z: Single, k: nat)
    requires x.Num? && x.ord < INF32 && y.Num? && y.ord < INF32 && z.Num? && z.ord < INF32
    ensures var v := ExactFma(x, y, z);
            v != 0 && IsNearestEven(H32, Pow2(GAP), Abs(v), k) ==> Fmaf(x, y, z) == Num(v < 0, Min(k, INF32))
    ensures exists r: nat :: IsNearestEven(H32, Pow2(GAP), Abs(ExactFma(x, y, z)), r)
  {
    hide Fmaf, ExactFma, IsNearestEven, Round, Pow2, Abs;
    var m := Abs(ExactFma(x, y, z));
    FmafIsFusedMultiplyAdd(x, y, z);
    RoundIsNearestEven(H32, Pow2(GAP), m);
    if IsNearestEven(H32, Pow2(GAP), m, k) {
      NearestEvenIsUnique(H32, Pow2(GAP), m, k, Round(H32, Pow2(GAP), m));
    }
  }

  // ----- the scale of the encodings, in literal bit patterns -----

  /** 1.0 in both formats. */
  const ONE32: Single := Num(false, 0x3F80_0000)
  const ONE64: Double := Num(false, 0x3FF0_0000_0000_0000)

  /** Minus zero, what adding leaves everything as it is. */
  const MINUS_ZERO: Single := Num(true, 0)

  lemma Pow2At52()
    ensures Pow2(52) == H64
  {
    Pow2At23();
    Pow2Add(23, 23);
    assert Pow2(6) == 64;
    Pow2Add(46, 6);
  }

  /** The number one, from its exponent field: 2^1074 smallest subnormals of binary64, 2^149 of binary32. */
  lemma OneIsAnchored()
    ensures Grid(H64, 0x3FF0_0000_0000_0000) == Pow2(1074)
    ensures Grid(H32, 0x3F80_0000) == Pow2(149)
    ensures Point(H32, Pow2(GAP), 0x3F80_0000) == Pow2(1074)
  {
    hide Grid, Pow2;
    GridDecodesFields(H64, 1023, 0);
    Pow2At52();
    Pow2Add(52, 1022);
    GridDecodesFields(H32, 127, 0);
    Pow2At23();
    Pow2Add(23, 126);
    Pow2Add(149, 925);
  }

  /** Widening takes 1.0 to 1.0. */
  lemma OneWidens()
    ensures Widen(ONE32) == ONE64
  {
    hide Grid, Pow2, Round;
    OneIsAnchored();
    RoundExact(H64, 1, 0x3FF0_0000_0000_0000);
    assert Point(H64, 1, 0x3FF0_0000_0000_0000) == Pow2(1074);
  }

  /** 1.0 times any finite double is that double. */
  lemma OneIsUnitOfMul(d: Double)
    requires d.Num? && d.ord < INF64
    ensures Mul(ONE64, d) == d && Mul(d, ONE64) == d
  {
    hide Grid, Pow2, Round;
    OneIsAnchored();
    RoundExact(H64, Pow2(1074), d.ord);
  }

  /** The exact value, in units of which 1.0 has `Value(ONE64)`, is that of the widened operands. */
  lemma ExactFmaInOnes(x: Single, y: Single, z: Single)
    requires x.Num? && x.ord < INF32 && y.Num? && y.ord < INF32 && z.Num? && z.ord < INF32
    ensures Widen(x).Num? && Widen(y).Num? && Widen(z).Num?
    ensures ExactFma(x, y, z) * Value(ONE64) ==
            Value(Widen(x)) * Value(Widen(y)) + Value(Widen(z)) * Value(ONE64)
  {
    hide Grid, Pow2, Widen, Encode64;
    WidenHolds(x);
    WidenHolds(y);
    WidenHolds(z);
    OneIsAnchored();
    var m, n, g, e, u := Grid(H32, x.ord), Grid(H32, y.ord), Pow2(925), Pow2(776), Pow2(1074);
    Pow2Add(925, 925);
    Pow2Add(776, 1074);
    ProductScale(m, n, g, e, u);
    SignedProduct(x.neg, y.neg, m * g, n * g);
    Distribute(Signed(x.neg != y.neg, m * n * e), Signed(z.neg, Point(H32, g, z.ord)), u);
    SignedScale(x.neg != y.neg, m * n * e, u);
  }

  lemma SignedProduct(s: bool, t: bool, a: nat, b: nat)
    ensures Signed(s, a) * Signed(t, b) == Signed(s != t, a * b)
  {
  }

  lemma SignedScale(s: bool, a: nat, b: nat)
    ensures Signed(s, a) * b == Signed(s, a * b)
  {
  }

  lemma PositiveGrid(n: nat)
    ensures Grid(H32, n) == 0 <==> n == 0
  {
    hide Grid;
    GridZero(H32);
    GridMonotone(H32, 0, n);
  }

  lemma ProductOfOne(y: Single)
    requires y.Num? && y.ord < INF32
    ensures var p := Point(H32, Pow2(925), y.ord);
            && Grid(H32, 0x3F80_0000) * Grid(H32, y.ord) * Pow2(2 * GAP - UNIT64) == p
            && Grid(H32, y.ord) * Grid(H32, 0x3F80_0000) * Pow2(2 * GAP - UNIT64) == p
            && (p == 0 <==> y.ord == 0) && Encode32(y.neg, p) == y
  {
    hide Grid, Pow2, Round;
    OneIsAnchored();
    Pow2Add(149, 776);
    var g := Grid(H32, y.ord);
    assert Pow2(149) * g * Pow2(776) == g * (Pow2(149) * Pow2(776));
    assert g * Pow2(149) * Pow2(776) == g * (Pow2(149) * Pow2(776));
    PositiveGrid(y.ord);
    if g > 0 { ScaleMonotone(1, g, Pow2(925)); }
    RoundExact(H32, Pow2(925), y.ord);
  }

  /** `1.0 * y + -0.0` and `y * 1.0 + -0.0` are `y`, for every `y` there is. */
  lemma OneIsUnitOfFmaf(y: Single)
    ensures Fmaf(Num(false, 0x3F80_0000), y, Num(true, 0)) == y
    ensures Fmaf(y, Num(false, 0x3F80_0000), Num(true, 0)) == y
  {
    hide Grid, Pow2, Fmaf, Encode32;
    FmafIsFusedMultiplyAdd(ONE32, y, MINUS_ZERO);
    FmafIsFusedMultiplyAdd(y, ONE32, MINUS_ZERO);
    if y.Num? && y.ord < INF32 {
      ProductOfOne(y);
      ZeroPoint();
    }
  }

  lemma ZeroPoint()
    ensures Point(H32, Pow2(GAP), 0) == 0 && Grid(H32, 0) == 0
  {
    hide Pow2;
  }

  /** `1.0 * 0.0 + z` is `z`, for every `z` but minus zero. */
  lemma FmafAddsExactly(z: Single)
    requires z != Num(true, 0)
    ensures Fmaf(Num(false, 0x3F80_0000), Num(false, 0), z) == z
  {
    hide Grid, Pow2, Fmaf, Encode32;
    FmafIsFusedMultiplyAdd(ONE32, Num(false, 0), z);
    if z.Num? && z.ord < INF32 {
      ProductOfOne(z);
      ProductOfOne(Num(false, 0));
      ZeroPoint();
    }
  }

  /** Doubling moves the exponent field up by one, over the whole normal range, and overflows to infinity at its end. */
  lemma DoublingMovesExponent(y: Single)
    requires y.Num? && 0x80_0000 <= y.ord < 0x7F80_0000
    ensures Fmaf(Num(false, 0x4000_0000), y, Num(true, 0)) == Num(y.neg, Min(y.ord + 0x80_0000, 0x7F80_0000))
  {
    hide Grid, Pow2, Fmaf, Round;
    var two := Num(false, 0x4000_0000);
    FmafIsFusedMultiplyAdd(two, y, MINUS_ZERO);
    ZeroPoint();
    GridDecodesFields(H32, 128, 0);
    Pow2At23();
    Pow2Add(23, 127);
    Pow2Add(150, 776);
    var g := Grid(H32, y.ord);
    assert Pow2(150) * g * Pow2(776) == g * (Pow2(150) * Pow2(776));
    Pow2Twice(g, 926);
    GridShift(H32, y.ord);
    assert 2 * (g * Pow2(925)) == 2 * g * Pow2(925);
    PositiveGrid(y.ord);
    ScaleMonotone(1, g, Pow2(926));
    RoundExact(H32, Pow2(925), y.ord + 0x80_0000);
  }

  lemma OneUlpApart()
    ensures Grid(H32, 0x3F80_0001) == Pow2(149) + Pow2(126) && Grid(H32, 0x3F80_0002) == Pow2(149) + 2 * Pow2(126)
    ensures Grid(H32, 0x3380_0000) == Pow2(125)
  {
    hide Grid, Pow2;
    Pow2At23();
    Pow2Add(23, 126);
    Pow2Add(23, 102);
    GridDecodesFields(H32, 127, 1);
    GridDecodesFields(H32, 127, 2);
    GridDecodesFields(H32, 103, 0);
    Distribute(H32, 1, Pow2(126));
    Distribute(H32, 2, Pow2(126));
  }

  /** 2^-24 is half a unit in the last place of 1.0. */
  lemma HalfUlp()
    ensures var p := Pow2(925);
            && Point(H32, p, 0x3F80_0001) == Point(H32, p, 0x3F80_0000) + 2 * Point(H32, p, 0x3380_0000)
            && Point(H32, p, 0x3F80_0002) == Point(H32, p, 0x3F80_0001) + 2 * Point(H32, p, 0x3380_0000)
  {
    hide Grid, Pow2;
    OneIsAnchored();
    OneUlpApart();
    Pow2Twice(1, 126);
    HalfUlpScaled(Pow2(149), Pow2(125), Pow2(925));
  }

  lemma HalfUlpScaled(one: nat, half: nat, p: nat)
    ensures (one + 2 * half) * p == one * p + 2 * (half * p)
    ensures (one + 2 * (2 * half)) * p == (one + 2 * half) * p + 2 * (half * p)
  {
  }

  lemma ExactOfOne(y: Single, z: Single)
    requires y.Num? && y.ord < INF32 && !y.neg && z.Num? && z.ord < INF32 && !z.neg
    ensures ExactFma(Num(false, 0x3F80_0000), y, z) == Point(H32, Pow2(925), y.ord) + Point(H32, Pow2(925), z.ord)
  {
    hide Grid, Pow2, Encode32;
    ProductOfOne(y);
  }

  /** A tie goes to the even pattern: 1.0 and half a unit of its last place stays 1.0, the next number goes up. */
  lemma TiesGoToEven()
    ensures Fmaf(Num(false, 0x3F80_0000), Num(false, 0x3F80_0000), Num(false, 0x3380_0000)) == Num(false, 0x3F80_0000)
    ensures Fmaf(Num(false, 0x3F80_0000), Num(false, 0x3F80_0001), Num(false, 0x3380_0000)) == Num(false, 0x3F80_0002)
  {
    HalfUlp();
    TieOnOne(0x3F80_0000);
    TieOnOne(0x3F80_0001);
  }

  lemma TieOnOne(n: nat)
    requires 0 < n < 0x7F00_0000
    requires Point(H32, Pow2(925), n + 1) == Point(H32, Pow2(925), n) + 2 * Point(H32, Pow2(925), 0x3380_0000)
    ensures Fmaf(Num(false, 0x3F80_0000), Num(false, n), Num(false, 0x3380_0000)) ==
            Num(false, if n % 2 == 0 then n else n + 1)
  {
    hide Grid, Pow2, Fmaf, Round, Point, ExactFma;
    ExactOfOne(Num(false, n), Num(false, 0x3380_0000));
    FmafIsFusedMultiplyAdd(ONE32, Num(false, n), Num(false, 0x3380_0000));
    PointMonotone(H32, Pow2(925), 0, n);
    PointZero();
    TieRounds(Point(H32, Pow2(925), n) + Point(H32, Pow2(925), 0x3380_0000), n);
  }

  lemma TieRounds(v: nat, n: nat)
    requires 2 * v == Point(H32, Pow2(GAP), n) + Point(H32, Pow2(GAP), n + 1)
    ensures Round(H32, Pow2(GAP), v) == if n % 2 == 0 then n else n + 1
  {
    hide Point, Pow2, ScaledFloor;
    PointMonotone(H32, Pow2(GAP), n, n + 1);
    ScaledFloorUnique(H32, Pow2(GAP), v, n);
  }

  /** `1.0 * y - y` is plus zero. */
  lemma CancellationIsPlusZero(y: Single)
    requires y.Num? && 0 < y.ord < 0x7F80_0000
    ensures Fmaf(Num(false, 0x3F80_0000), y, Num(!y.neg, y.ord)) == Num(false, 0)
  {
    hide Grid, Pow2, Fmaf, Encode32;
    FmafIsFusedMultiplyAdd(ONE32, y, Num(!y.neg, y.ord));
    ProductOfOne(y);
  }

  /** The invalid operations give NaN, and every other infinite operand an infinity. */
  lemma SpecialsInBits(x: Single, y: Single, z: Single, s: bool)
    ensures Fmaf(NaN, y, z) == NaN && Fmaf(x, NaN, z) == NaN && Fmaf(x, y, NaN) == NaN
    ensures Fmaf(Num(s, 0x7F80_0000), Num(false, 0), z) == NaN && Fmaf(Num(true, 0), Num(s, 0x7F80_0000), z) == NaN
    ensures y.Num? && y.ord > 0 ==>
              var inf: Single := Num(s, 0x7F80_0000);
              && Fmaf(inf, y, Num(s == y.neg, 0x7F80_0000)) == NaN
              && (z.Num? && z.ord < 0x7F80_0000 ==>
                    Fmaf(inf, y, z) == Fmaf(y, inf, z) == Num(s != y.neg, 0x7F80_0000))
    ensures x.Num? && x.ord < 0x7F80_0000 && y.Num? && y.ord < 0x7F80_0000 ==>
              Fmaf(x, y, Num(s, 0x7F80_0000)) == Num(s, 0x7F80_0000)
  {
    hide Fmaf, ExactFma, Encode32;
    var inf: Single := Num(s, 0x7F80_0000);
    FmafIsFusedMultiplyAdd(NaN, y, z);
    FmafIsFusedMultiplyAdd(x, NaN, z);
    FmafIsFusedMultiplyAdd(x, y, NaN);
    FmafIsFusedMultiplyAdd(inf, Num(false, 0), z);
    FmafIsFusedMultiplyAdd(Num(true, 0), inf, z);
    FmafIsFusedMultiplyAdd(x, y, inf);
    if y.Num? {
      FmafIsFusedMultiplyAdd(inf, y, z);
      FmafIsFusedMultiplyAdd(y, inf, z);
      FmafIsFusedMultiplyAdd(inf, y, Num(s == y.neg, 0x7F80_0000));
    }
  }
}
