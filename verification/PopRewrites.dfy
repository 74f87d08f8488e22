/**
 The canonicalisation patterns of `div`, `cast`, `offset`, `select` and `simd.select`, and what
 holds of every run of them: values are preserved and the run ends.
 */
module PopRewrites {
  import opened Options
  import opened Powers
  import opened Modular
  import opened PopExpr

  // ----- x / 2^n -> x >> n -----

  function Log2(x: nat): (n: nat)
    requires IsPow2(x)
    ensures Pow2(n) == x
  {
    if x == 1 then 0 else 1 + Log2(x / 2)
  }

  /** Positive when read as signed, and a power of two. */
  predicate PositivePow2(width: nat, x: nat) { 2 * x < Pow2(width) && IsPow2(x) }

  predicate AllPositivePow2(width: nat, lanes: seq<nat>) {
    forall i :: 0 <= i < |lanes| ==> PositivePow2(width, lanes[i])
  }

  function Logs(width: nat, lanes: seq<nat>): (r: seq<nat>)
    requires AllPositivePow2(width, lanes)
    ensures |r| == |lanes|
  {
    seq(|lanes|, i requires 0 <= i < |lanes| => Log2(lanes[i]))
  }

  function DivToShr(e: Expr): Option<Expr>
    requires e.op.Div? && |e.kids| == 2
  {
    var ty, rhs := TypeOf(e), e.kids[1];
    if ty.Ints? && !ty.isSigned && rhs.op.IntConst? && AllPositivePow2(ty.width, rhs.op.lanes)
    then Some(Node(Shr, [e.kids[0], Node(IntConst(Logs(ty.width, rhs.op.lanes), ty), [])]))
    else None
  }

  // ----- cast(cast(x : T1 to T2) : T3) -> cast(x : T1 to T3) -----

  /** The pattern does not bail out. */
  predicate CastChainApplies(inTy: Ty, midTy: Ty, outTy: Ty)
    requires inTy.Ints? && midTy.Ints? && outTy.Ints?
  {
    if outTy.width < midTy.width then
      !(outTy.width > inTy.width)
    else if outTy.width > midTy.width then
      midTy.isSigned == outTy.isSigned && !(midTy.width <= inTy.width || (inTy.isSigned && !midTy.isSigned))
    else
      !(midTy.width < inTy.width) && midTy.isSigned == outTy.isSigned
  }

  function CastChain(e: Expr): Option<Expr>
    requires e.op.Cast? && |e.kids| == 1
  {
    var cast := e.kids[0];
    if !cast.op.Cast? || |cast.kids| != 1 then None
    else
      var inTy, midTy, outTy := TypeOf(cast.kids[0]), cast.op.ty, e.op.ty;
      if inTy.Ints? && midTy.Ints? && outTy.Ints? && CastChainApplies(inTy, midTy, outTy)
      then Some(Node(Cast(outTy), [cast.kids[0]])) else None
  }

  // ----- offset of array.gep, and offset of offset -----

  function OffsetPatterns(e: Expr): Option<Expr>
    requires e.op.Offset? && |e.kids| == 2
  {
    var ptr, index := e.kids[0], e.kids[1];
    if ptr.op.ArrayGep? && |ptr.kids| == 2 then
      if ptr.kids[1].op == IndexConst(0) then Some(Node(ArrayGep, [ptr.kids[0], index])) else None
    else if index.op.IndexConst? && ptr.op.Offset? && |ptr.kids| == 2 && ptr.kids[1].op.IndexConst? then
      var sum := ptr.kids[1].op.index + index.op.index;
      if INDEX_MIN <= sum <= INDEX_MAX then Some(Node(Offset, [ptr.kids[0], Node(IndexConst(sum), [])])) else None
    else None
  }

  // ----- select x, (select x, a, b), c -> select x, a, c, and the mirror image -----

  function SelectOfSelect(e: Expr): Option<Expr>
    requires e.op.Select? && |e.kids| == 3
  {
    if e.kids[1].op.Select? && |e.kids[1].kids| == 3 then
      if e.kids[1].kids[0] == e.kids[0] then Some(Node(Select, e.kids[1 := e.kids[1].kids[1]])) else None
    else if e.kids[2].op.Select? && |e.kids[2].kids| == 3 then
      if e.kids[2].kids[0] == e.kids[0] then Some(Node(Select, e.kids[2 := e.kids[2].kids[2]])) else None
    else None
  }

  // ----- simd.select x, false, true -> x ^ true -----

  function SelectToXOr(e: Expr): Option<Expr>
    requires e.op.SimdSelect? && |e.kids| == 3
  {
    var cond, t, f := e.kids[0], e.kids[1].op, e.kids[2].op;
    if TypeOf(e).Bools? && TypeOf(cond) == TypeOf(e) && t.BoolConst? && f.BoolConst?
       && (forall b <- t.flags :: !b) && (forall b <- f.flags :: b)
    then Some(Node(XOr, [cond, e.kids[2]])) else None
  }

  /** The one pattern an operation has, if any. */
  function RootRewrite(e: Expr): Option<Expr> {
    match e.op
    case Div => if |e.kids| == 2 then DivToShr(e) else None
    case Cast(_) => if |e.kids| == 1 then CastChain(e) else None
    case Offset => if |e.kids| == 2 then OffsetPatterns(e) else None
    case Select => if |e.kids| == 3 then SelectOfSelect(e) else None
    case SimdSelect => if |e.kids| == 3 then SelectToXOr(e) else None
    case _ => None
  }

  // ----- steps and runs -----

  /** One pattern applied somewhere in the expression. */
  predicate Step(e: Expr, e': Expr)
    decreases e
  {
    || RootRewrite(e) == Some(e')
    || (&& e'.op == e.op && |e'.kids| == |e.kids|
        && exists i :: 0 <= i < |e.kids| && e'.kids == e.kids[i := e'.kids[i]] && Step(e.kids[i], e'.kids[i]))
  }

  /** Nodes, divisions counted twice. */
  function Measure(e: Expr): (m: nat)
    ensures m >= 1
    decreases e, 1
  {
    (if e.op.Div? then 2 else 1) + MeasureAll(e.kids)
  }

  function MeasureAll(es: seq<Expr>): nat
    decreases es, 0
  {
    if es == [] then 0 else Measure(es[0]) + MeasureAll(es[1..])
  }

  lemma {:induction false} MeasureAllAt(es: seq<Expr>, i: nat, e': Expr)
    requires i < |es|
    ensures MeasureAll(es[i := e']) == MeasureAll(es) - Measure(es[i]) + Measure(e')
    ensures Measure(es[i]) <= MeasureAll(es)
    decreases |es|
  {
    if i == 0 {
      assert es[i := e'][1..] == es[1..];
    } else {
      assert es[i := e'][1..] == es[1..][i - 1 := e'];
      MeasureAllAt(es[1..], i - 1, e');
    }
  }

  // ----- the integer facts behind the patterns -----

  /** Numbers that agree modulo a large power of two agree modulo a smaller one. */
  lemma ModOfMod(v: int, small: nat, large: nat)
    requires small <= large
    ensures Wrap(small, Wrap(large, v)) == Wrap(small, v)
  {
    hide Pow2;
    Pow2Add(small, large - small);
    var p, q := Pow2(small), Pow2(large - small);
    var k := v / Pow2(large);
    assert v == k * Pow2(large) + v % Pow2(large);
    assert k * (p * q) == (k * q) * p;
    ModAddMultiple(v % Pow2(large), k * q, p);
  }

  /** Reading a lane back changes it by a multiple of its modulus at most. */
  lemma InterpIsCongruent(w: nat, isSigned: bool, x: nat)
    ensures Wrap(w, Interp(w, isSigned, x)) == Wrap(w, x)
  {
    hide Pow2;
    ModAddMultiple(x, -1, Pow2(w));
    assert x + -1 * Pow2(w) == x - Pow2(w);
  }

  /** Every integer of the first type is one of the second. */
  predicate RangeWithin(a: Ty, b: Ty)
    requires a.Ints? && b.Ints?
  {
    a.width == 0 || (if a.isSigned == b.isSigned then a.width <= b.width else !a.isSigned && a.width < b.width)
  }

  /** The middle cast keeps all the bits that are kept in the end, or all integers. */
  predicate ChainIsRedundant(inTy: Ty, midTy: Ty, outTy: Ty)
    requires inTy.Ints? && midTy.Ints? && outTy.Ints?
  {
    outTy.width <= midTy.width || RangeWithin(inTy, midTy)
  }

  lemma WrapKeeps(w: nat, v: int)
    ensures 0 <= v < Pow2(w) ==> Wrap(w, v) == v
    ensures v < 0 <= v + Pow2(w) ==> Wrap(w, v) == v + Pow2(w)
  {
    hide Pow2;
    if 0 <= v < Pow2(w) { ModUnique(v, Pow2(w), 0, v); }
    if v < 0 <= v + Pow2(w) { ModUnique(v, Pow2(w), -1, v + Pow2(w)); }
  }

  lemma RedundantChain(inTy: Ty, midTy: Ty, outTy: Ty, x: nat)
    requires inTy.Ints? && midTy.Ints? && outTy.Ints? && x < Pow2(inTy.width) && ChainIsRedundant(inTy, midTy, outTy)
    ensures CastLane(midTy, outTy, CastLane(inTy, midTy, x)) == CastLane(inTy, outTy, x)
  {
    var v := Interp(inTy.width, inTy.isSigned, x);
    var y := Wrap(midTy.width, v);
    if outTy.width <= midTy.width {
      var back := Interp(midTy.width, midTy.isSigned, y);
      InterpIsCongruent(midTy.width, midTy.isSigned, y);
      ModOfMod(back, outTy.width, midTy.width);
      ModOfMod(y, outTy.width, midTy.width);
      ModOfMod(v, outTy.width, midTy.width);
    } else {
      if inTy.width <= midTy.width { Pow2Monotone(inTy.width, midTy.width); }
      hide Pow2;
      FitsRoundTrip(midTy.width, midTy.isSigned, v);
    }
  }

  /** A lane value that the middle cast changes, when the chain is not redundant. */
  function ChangedLane(inTy: Ty, midTy: Ty): nat
    requires inTy.Ints? && midTy.Ints?
  {
    if inTy.isSigned && (!midTy.isSigned || midTy.width == 0) then Pow2(inTy.width) - 1
    else if !midTy.isSigned || midTy.width == 0 then Pow2(midTy.width)
    else Pow2(midTy.width - 1)
  }

  lemma ChangedByMiddle(inTy: Ty, midTy: Ty, outTy: Ty)
    requires inTy.Ints? && midTy.Ints? && outTy.Ints? && !ChainIsRedundant(inTy, midTy, outTy)
    ensures var x := ChangedLane(inTy, midTy);
            x < Pow2(inTy.width) && CastLane(midTy, outTy, CastLane(inTy, midTy, x)) != CastLane(inTy, outTy, x)
  {
    var x := ChangedLane(inTy, midTy);
    var v := Interp(inTy.width, inTy.isSigned, x);
    var y := Wrap(midTy.width, v);
    var back := Interp(midTy.width, midTy.isSigned, y);
    Pow2Monotone(midTy.width, outTy.width);
    Pow2Monotone(0, inTy.width);
    if midTy.width < inTy.width { Pow2Monotone(midTy.width, inTy.width); }
    if midTy.width > 0 { Pow2Twice(1, midTy.width); }
    ModByOne(v);
    hide Pow2;
    WrapKeeps(midTy.width, v);
    WrapBack(midTy.width, v);
    WrapKeeps(outTy.width, v);
    WrapKeeps(outTy.width, back);
  }

  lemma ModByOne(v: int)
    ensures Pow2(0) == 1 && Wrap(0, v) == 0
  {
  }

  /** One modulus too large. */
  lemma WrapBack(w: nat, v: int)
    ensures v == Pow2(w) ==> Wrap(w, v) == 0
  {
    hide Pow2;
    if v == Pow2(w) { ModUnique(v, Pow2(w), 1, 0); }
  }

  /** The middle cast changes no value if and only if it keeps the final bits or the range of the first type. */
  lemma CastChainIsRedundantIff(inTy: Ty, midTy: Ty, outTy: Ty)
    requires inTy.Ints? && midTy.Ints? && outTy.Ints?
    ensures (forall x: nat :: x < Pow2(inTy.width) ==>
               CastLane(midTy, outTy, CastLane(inTy, midTy, x)) == CastLane(inTy, outTy, x)) <==>
            ChainIsRedundant(inTy, midTy, outTy)
  {
    hide Pow2, CastLane, ChangedLane, ChainIsRedundant;
    if ChainIsRedundant(inTy, midTy, outTy) {
      forall x: nat | x < Pow2(inTy.width)
        ensures CastLane(midTy, outTy, CastLane(inTy, midTy, x)) == CastLane(inTy, outTy, x)
      {
        RedundantChain(inTy, midTy, outTy, x);
      }
    } else {
      ChangedByMiddle(inTy, midTy, outTy);
    }
  }

  /**
   The pattern's guard is sound, and these are the chains it refuses needlessly: a truncation of an extension, an
   equally wide reinterpretation that drops bits or changes the sign, and an extension of a copy or of a kept range
   whose sign changes at the end.
   */
  lemma GuardAgainstRedundancy(inTy: Ty, midTy: Ty, outTy: Ty)
    requires inTy.Ints? && midTy.Ints? && outTy.Ints?
    ensures CastChainApplies(inTy, midTy, outTy) ==> ChainIsRedundant(inTy, midTy, outTy)
    ensures ChainIsRedundant(inTy, midTy, outTy) && !CastChainApplies(inTy, midTy, outTy) <==>
            if outTy.width < midTy.width then inTy.width < outTy.width
            else if outTy.width == midTy.width then midTy.width < inTy.width || midTy.isSigned != outTy.isSigned
            else
              && RangeWithin(inTy, midTy)
              && (|| midTy.isSigned != outTy.isSigned || inTy.width == midTy.width
                  || (inTy.width == 0 && inTy.isSigned && !midTy.isSigned))
  {
  }

  /** Whenever the cast-chain pattern applies, the middle cast is redundant, on every lane value. */
  lemma CastChainIsRedundant(inTy: Ty, midTy: Ty, outTy: Ty, x: nat)
    requires inTy.Ints? && midTy.Ints? && outTy.Ints? && x < Pow2(inTy.width)
    requires CastChainApplies(inTy, midTy, outTy)
    ensures CastLane(midTy, outTy, CastLane(inTy, midTy, x)) == CastLane(inTy, outTy, x)
  {
    GuardAgainstRedundancy(inTy, midTy, outTy);
    RedundantChain(inTy, midTy, outTy, x);
  }

  /** Without the guard it is not: 8-bit -1, through unsigned 16 bits, is 65535 in 32 bits. */
  lemma UnguardedChainLosesSign()
    ensures var inTy, midTy, outTy := Ints(1, 8, true), Ints(1, 16, false), Ints(1, 32, true);
            && !CastChainApplies(inTy, midTy, outTy)
            && CastLane(midTy, outTy, CastLane(inTy, midTy, 0xFF)) != CastLane(inTy, outTy, 0xFF)
  {
    assert Pow2(8) == 0x100 && Pow2(16) == 0x1_0000;
    Pow2Add(16, 16);
    assert Pow2(32) == 0x1_0000_0000;
    hide Pow2;
    ModUnique(-1, 0x1_0000, -1, 0xFFFF);
    ModUnique(-1, 0x1_0000_0000, -1, 0xFFFF_FFFF);
    ModUnique(0xFFFF, 0x1_0000_0000, 0, 0xFFFF);
  }

  lemma ShiftIsDivision(ty: Ty, x: nat, y: nat)
    requires ty.Ints? && !ty.isSigned && x < Pow2(ty.width) && PositivePow2(ty.width, y)
    ensures ShrLane(ty, x, Log2(y)) == DivLane(ty, x, y) && Log2(y) < Pow2(ty.width)
  {
    var n := Log2(y);
    if n >= ty.width { Pow2Monotone(ty.width, n); }
    ExponentBelowPower(ty.width);
    assert y >= 1;
    hide Pow2, IsPow2, Log2;
    QuotientShrinks(x, y);
    ModUnique(x / y, Pow2(ty.width), 0, x / y);
  }

  lemma {:induction false} ExponentBelowPower(n: nat)
    ensures n < Pow2(n)
  {
    if n > 0 {
      ExponentBelowPower(n - 1);
    }
  }

  lemma {:induction false} ShiftsAreDivisions(ty: Ty, xs: seq<nat>, ys: seq<nat>)
    requires ty.Ints? && !ty.isSigned && |xs| == |ys| && (forall i :: 0 <= i < |xs| ==> xs[i] < Pow2(ty.width))
    requires AllPositivePow2(ty.width, ys)
    ensures LaneWise(ty, xs, Logs(ty.width, ys), false) == LaneWise(ty, xs, ys, true)
    ensures forall i :: 0 <= i < |ys| ==> Logs(ty.width, ys)[i] < Pow2(ty.width)
    decreases |xs|
  {
    if xs != [] {
      hide Pow2, ShrLane, DivLane, Log2, PositivePow2;
      var w, logs := ty.width, Logs(ty.width, ys);
      assert PositivePow2(w, ys[0]);
      LogsTail(w, ys);
      ShiftIsDivision(ty, xs[0], ys[0]);
      ShiftsAreDivisions(ty, xs[1..], ys[1..]);
      assert forall i :: 1 <= i < |ys| ==> logs[i] == logs[1..][i - 1];
    }
  }

  lemma LogsTail(w: nat, ys: seq<nat>)
    requires AllPositivePow2(w, ys) && ys != []
    ensures Logs(w, ys)[1..] == Logs(w, ys[1..]) && Logs(w, ys)[0] == Log2(ys[0])
  {
  }

  lemma AdvanceTwice(addr: nat, size: nat, i: int, j: int)
    ensures Advance(Advance(addr, size, i), size, j) == Advance(addr, size, i + j)
  {
    var m, a := ADDRESS_SPACE, addr + size * i;
    var k := a / m;
    assert a == k * m + a % m;
    ModAddMultiple(a % m + size * j, k, m);
    assert size * (i + j) == size * i + size * j;
  }

  // ----- each pattern fires on what it is for -----

  lemma {:induction false} Log2OfPow2(k: nat)
    ensures IsPow2(Pow2(k)) && Log2(Pow2(k)) == k
  {
    Pow2IsPow2(k);
    if k > 0 {
      Log2OfPow2(k - 1);
      assert Pow2(k) / 2 == Pow2(k - 1);
    }
  }

  function PowersOf(ks: seq<nat>): (r: seq<nat>)
    ensures |r| == |ks|
  {
    seq(|ks|, i requires 0 <= i < |ks| => Pow2(ks[i]))
  }

  /** An unsigned vector divided by powers of two below half its range becomes a shift by the exponents. */
  lemma DivisionByPowersBecomesShift(x: Expr, ty: Ty, ks: seq<nat>)
    requires ty.Ints? && !ty.isSigned && TypeOf(x) == ty && forall i :: 0 <= i < |ks| ==> ks[i] + 1 < ty.width
    ensures RootRewrite(Node(Div, [x, Node(IntConst(PowersOf(ks), ty), [])])) ==
            Some(Node(Shr, [x, Node(IntConst(ks, ty), [])]))
  {
    var e := Node(Div, [x, Node(IntConst(PowersOf(ks), ty), [])]);
    assert TypesOf(e.kids)[0] == ty;
    hide IsPow2, Log2, TypeOf, TypesOf;
    forall i | 0 <= i < |ks|
      ensures PositivePow2(ty.width, PowersOf(ks)[i]) && Log2(PowersOf(ks)[i]) == ks[i]
    {
      Log2OfPow2(ks[i]);
      Pow2Monotone(ks[i] + 1, ty.width - 1);
    }
    TypeUnfolds(e);
    assert Logs(ty.width, PowersOf(ks)) == ks;
  }

  /** Chains that only truncate, only extend with one sign, or end in a copy lose their middle cast. */
  lemma CastChainsCollapse(x: Expr, mid: Ty, out: Ty)
    requires TypeOf(x).Ints? && mid.Ints? && out.Ints?
    requires var a := TypeOf(x);
             || (out.width < mid.width && out.width <= a.width)
             || (a.width < mid.width < out.width && mid.isSigned == out.isSigned && (a.isSigned ==> mid.isSigned))
             || (a.width <= mid.width == out.width && mid.isSigned == out.isSigned)
    ensures RootRewrite(Node(Cast(out), [Node(Cast(mid), [x])])) == Some(Node(Cast(out), [x]))
  {
    hide TypeOf;
    assert Node(Cast(mid), [x]).kids == [x];
  }

  lemma OffsetsMerge(base: Expr, j: Expr, c: int, d: int)
    requires INDEX_MIN <= c + d <= INDEX_MAX
    ensures RootRewrite(Node(Offset, [Node(ArrayGep, [base, Node(IndexConst(0), [])]), j])) ==
            Some(Node(ArrayGep, [base, j]))
    ensures RootRewrite(Node(Offset, [Node(Offset, [base, Node(IndexConst(c), [])]), Node(IndexConst(d), [])])) ==
            Some(Node(Offset, [base, Node(IndexConst(c + d), [])]))
  {
  }

  /** Nested selects on one condition lose the inner one; only a select in the true arm hides one in the false arm. */
  lemma NestedSelectsCollapse(x: Expr, a: Expr, b: Expr, c: Expr)
    ensures RootRewrite(Node(Select, [x, Node(Select, [x, a, b]), c])) == Some(Node(Select, [x, a, c]))
    ensures !a.op.Select? ==>
              RootRewrite(Node(Select, [x, a, Node(Select, [x, b, c])])) == Some(Node(Select, [x, a, c]))
  {
    var inner := Node(Select, [x, a, b]);
    assert [x, inner, c][1 := a] == [x, a, c];
    var inner' := Node(Select, [x, b, c]);
    assert [x, a, inner'][2 := c] == [x, a, c];
  }

  lemma NotBecomesXOr(x: Expr, n: nat)
    requires TypeOf(x) == Bools(n)
    ensures var no, yes := Node(BoolConst(seq(n, _ => false)), []), Node(BoolConst(seq(n, _ => true)), []);
            RootRewrite(Node(SimdSelect, [x, no, yes])) == Some(Node(XOr, [x, yes]))
  {
    var no, yes := Node(BoolConst(seq(n, _ => false)), []), Node(BoolConst(seq(n, _ => true)), []);
    var e := Node(SimdSelect, [x, no, yes]);
    TypeUnfolds(no);
    assert TypesOf(e.kids)[1] == Bools(n);
    TypeUnfolds(e);
  }

  // ----- each pattern preserves values -----

  lemma DivRefines(e: Expr, e': Expr, env: map<nat, Value>)
    requires e.op.Div? && |e.kids| == 2 && DivToShr(e) == Some(e') && Eval(e, env).Some?
    ensures Eval(e', env) == Eval(e, env)
  {
    hide Eval, EvalAll, TypesOf, TypeOf, Pow2, LaneWise, Operand;
    var a, b, ty := e.kids[0], e.kids[1], TypeOf(e);
    var logs := Logs(ty.width, b.op.lanes);
    var k := Node(IntConst(logs, ty), []);
    assert e.kids == [a, b] && e'.kids == [a, k];
    EvalUnfolds(e, env);
    EvalUnfolds(e', env);
    EvalAllTwo(a, b, env);
    EvalAllTwo(a, k, env);
    ConstOperand(b, env);
    OperandHasType(a, env);
    var x := Operand(a, env).value;
    assert forall i :: 0 <= i < |x.lanes| ==> x.lanes[i] in x.lanes;
    ShiftsAreDivisions(ty, x.lanes, b.op.lanes);
    ConstHasValue(logs, ty, env);
  }

  /** A constant's value is what it says. */
  lemma ConstOperand(e: Expr, env: map<nat, Value>)
    requires Operand(e, env).Some?
    ensures e.op.IntConst? ==> Operand(e, env).value == IntsV(e.op.lanes)
    ensures e.op.BoolConst? ==> Operand(e, env).value == BoolsV(e.op.flags)
    ensures e.op.IndexConst? ==> Operand(e, env).value == IndexV(e.op.index)
  {
    EvalUnfolds(e, env);
    hide EvalAll, TypeOf, TypesOf;
  }

  lemma ConstHasValue(lanes: seq<nat>, ty: Ty, env: map<nat, Value>)
    requires ty.Ints? && |lanes| == ty.size && forall i :: 0 <= i < |lanes| ==> lanes[i] < Pow2(ty.width)
    ensures var e := Node(IntConst(lanes, ty), []);
            Operand(e, env) == Some(IntsV(lanes)) && TypeOf(e) == ty
  {
    var e := Node(IntConst(lanes, ty), []);
    assert EvalAll([], env) == Some([]) && TypesOf([]) == [];
    EvalUnfolds(e, env);
    assert HasType(IntsV(lanes), ty);
  }

  lemma IndexHasValue(i: int, env: map<nat, Value>)
    requires INDEX_MIN <= i <= INDEX_MAX
    ensures var e := Node(IndexConst(i), []); Operand(e, env) == Some(IndexV(i)) && TypeOf(e) == Index
  {
    var e := Node(IndexConst(i), []);
    assert EvalAll([], env) == Some([]) && TypesOf([]) == [];
    EvalUnfolds(e, env);
  }

  lemma CastRefines(e: Expr, e': Expr, env: map<nat, Value>)
    requires e.op.Cast? && |e.kids| == 1 && CastChain(e) == Some(e') && Eval(e, env).Some?
    ensures Eval(e', env) == Eval(e, env)
  {
    hide Eval, EvalAll, TypesOf, TypeOf, Pow2, Operand;
    var mid := e.kids[0];
    var x := mid.kids[0];
    assert e.kids == [mid] && mid.kids == [x] && e'.kids == [x];
    EvalUnfolds(e, env);
    EvalUnfolds(e', env);
    EvalUnfolds(mid, env);
    EvalAllOne(mid, env);
    OperandHasType(mid, env);
    EvalAllOne(x, env);
    OperandHasType(x, env);
    var inTy, midTy, outTy := TypeOf(x), mid.op.ty, e.op.ty;
    var v, w := Operand(x, env).value, Operand(mid, env).value;
    hide CastLane, CastChainApplies;
    forall i | 0 <= i < outTy.size
      ensures CastLane(midTy, outTy, w.lanes[i]) == CastLane(inTy, outTy, v.lanes[i])
    {
      assert v.lanes[i] in v.lanes;
      CastChainIsRedundant(inTy, midTy, outTy, v.lanes[i]);
    }
    assert Eval(e, env).value.lanes == Eval(e', env).value.lanes;
  }

  lemma OffsetRefines(e: Expr, e': Expr, env: map<nat, Value>)
    requires e.op.Offset? && |e.kids| == 2 && OffsetPatterns(e) == Some(e') && Eval(e, env).Some?
    ensures Eval(e', env) == Eval(e, env)
  {
    hide Eval, EvalAll, TypesOf, TypeOf, Advance, Operand;
    var ptr, index, index' := e.kids[0], e.kids[1], e'.kids[1];
    var base, inner := ptr.kids[0], ptr.kids[1];
    assert e.kids == [ptr, index] && ptr.kids == [base, inner] && e'.kids == [base, index'];
    EvalUnfolds(e, env);
    EvalUnfolds(e', env);
    EvalUnfolds(ptr, env);
    EvalAllTwo(ptr, index, env);
    OperandHasType(ptr, env);
    EvalAllTwo(base, inner, env);
    EvalAllTwo(base, index', env);
    ConstOperand(inner, env);
    ConstOperand(index, env);
    OperandHasType(base, env);
    OperandHasType(index, env);
    if !ptr.op.ArrayGep? {
      IndexHasValue(index'.op.index, env);
    }
    AdvanceTwice(Operand(base, env).value.addr,
                 if ptr.op.ArrayGep? then TypeOf(base).stride else TypeOf(base).elSize,
                 Operand(inner, env).value.index, Operand(index, env).value.index);
  }

  lemma SelectRefines(e: Expr, e': Expr, env: map<nat, Value>)
    requires e.op.Select? && |e.kids| == 3 && SelectOfSelect(e) == Some(e') && Eval(e, env).Some?
    ensures Eval(e', env) == Eval(e, env)
  {
    hide Eval, EvalAll, TypesOf, TypeOf, Operand;
    var c, a, b := e.kids[0], e.kids[1], e.kids[2];
    var inner := if a.op.Select? && |a.kids| == 3 then a else b;
    var a', b' := e'.kids[1], e'.kids[2];
    assert e.kids == [c, a, b] && e'.kids == [c, a', b'];
    assert inner.kids == [c, inner.kids[1], inner.kids[2]];
    EvalUnfolds(e, env);
    EvalUnfolds(e', env);
    EvalUnfolds(inner, env);
    EvalAllThree(c, a, b, env);
    EvalAllThree(c, a', b', env);
    EvalAllThree(c, inner.kids[1], inner.kids[2], env);
    OperandHasType(c, env);
    OperandHasType(inner, env);
  }

  lemma XOrRefines(e: Expr, e': Expr, env: map<nat, Value>)
    requires e.op.SimdSelect? && |e.kids| == 3 && SelectToXOr(e) == Some(e') && Eval(e, env).Some?
    ensures Eval(e', env) == Eval(e, env)
  {
    hide Eval, EvalAll, TypesOf, TypeOf, Operand;
    var c, a, b := e.kids[0], e.kids[1], e.kids[2];
    assert e.kids == [c, a, b] && e'.kids == [c, b];
    EvalUnfolds(e, env);
    EvalUnfolds(e', env);
    EvalAllThree(c, a, b, env);
    EvalAllTwo(c, b, env);
    ConstOperand(a, env);
    ConstOperand(b, env);
    OperandHasType(c, env);
    OperandHasType(a, env);
    OperandHasType(b, env);
    NotAsXOr(Operand(c, env).value.flags, a.op.flags, b.op.flags);
  }

  lemma NotAsXOr(x: seq<bool>, y: seq<bool>, z: seq<bool>)
    requires |x| == |y| == |z| && (forall b <- y :: !b) && (forall b <- z :: b)
    ensures PickFlags(x, y, z) == XOrFlags(x, z)
  {
    forall i | 0 <= i < |x|
      ensures PickFlags(x, y, z)[i] == XOrFlags(x, z)[i]
    {
      assert y[i] in y && z[i] in z;
    }
  }

  lemma RootRefines(e: Expr, e': Expr)
    requires RootRewrite(e) == Some(e')
    ensures Refines(e, e')
  {
    RootKeepsType(e, e');
    forall env | Eval(e, env).Some?
      ensures Eval(e', env) == Eval(e, env)
    {
      hide Eval, DivToShr, CastChain, OffsetPatterns, SelectOfSelect, SelectToXOr;
      match e.op
      case Div => DivRefines(e, e', env);
      case Cast(_) => CastRefines(e, e', env);
      case Offset => OffsetRefines(e, e', env);
      case Select => SelectRefines(e, e', env);
      case SimdSelect => XOrRefines(e, e', env);
    }
  }

  lemma RootKeepsType(e: Expr, e': Expr)
    requires RootRewrite(e) == Some(e')
    ensures TypeOf(e') == TypeOf(e)
  {
    hide TypeOf, TypesOf, IsPow2, Pow2, Log2, AllPositivePow2, CastChainApplies;
    TypeUnfolds(e);
    TypeUnfolds(e');
    match e.op
    case Offset => TypeUnfolds(e.kids[0]);
    case Select => TypeUnfolds(e.kids[1]);
    case _ =>
  }

  lemma RootShrinks(e: Expr, e': Expr)
    requires RootRewrite(e) == Some(e')
    ensures Measure(e') < Measure(e)
  {
    hide TypeOf, Measure, MeasureAll;
    MeasureNode(e);
    MeasureNode(e');
    var first := e.kids[0];
    MeasureNode(first);
    match e.op
    case Div => MeasureNode(e.kids[1]); MeasureNode(e'.kids[1]);
    case Cast(_) =>
    case Offset =>
      MeasureNode(e.kids[1]);
      MeasureNode(e'.kids[1]);
      MeasureNode(first.kids[1]);
    case Select =>
      MeasureNode(e.kids[1]);
      MeasureNode(e.kids[2]);
    case SimdSelect =>
  }

  /** The measure of a node with up to three operands. */
  lemma MeasureNode(e: Expr)
    ensures var base := if e.op.Div? then 2 else 1;
            && Measure(e) >= base && (|e.kids| == 0 ==> Measure(e) == base)
            && (|e.kids| == 1 ==> Measure(e) == base + Measure(e.kids[0]))
            && (|e.kids| == 2 ==> Measure(e) == base + Measure(e.kids[0]) + Measure(e.kids[1]))
            && (|e.kids| == 3 ==> Measure(e) == base + Measure(e.kids[0]) + Measure(e.kids[1]) + Measure(e.kids[2]))
  {
    var es := e.kids;
    if |es| >= 1 { assert MeasureAll(es) == Measure(es[0]) + MeasureAll(es[1..]); }
    if |es| >= 2 {
      assert MeasureAll(es[1..]) == Measure(es[1]) + MeasureAll(es[1..][1..]);
      assert es[1..][1..] == es[2..];
    }
    if |es| >= 3 {
      assert MeasureAll(es[2..]) == Measure(es[2]) + MeasureAll(es[2..][1..]);
      assert es[2..][1..] == es[3..];
    }
  }

  // ----- steps and runs -----

  /** Any step, anywhere, keeps the type and the value, and makes the measure smaller. */
  lemma {:induction false} StepRefinesAndShrinks(e: Expr, e': Expr)
    requires Step(e, e')
    ensures Refines(e, e') && Measure(e') < Measure(e)
    decreases e
  {
    hide Refines, RootRewrite;
    if RootRewrite(e) == Some(e') {
      RootRefines(e, e');
      RootShrinks(e, e');
    } else {
      var i :| 0 <= i < |e.kids| && e'.kids == e.kids[i := e'.kids[i]] && Step(e.kids[i], e'.kids[i]);
      StepRefinesAndShrinks(e.kids[i], e'.kids[i]);
      OperandRefines(e, i, e'.kids[i]);
      MeasureAllAt(e.kids, i, e'.kids[i]);
      assert e' == Node(e.op, e.kids[i := e'.kids[i]]);
    }
  }

  predicate IsRun(run: seq<Expr>) {
    run != [] && forall i :: 0 < i < |run| ==> Step(run[i - 1], run[i])
  }

  lemma RefinesTransitive(a: Expr, b: Expr, c: Expr)
    requires Refines(a, b) && Refines(b, c)
    ensures Refines(a, c)
  {
    hide Eval, TypeOf;
  }

  /** Every run of the patterns, in any order and place, preserves meaning and is no longer than the measure. */
  lemma {:induction false} RunsPreserveMeaningAndEnd(run: seq<Expr>)
    requires IsRun(run)
    ensures Refines(run[0], run[|run| - 1])
    ensures |run| + Measure(run[|run| - 1]) <= Measure(run[0]) + 1
    decreases |run|
  {
    hide Refines, Step, Measure;
    if |run| == 1 {
      RefinesSelf(run[0]);
    } else {
      var shorter := run[..|run| - 1];
      RunsPreserveMeaningAndEnd(shorter);
      var last := |run| - 1;
      assert Step(run[last - 1], run[last]);
      StepRefinesAndShrinks(run[last - 1], run[last]);
      RefinesTransitive(run[0], run[last - 1], run[last]);
    }
  }

  lemma RefinesSelf(e: Expr)
    ensures Refines(e, e)
  {
  }

  // ----- a driver -----

  /** The first step there is, the root before the operands. */
  function FindStep(e: Expr): (r: Option<Expr>)
    ensures r.Some? ==> Step(e, r.value)
    ensures r.None? ==> Normal(e)
    decreases e, 1
  {
    var root := RootRewrite(e);
    if root.Some? then root
    else
      var found := FindKid(e.kids, 0);
      if found.Some? then
        var (i, k) := found.value;
        var e' := Node(e.op, e.kids[i := k]);
        assert e'.kids[i] == k;
        Some(e')
      else None
  }

  function FindKid(es: seq<Expr>, from: nat): (r: Option<(nat, Expr)>)
    requires from <= |es|
    ensures r.Some? ==> r.value.0 < |es| && Step(es[r.value.0], r.value.1)
    ensures r.None? ==> forall i :: from <= i < |es| ==> Normal(es[i])
    decreases es, 0, |es| - from
  {
    if from == |es| then None
    else
      var here := FindStep(es[from]);
      if here.Some? then Some((from, here.value)) else FindKid(es, from + 1)
  }

  /** No pattern applies anywhere. */
  ghost predicate Normal(e: Expr) { forall e' :: !Step(e, e') }

  /** Apply patterns until none applies. */
  method Canonicalize(e: Expr) returns (r: Expr)
    ensures Refines(e, r) && Normal(r)
  {
    hide Refines, Normal, Step;
    r := e;
    RefinesSelf(e);
    var next := FindStep(r);
    while next.Some?
      invariant Refines(e, r) && next == FindStep(r)
      decreases Measure(r)
    {
      StepRefinesAndShrinks(r, next.value);
      RefinesTransitive(e, r, next.value);
      r := next.value;
      next := FindStep(r);
    }
  }

  // ----- what canonical forms do not contain -----

  predicate Subterm(s: Expr, e: Expr)
    decreases e
  {
    s == e || exists i :: 0 <= i < |e.kids| && Subterm(s, e.kids[i])
  }

  lemma RootIsStep(e: Expr)
    requires RootRewrite(e).Some?
    ensures Step(e, RootRewrite(e).value)
  {
  }

  lemma OperandStep(e: Expr, i: nat, k: Expr)
    requires i < |e.kids| && Step(e.kids[i], k)
    ensures Step(e, Node(e.op, e.kids[i := k]))
  {
    hide RootRewrite;
    var e' := Node(e.op, e.kids[i := k]);
    assert e'.kids[i] == k;
  }

  /** If no pattern applies to an expression, none applies to the root of any part of it. */
  lemma {:induction false} NormalEverywhere(e: Expr, s: Expr)
    requires Normal(e) && Subterm(s, e)
    ensures RootRewrite(s).None?
    decreases e
  {
    hide RootRewrite;
    if s == e {
      if RootRewrite(e).Some? {
        RootIsStep(e);
      }
    } else {
      var i :| 0 <= i < |e.kids| && Subterm(s, e.kids[i]);
      forall k
        ensures !Step(e.kids[i], k)
      {
        if Step(e.kids[i], k) {
          OperandStep(e, i, k);
        }
      }
      NormalEverywhere(e.kids[i], s);
    }
  }

  /** A canonical form nowhere divides an unsigned vector by constant powers of two below half its range. */
  lemma CanonicalDivisions(e: Expr, x: Expr, ty: Ty, ks: seq<nat>)
    requires Normal(e) && ty.Ints? && !ty.isSigned && TypeOf(x) == ty
    requires forall i :: 0 <= i < |ks| ==> ks[i] + 1 < ty.width
    ensures !Subterm(Node(Div, [x, Node(IntConst(PowersOf(ks), ty), [])]), e)
  {
    hide Normal, Subterm, RootRewrite, TypeOf;
    var s := Node(Div, [x, Node(IntConst(PowersOf(ks), ty), [])]);
    DivisionByPowersBecomesShift(x, ty, ks);
    if Subterm(s, e) { NormalEverywhere(e, s); }
  }

  /** A power that is not positive as a signed number, or a lane that is no power of two, keeps the division. */
  lemma OtherDivisionsStay(x: Expr, ty: Ty, lanes: seq<nat>, i: nat)
    requires ty.Ints? && i < |lanes| && (2 * lanes[i] >= Pow2(ty.width) || !IsPow2(lanes[i]) || ty.isSigned)
    requires TypeOf(x) == ty
    ensures RootRewrite(Node(Div, [x, Node(IntConst(lanes, ty), [])])).None?
  {
    var e := Node(Div, [x, Node(IntConst(lanes, ty), [])]);
    assert TypesOf(e.kids)[0] == ty;
    hide IsPow2, Pow2, TypeOf, TypesOf, Logs;
    TypeUnfolds(e);
    assert !AllPositivePow2(ty.width, lanes) || ty.isSigned by {
      if AllPositivePow2(ty.width, lanes) { assert PositivePow2(ty.width, lanes[i]); }
    }
  }

  /** It has no chain of casts that only truncates, only extends with one sign, or ends in a copy. */
  lemma CanonicalCasts(e: Expr, x: Expr, mid: Ty, out: Ty)
    requires Normal(e) && TypeOf(x).Ints? && mid.Ints? && out.Ints?
    requires var a := TypeOf(x);
             || (out.width < mid.width && out.width <= a.width)
             || (a.width < mid.width < out.width && mid.isSigned == out.isSigned && (a.isSigned ==> mid.isSigned))
             || (a.width <= mid.width == out.width && mid.isSigned == out.isSigned)
    ensures !Subterm(Node(Cast(out), [Node(Cast(mid), [x])]), e)
  {
    hide Normal, Subterm, RootRewrite, TypeOf;
    var s := Node(Cast(out), [Node(Cast(mid), [x])]);
    CastChainsCollapse(x, mid, out);
    if Subterm(s, e) { NormalEverywhere(e, s); }
  }

  /** It has no offset of a zero array index, and no two constant offsets that could be added. */
  lemma CanonicalOffsets(e: Expr, base: Expr, j: Expr, c: int, d: int)
    requires Normal(e) && -0x8000_0000_0000_0000 <= c + d < 0x8000_0000_0000_0000
    ensures !Subterm(Node(Offset, [Node(ArrayGep, [base, Node(IndexConst(0), [])]), j]), e)
    ensures !Subterm(Node(Offset, [Node(Offset, [base, Node(IndexConst(c), [])]), Node(IndexConst(d), [])]), e)
  {
    hide Normal, Subterm, RootRewrite;
    var s := Node(Offset, [Node(ArrayGep, [base, Node(IndexConst(0), [])]), j]);
    var s' := Node(Offset, [Node(Offset, [base, Node(IndexConst(c), [])]), Node(IndexConst(d), [])]);
    OffsetsMerge(base, j, c, d);
    if Subterm(s, e) { NormalEverywhere(e, s); }
    if Subterm(s', e) { NormalEverywhere(e, s'); }
  }

  /** It has no select with a select on its condition as true arm, or as false arm beside a plain true arm. */
  lemma CanonicalSelects(e: Expr, x: Expr, a: Expr, b: Expr, c: Expr)
    requires Normal(e)
    ensures !Subterm(Node(Select, [x, Node(Select, [x, a, b]), c]), e)
    ensures !a.op.Select? ==> !Subterm(Node(Select, [x, a, Node(Select, [x, b, c])]), e)
  {
    hide Normal, Subterm, RootRewrite;
    var s, s' := Node(Select, [x, Node(Select, [x, a, b]), c]), Node(Select, [x, a, Node(Select, [x, b, c])]);
    NestedSelectsCollapse(x, a, b, c);
    if Subterm(s, e) { NormalEverywhere(e, s); }
    if !a.op.Select? && Subterm(s', e) { NormalEverywhere(e, s'); }
  }

  /** It has no select between false and true. */
  lemma CanonicalNots(e: Expr, x: Expr, n: nat)
    requires Normal(e) && TypeOf(x) == Bools(n)
    ensures var no, yes := Node(BoolConst(seq(n, _ => false)), []), Node(BoolConst(seq(n, _ => true)), []);
            !Subterm(Node(SimdSelect, [x, no, yes]), e)
  {
    hide Normal, Subterm, RootRewrite, TypeOf;
    var no, yes := Node(BoolConst(seq(n, _ => false)), []), Node(BoolConst(seq(n, _ => true)), []);
    NotBecomesXOr(x, n);
    if Subterm(Node(SimdSelect, [x, no, yes]), e) { NormalEverywhere(e, Node(SimdSelect, [x, no, yes])); }
  }
}
