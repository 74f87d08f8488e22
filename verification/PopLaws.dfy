/**
 What the evaluator of `PopExpr` means, in terms of the integers, addresses and arms an expression stands for.
 */
module PopLaws {
  import opened Options
  import opened Powers
  import opened Modular
  import opened PopExpr

  // ----- every value has its type -----

  lemma {:induction false} LaneWiseAt(ty: Ty, xs: seq<nat>, ys: seq<nat>, isDiv: bool, i: nat)
    requires ty.Ints? && |xs| == |ys| && i < |xs| && LaneWise(ty, xs, ys, isDiv).Some?
    ensures var zs := LaneWise(ty, xs, ys, isDiv).value;
            |zs| == |xs| && (if isDiv then DivLane(ty, xs[i], ys[i]) else ShrLane(ty, xs[i], ys[i])) == Some(zs[i])
    decreases |xs|
  {
    hide DivLane, ShrLane;
    if |xs| > 1 {
      LaneWiseAt(ty, xs[1..], ys[1..], isDiv, if i > 0 then i - 1 else 0);
    }
  }

  lemma {:induction false} LaneWiseDefined(ty: Ty, xs: seq<nat>, ys: seq<nat>, isDiv: bool)
    requires ty.Ints? && |xs| == |ys|
    ensures LaneWise(ty, xs, ys, isDiv).Some? <==>
            forall i :: 0 <= i < |xs| ==> (if isDiv then DivLane(ty, xs[i], ys[i]) else ShrLane(ty, xs[i], ys[i])).Some?
    ensures LaneWise(ty, xs, ys, isDiv).Some? ==> |LaneWise(ty, xs, ys, isDiv).value| == |xs|
    decreases |xs|
  {
    hide DivLane, ShrLane;
    if xs != [] {
      LaneWiseDefined(ty, xs[1..], ys[1..], isDiv);
      assert forall i :: 1 <= i < |xs| ==> xs[i] == xs[1..][i - 1] && ys[i] == ys[1..][i - 1];
    }
  }

  lemma DivLaneInRange(ty: Ty, x: nat, y: nat)
    requires ty.Ints? && x < Pow2(ty.width) && DivLane(ty, x, y).Some?
    ensures DivLane(ty, x, y).value < Pow2(ty.width)
  {
    hide Pow2;
    if !ty.isSigned { QuotientShrinks(x, y); }
  }

  lemma LaneWiseHasType(ty: Ty, xs: seq<nat>, ys: seq<nat>, isDiv: bool)
    requires ty.Ints? && |xs| == |ys| == ty.size && (forall x <- xs :: x < Pow2(ty.width))
    requires LaneWise(ty, xs, ys, isDiv).Some?
    ensures HasType(IntsV(LaneWise(ty, xs, ys, isDiv).value), ty)
  {
    hide LaneWise, Pow2, DivLane;
    var zs := LaneWise(ty, xs, ys, isDiv).value;
    LaneWiseDefined(ty, xs, ys, isDiv);
    forall i | 0 <= i < |zs|
      ensures zs[i] < Pow2(ty.width)
    {
      LaneWiseAt(ty, xs, ys, isDiv, i);
      assert xs[i] in xs;
      if isDiv { DivLaneInRange(ty, xs[i], ys[i]); }
    }
  }

  lemma ApplyHasType(op: Op, tys: seq<Ty>, vs: seq<Value>, env: map<nat, Value>)
    requires |tys| == |vs| && (forall i :: 0 <= i < |vs| ==> HasType(vs[i], tys[i])) && Apply(op, tys, vs, env).Some?
    ensures HasType(Apply(op, tys, vs, env).value, ResultType(op, tys))
  {
    hide Pow2, LaneWise, Advance;
    if op.Div? || op.Shr? {
      assert HasType(vs[0], tys[0]);
      assert HasType(vs[1], tys[1]);
      LaneWiseHasType(tys[0], vs[0].lanes, vs[1].lanes, op.Div?);
    } else if op.Offset? || op.ArrayGep? {
      AdvanceInRange(vs[0].addr, if op.Offset? then tys[0].elSize else tys[0].stride, vs[1].index);
    } else if op.Select? {
      assert HasType(vs[1], tys[1]) && HasType(vs[2], tys[2]);
    } else if op.SimdSelect? {
      assert HasType(vs[0], tys[0]) && HasType(vs[1], tys[1]) && HasType(vs[2], tys[2]);
      if tys[1].Ints? && |vs[0].flags| == |vs[1].lanes| == |vs[2].lanes| {
        PickedInRange(vs[0].flags, vs[1].lanes, vs[2].lanes, Pow2(tys[1].width));
      }
    } else if op.XOr? {
      assert HasType(vs[0], tys[0]) && HasType(vs[1], tys[1]);
    }
  }

  lemma PickedInRange(cond: seq<bool>, a: seq<nat>, b: seq<nat>, p: nat)
    requires |cond| == |a| == |b| && (forall x <- a :: x < p) && (forall x <- b :: x < p)
    ensures forall x <- PickLanes(cond, a, b) :: x < p
  {
    forall i | 0 <= i < |cond|
      ensures PickLanes(cond, a, b)[i] < p
    {
      assert a[i] in a && b[i] in b;
    }
  }

  lemma AdvanceInRange(addr: nat, size: nat, index: int)
    ensures Advance(addr, size, index) < ADDRESS_SPACE
  {
  }

  /** Whatever has a value has one of its own type. */
  lemma EvalHasType(e: Expr, env: map<nat, Value>)
    requires Eval(e, env).Some?
    ensures HasType(Eval(e, env).value, TypeOf(e)) && Operand(e, env) == Eval(e, env)
  {
    EvalUnfolds(e, env);
    hide Eval, TypeOf, Apply, EvalAll;
    ApplyHasType(e.op, TypesOf(e.kids), EvalAll(e.kids, env).value, env);
  }

  // ----- leaves -----

  lemma LeavesMeanThemselves(id: nat, ty: Ty, lanes: seq<nat>, flags: seq<bool>, index: int, env: map<nat, Value>)
    ensures id in env && HasType(env[id], ty) ==> Eval(Node(Var(id, ty), []), env) == Some(env[id])
    ensures HasType(IntsV(lanes), ty) ==> Eval(Node(IntConst(lanes, ty), []), env) == Some(IntsV(lanes))
    ensures Eval(Node(BoolConst(flags), []), env) == Some(BoolsV(flags))
    ensures Eval(Node(IndexConst(index), []), env) ==
            if -0x8000_0000_0000_0000 <= index < 0x8000_0000_0000_0000 then Some(IndexV(index)) else None
  {
    hide HasType;
    assert EvalAll([], env) == Some([]) && TypesOf([]) == [];
  }

  // ----- arms -----

  /** A true condition selects the first arm, a false one the second. */
  lemma SelectTakesArm(c: Expr, a: Expr, b: Expr, env: map<nat, Value>, flag: bool)
    requires TypeOf(c) == Bools(1) && Eval(c, env) == Some(BoolsV([flag])) && TypeOf(a) == TypeOf(b)
    requires Eval(a, env).Some? && Eval(b, env).Some?
    ensures Eval(Node(Select, [c, a, b]), env) == if flag then Eval(a, env) else Eval(b, env)
  {
    hide Eval, EvalAll, TypeOf, TypesOf, Operand;
    EvalHasType(c, env);
    EvalHasType(a, env);
    EvalHasType(b, env);
    EvalAllThree(c, a, b, env);
    EvalUnfolds(Node(Select, [c, a, b]), env);
  }

  /** The same lane by lane. */
  lemma SimdSelectTakesLanes(c: Expr, a: Expr, b: Expr, env: map<nat, Value>, flags: seq<bool>)
    requires TypeOf(c) == Bools(|flags|) && Eval(c, env) == Some(BoolsV(flags))
    requires TypeOf(a) == TypeOf(b) && Eval(a, env).Some? && Eval(b, env).Some?
    ensures var r, x, y := Eval(Node(SimdSelect, [c, a, b]), env), Eval(a, env).value, Eval(b, env).value;
            && (TypeOf(a).Ints? && TypeOf(a).size == |flags| ==>
                  && r.Some? && r.value.IntsV? && x.IntsV? && y.IntsV?
                  && |r.value.lanes| == |x.lanes| == |y.lanes| == |flags|
                  && forall i :: 0 <= i < |flags| ==> r.value.lanes[i] == if flags[i] then x.lanes[i] else y.lanes[i])
            && (TypeOf(a) == Bools(|flags|) ==>
                  && r.Some? && r.value.BoolsV? && x.BoolsV? && y.BoolsV?
                  && |r.value.flags| == |x.flags| == |y.flags| == |flags|
                  && forall i :: 0 <= i < |flags| ==> r.value.flags[i] == if flags[i] then x.flags[i] else y.flags[i])
  {
    hide Eval, EvalAll, TypeOf, TypesOf, Operand, Pow2;
    EvalHasType(c, env);
    EvalHasType(a, env);
    EvalHasType(b, env);
    EvalAllThree(c, a, b, env);
    EvalUnfolds(Node(SimdSelect, [c, a, b]), env);
  }

  /** A lane of an exclusive or is set where exactly one operand's is. */
  lemma XOrDiffers(a: Expr, b: Expr, env: map<nat, Value>, x: seq<bool>, y: seq<bool>)
    requires |x| == |y| && TypeOf(a) == TypeOf(b) == Bools(|x|)
    requires Eval(a, env) == Some(BoolsV(x)) && Eval(b, env) == Some(BoolsV(y))
    ensures var r := Eval(Node(XOr, [a, b]), env);
            && r.Some? && r.value.BoolsV? && |r.value.flags| == |x|
            && forall i :: 0 <= i < |x| ==> (r.value.flags[i] <==> x[i] != y[i])
  {
    hide Eval, EvalAll, TypeOf, TypesOf, Operand;
    EvalHasType(a, env);
    EvalHasType(b, env);
    EvalAllTwo(a, b, env);
    EvalUnfolds(Node(XOr, [a, b]), env);
  }

  // ----- addresses -----

  /** The size that an `offset` of a pointer, or an `array.gep` of an array's, strides by. */
  predicate Strides(op: Op, ty: Ty, size: nat) {
    (op.Offset? && ty == Pointer(size)) || (op.ArrayGep? && ty == ArrayPointer(size))
  }

  /** An element's address, where it does not wrap around 2^64, and the wrapped one where it does. */
  lemma ElementAddress(op: Op, p: Expr, i: Expr, env: map<nat, Value>, size: nat, addr: nat, index: int)
    requires Strides(op, TypeOf(p), size) && TypeOf(i) == Index
    requires Eval(p, env) == Some(AddrV(addr)) && Eval(i, env) == Some(IndexV(index))
    ensures var r := Eval(Node(op, [p, i]), env);
            && r.Some? && r.value.AddrV? && r.value.addr < 0x1_0000_0000_0000_0000
            && (exists k: int :: addr + size * index == r.value.addr + k * 0x1_0000_0000_0000_0000)
            && (0 <= addr + size * index < 0x1_0000_0000_0000_0000 ==> r.value.addr == addr + size * index)
  {
    hide Eval, EvalAll, TypeOf, TypesOf, Operand;
    EvalHasType(p, env);
    EvalHasType(i, env);
    EvalAllTwo(p, i, env);
    EvalUnfolds(Node(op, [p, i]), env);
    var total, m := addr + size * index, 0x1_0000_0000_0000_0000;
    assert total == total % m + (total / m) * m;
  }

  /** Index 0 is the base, and the next element is one element further on while nothing wraps. */
  lemma ElementsApart(op: Op, p: Expr, i: Expr, j: Expr, env: map<nat, Value>, size: nat, addr: nat, index: int)
    requires Strides(op, TypeOf(p), size) && TypeOf(i) == Index && TypeOf(j) == Index
    requires Eval(p, env) == Some(AddrV(addr)) && addr < 0x1_0000_0000_0000_0000
    requires Eval(i, env) == Some(IndexV(index)) && Eval(j, env) == Some(IndexV(index + 1))
    requires 0 <= addr + size * index && addr + size * index + size < 0x1_0000_0000_0000_0000
    ensures var here, next := Eval(Node(op, [p, i]), env), Eval(Node(op, [p, j]), env);
            && here.Some? && here.value.AddrV? && next == Some(AddrV(here.value.addr + size))
            && (index == 0 ==> here.value.addr == addr)
  {
    hide Eval, TypeOf;
    assert size * (index + 1) == size * index + size;
    ElementAddress(op, p, i, env, size, addr, index);
    ElementAddress(op, p, j, env, size, addr, index + 1);
  }

  /** An offset by `i` elements of `s` bytes is an offset by `s * i` elements of one byte, wrapping or not. */
  lemma OffsetInBytes(op: Op, p: Expr, i: Expr, bytes: Expr, j: Expr, env: map<nat, Value>,
                      size: nat, addr: nat, index: int)
    requires Strides(op, TypeOf(p), size) && TypeOf(bytes) == Pointer(1) && TypeOf(i) == Index && TypeOf(j) == Index
    requires Eval(p, env) == Some(AddrV(addr)) && Eval(bytes, env) == Some(AddrV(addr))
    requires Eval(i, env) == Some(IndexV(index)) && Eval(j, env) == Some(IndexV(size * index))
    ensures Eval(Node(op, [p, i]), env) == Eval(Node(Offset, [bytes, j]), env)
  {
    hide Eval, TypeOf;
    ElementAddress(op, p, i, env, size, addr, index);
    ElementAddress(Offset, bytes, j, env, 1, addr, size * index);
    SameWrapped(addr + size * index, Eval(Node(op, [p, i]), env).value.addr,
                Eval(Node(Offset, [bytes, j]), env).value.addr);
  }

  lemma SameWrapped(total: int, a: nat, b: nat)
    requires a < 0x1_0000_0000_0000_0000 && b < 0x1_0000_0000_0000_0000
    requires exists k: int :: total == a + k * 0x1_0000_0000_0000_0000
    requires exists k: int :: total == b + k * 0x1_0000_0000_0000_0000
    ensures a == b
  {
  }

  // ----- lanes as integers -----

  /** Truncating division: what is left is smaller than the divisor, and on the dividend's side of zero. */
  predicate IsQuotient(n: int, d: int, q: int) {
    var left := n - q * d;
    && d != 0 && (if d > 0 then -d < left < d else d < left < -d)
    && (left > 0 ==> n > 0) && (left < 0 ==> n < 0)
  }

  /** The one quotient that two's complement does not have: of the least integer by -1. */
  predicate Overflows(ty: Ty, n: int, d: int)
    requires ty.Ints?
  {
    ty.isSigned && ty.width > 0 && 2 * n + Pow2(ty.width) == 0 && d == -1
  }

  lemma QuotientIsQuotient(n: int, d: int)
    requires d != 0
    ensures IsQuotient(n, d, Quotient(n, d))
  {
    if n >= 0 {
      assert n == (n / d) * d + n % d;
    } else {
      assert -n == ((-n) / d) * d + (-n) % d;
      assert (-((-n) / d)) * d == -(((-n) / d) * d);
    }
  }

  lemma InterpRange(w: nat, isSigned: bool, x: nat)
    requires x < Pow2(w)
    ensures if isSigned then 0 <= 2 * Interp(w, isSigned, x) + Pow2(w) && 2 * Interp(w, isSigned, x) < Pow2(w)
            else 0 <= Interp(w, isSigned, x) < Pow2(w)
  {
  }

  lemma QuotientRange(n: int, d: int, p: int)
    requires d != 0 && 0 <= 2 * n + p && 2 * n < p && !(2 * n == -p && d == -1)
    ensures 0 <= 2 * Quotient(n, d) + p && 2 * Quotient(n, d) < p
  {
    QuotientIsQuotient(n, d);
    QuotientAbs(n, d, Quotient(n, d));
  }

  lemma QuotientAbs(n: int, d: int, q: int)
    requires IsQuotient(n, d, q)
    ensures n >= 0 ==> -n <= q <= n
    ensures n <= 0 ==> n <= q <= -n
    ensures q == -n && n < 0 ==> d == -1
  {
    var left := n - q * d;
    if q > 0 && d > 0 { assert q * d >= q; }
    if q > 0 && d < 0 { assert q * d <= -q; if d <= -2 { assert q * d <= -2 * q; } }
    if q < 0 && d > 0 { assert q * d <= q; }
    if q < 0 && d < 0 { assert q * d >= -q; }
  }

  /** One lane: defined unless the divisor is zero, and then the quotient, unless there is none. */
  lemma DivLaneDivides(ty: Ty, x: nat, y: nat)
    requires ty.Ints? && x < Pow2(ty.width) && y < Pow2(ty.width)
    ensures var n, d := Interp(ty.width, ty.isSigned, x), Interp(ty.width, ty.isSigned, y);
            && (DivLane(ty, x, y).Some? <==> d != 0)
            && (d != 0 && !Overflows(ty, n, d) ==>
                  IsQuotient(n, d, Interp(ty.width, ty.isSigned, DivLane(ty, x, y).value)))
  {
    hide Pow2, IsQuotient, Quotient;
    var n, d := Interp(ty.width, ty.isSigned, x), Interp(ty.width, ty.isSigned, y);
    InterpRange(ty.width, ty.isSigned, x);
    InterpRange(ty.width, ty.isSigned, y);
    if d != 0 {
      QuotientIsQuotient(n, d);
      if ty.isSigned {
        if !Overflows(ty, n, d) {
          WidthZero(ty.width);
          QuotientRange(n, d, Pow2(ty.width));
          FitsRoundTrip(ty.width, true, Quotient(n, d));
        }
      } else {
        UnsignedQuotient(x, y);
      }
    }
  }

  lemma WidthZero(w: nat)
    ensures w == 0 ==> Pow2(w) == 1
  {
  }

  lemma UnsignedQuotient(x: nat, y: nat)
    requires y >= 1
    ensures Quotient(x, y) == x / y
  {
  }

  /** Division, on whole expressions: it has a value unless a divisor is zero, and every lane is the quotient. */
  lemma DivisionDivides(a: Expr, b: Expr, env: map<nat, Value>, ty: Ty, xs: seq<nat>, ys: seq<nat>)
    requires ty.Ints? && TypeOf(a) == TypeOf(b) == ty
    requires Eval(a, env) == Some(IntsV(xs)) && Eval(b, env) == Some(IntsV(ys))
    ensures |xs| == |ys| == ty.size
    ensures var r := Eval(Node(Div, [a, b]), env);
            && (r.Some? <==> forall i :: 0 <= i < |ys| ==> Interp(ty.width, ty.isSigned, ys[i]) != 0)
            && (r.Some? ==>
                  && r.value.IntsV? && |r.value.lanes| == |xs|
                  && forall i :: 0 <= i < |xs| ==>
                       var n, d := Interp(ty.width, ty.isSigned, xs[i]), Interp(ty.width, ty.isSigned, ys[i]);
                       Overflows(ty, n, d) || IsQuotient(n, d, Interp(ty.width, ty.isSigned, r.value.lanes[i])))
  {
    hide Eval, EvalAll, TypeOf, TypesOf, Operand, LaneWise, DivLane, Interp, Overflows, IsQuotient, Pow2;
    EvalHasType(a, env);
    EvalHasType(b, env);
    EvalAllTwo(a, b, env);
    EvalUnfolds(Node(Div, [a, b]), env);
    LaneWiseDefined(ty, xs, ys, true);
    forall i | 0 <= i < |xs|
      ensures xs[i] < Pow2(ty.width) && ys[i] < Pow2(ty.width)
    {
      assert xs[i] in xs && ys[i] in ys;
    }
    forall i | 0 <= i < |xs|
      ensures DivLane(ty, xs[i], ys[i]).Some? <==> Interp(ty.width, ty.isSigned, ys[i]) != 0
    {
      DivLaneDivides(ty, xs[i], ys[i]);
    }
    if LaneWise(ty, xs, ys, true).Some? {
      forall i | 0 <= i < |xs|
        ensures var n, d := Interp(ty.width, ty.isSigned, xs[i]), Interp(ty.width, ty.isSigned, ys[i]);
                Overflows(ty, n, d)
                || IsQuotient(n, d, Interp(ty.width, ty.isSigned, LaneWise(ty, xs, ys, true).value[i]))
      {
        LaneWiseAt(ty, xs, ys, true, i);
        DivLaneDivides(ty, xs[i], ys[i]);
      }
    }
  }

  /** A shift right by less than the width is division by the power of two, rounded down. */
  predicate IsShifted(n: int, amount: nat, r: int) { r * Pow2(amount) <= n < (r + 1) * Pow2(amount) }

  lemma ShrLaneShifts(ty: Ty, x: nat, y: nat)
    requires ty.Ints? && x < Pow2(ty.width)
    ensures ShrLane(ty, x, y).Some? <==> y < ty.width
    ensures y < ty.width ==>
              IsShifted(Interp(ty.width, ty.isSigned, x), y, Interp(ty.width, ty.isSigned, ShrLane(ty, x, y).value))
  {
    hide Pow2;
    if y < ty.width {
      var n, p := Interp(ty.width, ty.isSigned, x), Pow2(y);
      InterpRange(ty.width, ty.isSigned, x);
      FloorRange(n, p);
      assert (n / p + 1) * p == n / p * p + p;
      FitsRoundTrip(ty.width, ty.isSigned, n / p);
    }
  }

  lemma ShiftRounds(a: Expr, b: Expr, env: map<nat, Value>, ty: Ty, xs: seq<nat>, ys: seq<nat>)
    requires ty.Ints? && TypeOf(a) == TypeOf(b) == ty
    requires Eval(a, env) == Some(IntsV(xs)) && Eval(b, env) == Some(IntsV(ys))
    ensures |xs| == |ys| == ty.size
    ensures var r := Eval(Node(Shr, [a, b]), env);
            && (r.Some? <==> forall i :: 0 <= i < |ys| ==> ys[i] < ty.width)
            && (r.Some? ==>
                  && r.value.IntsV? && |r.value.lanes| == |xs|
                  && forall i :: 0 <= i < |xs| ==>
                       IsShifted(Interp(ty.width, ty.isSigned, xs[i]), ys[i],
                                 Interp(ty.width, ty.isSigned, r.value.lanes[i])))
  {
    hide Eval, EvalAll, TypeOf, TypesOf, Operand, LaneWise, ShrLane, Interp, IsShifted, Pow2;
    EvalHasType(a, env);
    EvalHasType(b, env);
    EvalAllTwo(a, b, env);
    EvalUnfolds(Node(Shr, [a, b]), env);
    LaneWiseDefined(ty, xs, ys, false);
    forall i | 0 <= i < |xs|
      ensures xs[i] < Pow2(ty.width) && (ShrLane(ty, xs[i], ys[i]).Some? <==> ys[i] < ty.width)
    {
      assert xs[i] in xs;
      ShrLaneShifts(ty, xs[i], ys[i]);
    }
    if LaneWise(ty, xs, ys, false).Some? {
      forall i | 0 <= i < |xs|
        ensures IsShifted(Interp(ty.width, ty.isSigned, xs[i]), ys[i],
                          Interp(ty.width, ty.isSigned, LaneWise(ty, xs, ys, false).value[i]))
      {
        LaneWiseAt(ty, xs, ys, false, i);
        ShrLaneShifts(ty, xs[i], ys[i]);
      }
    }
  }

  /** On an unsigned lane, a shift right by `n` undoes multiplication by `2^n`. */
  lemma ShiftUndoesMultiplication(m: nat, n: nat, r: int)
    requires IsShifted(m * Pow2(n), n, r)
    ensures r == m
  {
    hide Pow2;
    var p := Pow2(n);
    if r < m { StepInt(p, r, m); }
    if r > m { StepInt(p, m, r); }
    assert (r + 1) * p == r * p + p;
  }

  /** On whole expressions: a shift of unsigned lanes gives the numbers that were multiplied. */
  lemma ShiftRecovers(a: Expr, b: Expr, env: map<nat, Value>, ty: Ty, xs: seq<nat>, ys: seq<nat>, ms: seq<nat>)
    requires ty.Ints? && !ty.isSigned && TypeOf(a) == TypeOf(b) == ty && |ms| == |xs| == |ys|
    requires Eval(a, env) == Some(IntsV(xs)) && Eval(b, env) == Some(IntsV(ys))
    requires forall i :: 0 <= i < |xs| ==> xs[i] == ms[i] * Pow2(ys[i]) && ys[i] < ty.width
    ensures Eval(Node(Shr, [a, b]), env) == Some(IntsV(ms))
  {
    hide Eval, TypeOf, IsShifted, Pow2;
    ShiftRounds(a, b, env, ty, xs, ys);
    var zs := Eval(Node(Shr, [a, b]), env).value.lanes;
    forall i | 0 <= i < |xs|
      ensures zs[i] == ms[i]
    {
      ShiftUndoesMultiplication(ms[i], ys[i], zs[i]);
    }
    assert zs == ms;
  }

  /** An integer of the type: below 2^w, or from -2^(w-1) to below 2^(w-1). */
  predicate InRange(ty: Ty, v: int)
    requires ty.Ints?
  {
    if ty.isSigned then 0 <= 2 * v + Pow2(ty.width) && 2 * v < Pow2(ty.width) else 0 <= v < Pow2(ty.width)
  }

  /** An integer that the target type has is kept by a cast; any other is kept modulo the target's power of two. */
  lemma CastKeepsIntegers(a: Expr, env: map<nat, Value>, from: Ty, to: Ty, xs: seq<nat>)
    requires from.Ints? && to.Ints? && from.size == to.size && TypeOf(a) == from && Eval(a, env) == Some(IntsV(xs))
    ensures var r := Eval(Node(Cast(to), [a]), env);
            && r.Some? && r.value.IntsV? && |r.value.lanes| == |xs| == to.size
            && forall i :: 0 <= i < |xs| ==>
                 var v, lane := Interp(from.width, from.isSigned, xs[i]), r.value.lanes[i];
                 && (lane - v) % Pow2(to.width) == 0 && lane < Pow2(to.width)
                 && (InRange(to, v) ==> Interp(to.width, to.isSigned, lane) == v)
  {
    hide Eval, EvalAll, TypeOf, TypesOf, Operand, Pow2, CastLane;
    EvalHasType(a, env);
    EvalAllOne(a, env);
    EvalUnfolds(Node(Cast(to), [a]), env);
    forall i | 0 <= i < |xs|
      ensures var v, lane := Interp(from.width, from.isSigned, xs[i]), CastLane(from, to, xs[i]);
              && (lane - v) % Pow2(to.width) == 0 && lane < Pow2(to.width)
              && (InRange(to, v) ==> Interp(to.width, to.isSigned, lane) == v)
    {
      CastLaneKeeps(from, to, xs[i]);
    }
  }

  lemma CastLaneKeeps(from: Ty, to: Ty, x: nat)
    requires from.Ints? && to.Ints?
    ensures var v, lane := Interp(from.width, from.isSigned, x), CastLane(from, to, x);
            && (lane - v) % Pow2(to.width) == 0 && lane < Pow2(to.width)
            && (InRange(to, v) ==> Interp(to.width, to.isSigned, lane) == v)
  {
    hide Pow2;
    var v, p := Interp(from.width, from.isSigned, x), Pow2(to.width);
    WrappedDiffers(v, p);
    if InRange(to, v) {
      FitsRoundTrip(to.width, to.isSigned, v);
    }
  }

  // ----- in numbers -----

  function Number(i: int): Expr { Node(IndexConst(i), []) }

  function Byte(x: nat, isSigned: bool): Expr { Node(IntConst([x], Ints(1, 8, isSigned)), []) }

  lemma Numbers(i: int, x: nat, env: map<nat, Value>)
    requires INDEX_MIN <= i <= INDEX_MAX && x < 256
    ensures Eval(Number(i), env) == Some(IndexV(i)) && TypeOf(Number(i)) == Index
    ensures forall isSigned :: Eval(Byte(x, isSigned), env) == Some(IntsV([x]))
    ensures forall isSigned :: TypeOf(Byte(x, isSigned)) == Ints(1, 8, isSigned)
  {
    Eight();
    hide Pow2;
    assert EvalAll([], env) == Some([]) && TypesOf([]) == [];
    assert HasType(IntsV([x]), Ints(1, 8, false)) && HasType(IntsV([x]), Ints(1, 8, true));
  }

  lemma Eight()
    ensures Pow2(8) == 256 && Pow2(16) == 0x1_0000
  {
  }

  /** `select true, 1, 2` is 1 and `select false, 1, 2` is 2. */
  lemma SelectInNumbers(flag: bool, env: map<nat, Value>)
    ensures Eval(Node(Select, [Node(BoolConst([flag]), []), Number(1), Number(2)]), env) ==
            Some(IndexV(if flag then 1 else 2))
  {
    LeavesMeanThemselves(0, Index, [], [flag], 0, env);
    assert TypesOf([]) == [];
    hide Eval;
    Numbers(1, 0, env);
    Numbers(2, 0, env);
    SelectTakesArm(Node(BoolConst([flag]), []), Number(1), Number(2), env, flag);
  }

  /** Element 3 of eight-byte elements from address 100 is at 124, by `offset` and by `array.gep`. */
  lemma AddressInNumbers(p: Expr, a: Expr, env: map<nat, Value>)
    requires TypeOf(p) == Pointer(8) && Eval(p, env) == Some(AddrV(100))
    requires TypeOf(a) == ArrayPointer(8) && Eval(a, env) == Some(AddrV(100))
    ensures Eval(Node(Offset, [p, Number(3)]), env) == Some(AddrV(124))
    ensures Eval(Node(ArrayGep, [a, Number(3)]), env) == Some(AddrV(124))
  {
    hide Eval, TypeOf;
    Numbers(3, 0, env);
    ElementAddress(Offset, p, Number(3), env, 8, 100, 3);
    ElementAddress(ArrayGep, a, Number(3), env, 8, 100, 3);
  }

  /** -7 / 2 is -3 (lane 253), 249 / 2 is 124, and 249 >> 1 is -4 (lane 252) signed and 124 unsigned. */
  lemma DivisionInNumbers(env: map<nat, Value>)
    ensures Eval(Node(Div, [Byte(249, true), Byte(2, true)]), env) == Some(IntsV([253]))
    ensures Eval(Node(Div, [Byte(249, false), Byte(2, false)]), env) == Some(IntsV([124]))
    ensures Eval(Node(Shr, [Byte(249, true), Byte(1, true)]), env) == Some(IntsV([252]))
    ensures Eval(Node(Shr, [Byte(249, false), Byte(1, false)]), env) == Some(IntsV([124]))
  {
    LanesInNumbers();
    hide Eval, DivLane, ShrLane;
    BinaryByte(Div, 249, 2, true, env);
    BinaryByte(Div, 249, 2, false, env);
    BinaryByte(Shr, 249, 1, true, env);
    BinaryByte(Shr, 249, 1, false, env);
  }

  lemma LanesInNumbers()
    ensures DivLane(Ints(1, 8, true), 249, 2) == Some(253) && DivLane(Ints(1, 8, false), 249, 2) == Some(124)
    ensures ShrLane(Ints(1, 8, true), 249, 1) == Some(252) && ShrLane(Ints(1, 8, false), 249, 1) == Some(124)
  {
    Eight();
    assert Pow2(1) == 2;
  }

  lemma OneLane(ty: Ty, x: nat, y: nat, isDiv: bool)
    requires ty.Ints?
    ensures LaneWise(ty, [x], [y], isDiv) ==
            var z := if isDiv then DivLane(ty, x, y) else ShrLane(ty, x, y);
            if z.None? then None else Some([z.value])
  {
    hide DivLane, ShrLane;
    assert [x][1..] == [] && [y][1..] == [] && LaneWise(ty, [], [], isDiv) == Some([]);
    var z := if isDiv then DivLane(ty, x, y) else ShrLane(ty, x, y);
    if z.Some? { assert [z.value] + [] == [z.value]; }
  }

  /** A binary operation on two bytes is its lane function. */
  lemma BinaryByte(op: Op, x: nat, y: nat, isSigned: bool, env: map<nat, Value>)
    requires (op.Div? || op.Shr?) && x < 256 && y < 256
    ensures var ty := Ints(1, 8, isSigned);
            var z := if op.Div? then DivLane(ty, x, y) else ShrLane(ty, x, y);
            Eval(Node(op, [Byte(x, isSigned), Byte(y, isSigned)]), env) ==
            if z.None? then None else Some(IntsV([z.value]))
  {
    hide Eval, EvalAll, TypeOf, TypesOf, Operand, DivLane, ShrLane, Pow2, LaneWise, Byte;
    Numbers(0, x, env);
    Numbers(0, y, env);
    var a, b, ty := Byte(x, isSigned), Byte(y, isSigned), Ints(1, 8, isSigned);
    EvalHasType(a, env);
    EvalHasType(b, env);
    EvalAllTwo(a, b, env);
    EvalUnfolds(Node(op, [a, b]), env);
    OneLane(ty, x, y, op.Div?);
    assert TypesOf([a, b]) == [ty, ty];
    var vs := [IntsV([x]), IntsV([y])];
    assert EvalAll([a, b], env) == Some(vs);
    if op.Div? {
      assert Apply(op, [ty, ty], vs, env) == ApplyLaneWise([ty, ty], vs, true);
    } else {
      assert Apply(op, [ty, ty], vs, env) == ApplyLaneWise([ty, ty], vs, false);
    }
  }

  /** A byte 200 cast to sixteen bits is 200, or -56 (lane 65480) if signed; and 0x1C8 cast to a byte is 200. */
  lemma CastInNumbers()
    ensures CastLane(Ints(1, 8, false), Ints(1, 16, false), 200) == 200
    ensures CastLane(Ints(1, 8, true), Ints(1, 16, false), 200) == 65480
    ensures CastLane(Ints(1, 16, false), Ints(1, 8, true), 0x1C8) == 200
  {
    Eight();
  }
}
