/**
 A small language of POP operations with its evaluator: integer vectors, boolean vectors,
 addresses and indices.  Operands are always evaluated, as in SSA form.
 */
module PopExpr {
  import opened Options
  import opened Powers
  import opened Modular

  /** `Ints` and `Bools` are vectors; a pointer knows the alloc size its element strides by. */
  datatype Ty =
    | Ints(size: nat, width: nat, isSigned: bool)
    | Bools(size: nat)
    | Pointer(elSize: nat)
    | ArrayPointer(stride: nat)
    | Index

  datatype Value = IntsV(lanes: seq<nat>) | BoolsV(flags: seq<bool>) | AddrV(addr: nat) | IndexV(index: int)

  datatype Op =
    | Var(id: nat, ty: Ty)
    | IntConst(lanes: seq<nat>, ty: Ty)
    | BoolConst(flags: seq<bool>)
    | IndexConst(index: int)
    | Div | Shr
    | Cast(ty: Ty)
    | Offset | ArrayGep
    | Select | SimdSelect | XOr

  datatype Expr = Node(op: Op, kids: seq<Expr>)

  /** Addresses are 64-bit and wrap. */
  const ADDRESS_SPACE: nat := 0x1_0000_0000_0000_0000
  const INDEX_MAX: int := 0x7FFF_FFFF_FFFF_FFFF
  const INDEX_MIN: int := -0x8000_0000_0000_0000

  // ----- types -----

  function ResultType(op: Op, tys: seq<Ty>): Ty {
    match op
    case Var(_, ty) => ty
    case IntConst(_, ty) => ty
    case BoolConst(flags) => Bools(|flags|)
    case IndexConst(_) => Index
    case Cast(ty) => ty
    case ArrayGep => if |tys| > 0 && tys[0].ArrayPointer? then Pointer(tys[0].stride) else Index
    case Select => if |tys| > 1 then tys[1] else Index
    case SimdSelect => if |tys| > 1 then tys[1] else Index
    case _ => if |tys| > 0 then tys[0] else Index
  }

  function TypeOf(e: Expr): Ty {
    ResultType(e.op, TypesOf(e.kids))
  }

  function TypesOf(es: seq<Expr>): (r: seq<Ty>)
    ensures |r| == |es| && forall i :: 0 <= i < |es| ==> r[i] == TypeOf(es[i])
  {
    if es == [] then [] else [TypeOf(es[0])] + TypesOf(es[1..])
  }

  predicate HasType(v: Value, ty: Ty) {
    match ty
    case Ints(n, w, _) => v.IntsV? && |v.lanes| == n && forall x <- v.lanes :: x < Pow2(w)
    case Bools(n) => v.BoolsV? && |v.flags| == n
    case Pointer(_) => v.AddrV? && v.addr < ADDRESS_SPACE
    case ArrayPointer(_) => v.AddrV? && v.addr < ADDRESS_SPACE
    case Index => v.IndexV? && INDEX_MIN <= v.index <= INDEX_MAX
  }

  // ----- lanes -----

  /** The integer a lane stands for under its signedness. */
  function Interp(w: nat, isSigned: bool, x: nat): int {
    if isSigned && 2 * x >= Pow2(w) then x - Pow2(w) else x
  }

  function Wrap(w: nat, v: int): nat { v % Pow2(w) }

  /** Division that truncates toward zero. */
  function Quotient(a: int, b: int): int
    requires b != 0
  {
    if a >= 0 then a / b else -((-a) / b)
  }

  function CastLane(from: Ty, to: Ty, x: nat): nat
    requires from.Ints? && to.Ints?
  {
    Wrap(to.width, Interp(from.width, from.isSigned, x))
  }

  function DivLane(ty: Ty, x: nat, y: nat): Option<nat>
    requires ty.Ints?
  {
    if y == 0 then None
    else if !ty.isSigned then Some(x / y)
    else
      var b := Interp(ty.width, true, y);
      if b == 0 then None else Some(Wrap(ty.width, Quotient(Interp(ty.width, true, x), b)))
  }

  /** Logical on unsigned lanes, arithmetic on signed ones; no value for an oversized amount. */
  function ShrLane(ty: Ty, x: nat, y: nat): Option<nat>
    requires ty.Ints?
  {
    if y >= ty.width then None
    else Some(Wrap(ty.width, Interp(ty.width, ty.isSigned, x) / Pow2(y)))
  }

  /** A value that fits survives being wrapped and read back. */
  lemma FitsRoundTrip(w: nat, isSigned: bool, v: int)
    requires if isSigned then 0 <= 2 * v + Pow2(w) && 2 * v < Pow2(w) else 0 <= v < Pow2(w)
    ensures Interp(w, isSigned, Wrap(w, v)) == v
  {
    hide Pow2;
    var p := Pow2(w);
    if v >= 0 {
      ModUnique(v, p, 0, v);
    } else {
      ModUnique(v, p, -1, v + p);
    }
  }

  // ----- evaluation -----

  function LaneWise(ty: Ty, xs: seq<nat>, ys: seq<nat>, isDiv: bool): Option<seq<nat>>
    requires ty.Ints? && |xs| == |ys|
  {
    if xs == [] then Some([])
    else
      var head := if isDiv then DivLane(ty, xs[0], ys[0]) else ShrLane(ty, xs[0], ys[0]);
      var tail := LaneWise(ty, xs[1..], ys[1..], isDiv);
      if head.None? || tail.None? then None else Some([head.value] + tail.value)
  }

  function Advance(addr: nat, size: nat, index: int): nat { (addr + size * index) % ADDRESS_SPACE }

  function PickLanes(cond: seq<bool>, a: seq<nat>, b: seq<nat>): seq<nat>
    requires |cond| == |a| == |b|
  {
    seq(|cond|, i requires 0 <= i < |cond| => if cond[i] then a[i] else b[i])
  }

  function PickFlags(cond: seq<bool>, a: seq<bool>, b: seq<bool>): seq<bool>
    requires |cond| == |a| == |b|
  {
    seq(|cond|, i requires 0 <= i < |cond| => if cond[i] then a[i] else b[i])
  }

  function XOrFlags(a: seq<bool>, b: seq<bool>): seq<bool>
    requires |a| == |b|
  {
    seq(|a|, i requires 0 <= i < |a| => a[i] != b[i])
  }

  /** One operation on well-typed operands; anything else has no value. */
  function Apply(op: Op, tys: seq<Ty>, vs: seq<Value>, env: map<nat, Value>): Option<Value>
    requires |tys| == |vs| && forall i :: 0 <= i < |vs| ==> HasType(vs[i], tys[i])
  {
    match op
    case Var(id, ty) => if id in env && HasType(env[id], ty) then Some(env[id]) else None
    case IntConst(lanes, ty) => if HasType(IntsV(lanes), ty) then Some(IntsV(lanes)) else None
    case BoolConst(flags) => Some(BoolsV(flags))
    case IndexConst(i) => if INDEX_MIN <= i <= INDEX_MAX then Some(IndexV(i)) else None
    case Cast(ty) =>
      if |tys| == 1 && tys[0].Ints? && ty.Ints? && tys[0].size == ty.size
      then
        assert HasType(vs[0], tys[0]);
        Some(IntsV(seq(ty.size, i requires 0 <= i < ty.size => CastLane(tys[0], ty, vs[0].lanes[i]))))
      else None
    case Div => ApplyLaneWise(tys, vs, true)
    case Shr => ApplyLaneWise(tys, vs, false)
    case Offset =>
      if |tys| == 2 && tys[0].Pointer? && tys[1].Index?
      then
        assert HasType(vs[0], tys[0]); assert HasType(vs[1], tys[1]);
        Some(AddrV(Advance(vs[0].addr, tys[0].elSize, vs[1].index)))
      else None
    case ArrayGep =>
      if |tys| == 2 && tys[0].ArrayPointer? && tys[1].Index?
      then
        assert HasType(vs[0], tys[0]); assert HasType(vs[1], tys[1]);
        Some(AddrV(Advance(vs[0].addr, tys[0].stride, vs[1].index)))
      else None
    case Select =>
      if |tys| == 3 && tys[0] == Bools(1) && tys[1] == tys[2]
      then
        assert HasType(vs[0], tys[0]);
        Some(if vs[0].flags[0] then vs[1] else vs[2])
      else None
    case SimdSelect =>
      if !(|tys| == 3 && tys[0].Bools? && tys[1] == tys[2]) then None
      else
        assert HasType(vs[0], tys[0]); assert HasType(vs[1], tys[1]); assert HasType(vs[2], tys[2]);
        if tys[1] == Bools(tys[0].size) then Some(BoolsV(PickFlags(vs[0].flags, vs[1].flags, vs[2].flags)))
        else if tys[1].Ints? && tys[1].size == tys[0].size
        then Some(IntsV(PickLanes(vs[0].flags, vs[1].lanes, vs[2].lanes)))
        else None
    case XOr =>
      if |tys| == 2 && tys[0].Bools? && tys[0] == tys[1]
      then
        assert HasType(vs[0], tys[0]); assert HasType(vs[1], tys[1]);
        Some(BoolsV(XOrFlags(vs[0].flags, vs[1].flags)))
      else None
  }

  function ApplyLaneWise(tys: seq<Ty>, vs: seq<Value>, isDiv: bool): Option<Value>
    requires |tys| == |vs| && forall i :: 0 <= i < |vs| ==> HasType(vs[i], tys[i])
  {
    if |tys| == 2 && tys[0].Ints? && tys[0] == tys[1]
    then
      assert HasType(vs[0], tys[0]); assert HasType(vs[1], tys[1]);
      var r := LaneWise(tys[0], vs[0].lanes, vs[1].lanes, isDiv);
      if r.Some? then Some(IntsV(r.value)) else None
    else None
  }

  /** The value of an expression, if every operand has one of its own type. */
  function Eval(e: Expr, env: map<nat, Value>): Option<Value>
    decreases e, 1
  {
    var vs := EvalAll(e.kids, env);
    if vs.None? then None else Apply(e.op, TypesOf(e.kids), vs.value, env)
  }

  function EvalAll(es: seq<Expr>, env: map<nat, Value>): (r: Option<seq<Value>>)
    ensures r.Some? ==> |r.value| == |es| && forall i :: 0 <= i < |es| ==> HasType(r.value[i], TypeOf(es[i]))
    decreases es, 0
  {
    if es == [] then Some([])
    else
      var v := Eval(es[0], env);
      var rest := EvalAll(es[1..], env);
      if v.None? || rest.None? || !HasType(v.value, TypeOf(es[0])) then None else Some([v.value] + rest.value)
  }

  lemma {:induction false} EvalAllAt(es: seq<Expr>, env: map<nat, Value>, i: nat)
    requires i < |es| && EvalAll(es, env).Some?
    ensures Eval(es[i], env) == Some(EvalAll(es, env).value[i])
    decreases |es|
  {
    if i > 0 {
      EvalAllAt(es[1..], env, i - 1);
    }
  }

  /** Two expressions with values for the first: the second has the same. */
  ghost predicate Refines(before: Expr, after: Expr) {
    && TypeOf(after) == TypeOf(before)
    && forall env :: Eval(before, env).Some? ==> Eval(after, env) == Eval(before, env)
  }

  /** Replacing an operand by a refinement refines the whole. */
  lemma {:induction false} EvalAllRefines(es: seq<Expr>, i: nat, e': Expr, env: map<nat, Value>)
    requires i < |es| && Refines(es[i], e') && EvalAll(es, env).Some?
    ensures EvalAll(es[i := e'], env) == EvalAll(es, env)
    decreases |es|
  {
    var es' := es[i := e'];
    if i == 0 {
      assert es'[1..] == es[1..];
    } else {
      assert es'[1..] == es[1..][i - 1 := e'];
      EvalAllRefines(es[1..], i - 1, e', env);
    }
  }

  lemma OperandRefines(e: Expr, i: nat, e': Expr)
    requires i < |e.kids| && Refines(e.kids[i], e')
    ensures Refines(e, Node(e.op, e.kids[i := e']))
  {
    var after := Node(e.op, e.kids[i := e']);
    assert TypesOf(after.kids) == TypesOf(e.kids);
    forall env | Eval(e, env).Some?
      ensures Eval(after, env) == Eval(e, env)
    {
      EvalAllRefines(e.kids, i, e', env);
    }
  }

  // ----- operands, one by one -----

  /** A value of the operand's own type. */
  function Operand(e: Expr, env: map<nat, Value>): Option<Value> {
    var v := Eval(e, env);
    if v.Some? && HasType(v.value, TypeOf(e)) then v else None
  }

  lemma EvalAllCons(a: Expr, rest: seq<Expr>, env: map<nat, Value>)
    ensures EvalAll([a] + rest, env) ==
            if Operand(a, env).Some? && EvalAll(rest, env).Some?
            then Some([Operand(a, env).value] + EvalAll(rest, env).value) else None
    ensures TypesOf([a] + rest) == [TypeOf(a)] + TypesOf(rest)
  {
    assert ([a] + rest)[1..] == rest && ([a] + rest)[0] == a;
  }

  lemma EvalAllOne(a: Expr, env: map<nat, Value>)
    ensures EvalAll([a], env) == if Operand(a, env).Some? then Some([Operand(a, env).value]) else None
    ensures TypesOf([a]) == [TypeOf(a)]
  {
    assert EvalAll([], env) == Some([]) && TypesOf([]) == [];
    hide EvalAll, Operand, TypeOf, TypesOf;
    EvalAllCons(a, [], env);
    assert [a] + [] == [a];
    if Operand(a, env).Some? {
      var v := Operand(a, env).value;
      assert [v] + [] == [v];
    }
  }

  lemma EvalAllTwo(a: Expr, b: Expr, env: map<nat, Value>)
    ensures EvalAll([a, b], env) ==
            if Operand(a, env).Some? && Operand(b, env).Some?
            then Some([Operand(a, env).value, Operand(b, env).value]) else None
    ensures TypesOf([a, b]) == [TypeOf(a), TypeOf(b)]
  {
    hide *;
    EvalAllCons(a, [b], env);
    EvalAllOne(b, env);
    assert [a] + [b] == [a, b];
    if Operand(a, env).Some? && Operand(b, env).Some? {
      var v, w := Operand(a, env).value, Operand(b, env).value;
      assert [v] + [w] == [v, w];
    }
  }

  lemma EvalAllThree(a: Expr, b: Expr, c: Expr, env: map<nat, Value>)
    ensures EvalAll([a, b, c], env) ==
            if Operand(a, env).Some? && Operand(b, env).Some? && Operand(c, env).Some?
            then Some([Operand(a, env).value, Operand(b, env).value, Operand(c, env).value]) else None
    ensures TypesOf([a, b, c]) == [TypeOf(a), TypeOf(b), TypeOf(c)]
  {
    hide *;
    EvalAllCons(a, [b, c], env);
    EvalAllTwo(b, c, env);
    assert [a] + [b, c] == [a, b, c];
    if Operand(a, env).Some? && Operand(b, env).Some? && Operand(c, env).Some? {
      var u, v, w := Operand(a, env).value, Operand(b, env).value, Operand(c, env).value;
      assert [u] + [v, w] == [u, v, w];
    }
  }

  /** An expression with a value: its operands' types and values, and the operation on them. */
  lemma EvalUnfolds(e: Expr, env: map<nat, Value>)
    ensures Eval(e, env) ==
            var vs := EvalAll(e.kids, env);
            if vs.None? then None else Apply(e.op, TypesOf(e.kids), vs.value, env)
    ensures TypeOf(e) == ResultType(e.op, TypesOf(e.kids))
  {
    hide Apply;
  }

  lemma OperandHasType(e: Expr, env: map<nat, Value>)
    requires Operand(e, env).Some?
    ensures HasType(Operand(e, env).value, TypeOf(e)) && Eval(e, env) == Operand(e, env)
  {
    hide Eval, TypeOf;
  }

  lemma TypeUnfolds(e: Expr)
    ensures TypeOf(e) == ResultType(e.op, TypesOf(e.kids))
  {
  }
}
