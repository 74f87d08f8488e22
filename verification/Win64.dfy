/**
 The Microsoft x64 convention ("x64 calling convention", sections "Parameter passing" and
 "Return values"): a struct of 1, 2, 4 or 8 bytes travels as the integer of that size, any other
 by reference.  Together with the rewrite this loses no byte that carries data.
 */
module Win64 {
  import opened Options
  import opened Powers
  import opened DataLayout
  import opened CAbiRewrite
  import opened CAbiMemory

  const IDENTITY: Coercion := Coercion(NoClass, None, None, false, false, false)

  function IndirectArgument(useByval: bool): Coercion { Coercion(Memory, None, None, true, useByval, false) }

  const SRET: Coercion := Coercion(Memory, None, None, false, false, true)

  /** 1 to 8 bytes, rounded up to a machine integer. */
  function IntegerTypeForSize(size: nat): Type
    requires 1 <= size <= 8
  {
    Int(if size == 1 then 8 else if size == 2 then 16 else if size <= 4 then 32 else 64)
  }

  function SmallIntegerStruct(size: nat): Coercion
    requires 1 <= size <= 8
  {
    Coercion(Integer, Some(IntegerTypeForSize(size)), None, false, false, false)
  }

  function ClassifyAggregate(t: Target, ty: Type, useSRet: bool): Coercion
    requires ValidTarget(t)
  {
    if !ty.Struct? then IDENTITY
    else
      var size := StoreSize(t, ty);
      if size > 8 || !IsPow2(size) then (if useSRet then SRET else IndirectArgument(false))
      else SmallIntegerStruct(size)
  }

  function ClassifyArgument(t: Target, ty: Type): Coercion
    requires ValidTarget(t)
  {
    if ty.Arr? then IndirectArgument(false) else ClassifyAggregate(t, ty, false)
  }

  function ClassifyReturn(t: Target, ty: Type): Coercion
    requires ValidTarget(t)
  {
    ClassifyAggregate(t, ty, true)
  }

  lemma SmallPowers(size: nat)
    ensures size <= 8 && IsPow2(size) <==> size in {1, 2, 4, 8}
  {
    if size <= 8 {
      assert IsPow2(1) && IsPow2(2) && IsPow2(4) && IsPow2(8);
      assert !IsPow2(0) && !IsPow2(3) && !IsPow2(5) && !IsPow2(6) && !IsPow2(7);
    }
  }

  /** The rule: in a register as the integer of exactly its size, or by reference; never in two registers. */
  lemma StructRule(t: Target, ty: Type, useSRet: bool)
    requires ValidTarget(t) && ty.Struct?
    ensures var c, size := ClassifyAggregate(t, ty, useSRet), StoreSize(t, ty);
            if size in {1, 2, 4, 8}
            then c.coercedType == Some(Int(8 * size)) && !c.IsIdentity() && !c.useIndirect && !c.useSRet
            else
              && c.coercedType == None
              && (if useSRet then c.useSRet && !c.useIndirect else c.useIndirect && !c.useByval)
    ensures !ClassifyAggregate(t, ty, useSRet).IsTwoRegister()
  {
    hide StoreSize;
    SmallPowers(StoreSize(t, ty));
  }

  /** The register is as wide as the struct, so storing it never overruns the struct's stack slot. */
  lemma CoercionFitsSlot(t: Target, ty: Type, useSRet: bool)
    requires ValidTarget(t) && ty.Struct? && ClassifyAggregate(t, ty, useSRet).coercedType.Some?
    ensures var coerced := ClassifyAggregate(t, ty, useSRet).coercedType.value;
            StoreSize(t, coerced) == StoreSize(t, ty) <= AllocSize(t, ty)
  {
    StructRule(t, ty, useSRet);
    var size := StoreSize(t, ty);
    assert StoreSize(t, Int(8 * size)) == BytesFor(8 * size) == size;
    AllocUnfolds(t, ty);
  }

  lemma ClassesAreValid(t: Target, ty: Type)
    requires ValidTarget(t)
    ensures ValidArg(ClassifyArgument(t, ty)) && |Lanes(ClassifyArgument(t, ty), ty)| == 1
    ensures ValidRet(ClassifyReturn(t, ty)) && !ClassifyReturn(t, ty).IsTwoRegister()
  {
  }

  /** Classify a signature: every argument by itself, whatever its position; no result stays unclassified. */
  method ComputeSignatureInfo(t: Target, args: seq<Type>, ret: Option<Type>)
      returns (infos: seq<Coercion>, retInfo: Coercion)
    requires ValidTarget(t)
    ensures |infos| == |args| && forall i :: 0 <= i < |args| ==> infos[i] == ClassifyArgument(t, args[i])
    ensures retInfo == if ret.Some? then ClassifyReturn(t, ret.value) else IDENTITY
    ensures (forall c <- infos :: ValidArg(c)) && ValidRet(retInfo)
  {
    hide ClassifyArgument;
    retInfo := IDENTITY;
    if ret.Some? {
      retInfo := ClassifyReturn(t, ret.value);
      ClassesAreValid(t, ret.value);
    }
    infos := [];
    for i := 0 to |args|
      invariant |infos| == i && forall j :: 0 <= j < i ==> infos[j] == ClassifyArgument(t, args[j])
      invariant forall c <- infos :: ValidArg(c)
    {
      ClassesAreValid(t, args[i]);
      infos := infos + [ClassifyArgument(t, args[i])];
    }
  }

  // ----- the signature -----

  /** A struct that travels in a register. */
  predicate InRegister(t: Target, ty: Type)
    requires ValidTarget(t)
  {
    ty.Struct? && StoreSize(t, ty) in {1, 2, 4, 8}
  }

  /** What a parameter of the type becomes: structs an integer of their size or a pointer, arrays a pointer. */
  function ParamType(t: Target, ty: Type): Type
    requires ValidTarget(t)
  {
    if InRegister(t, ty) then Int(8 * StoreSize(t, ty)) else if ty.Struct? || ty.Arr? then Ptr else ty
  }

  /** After the hidden pointer, every argument has one parameter, in order. */
  predicate ParamsFollow(t: Target, params: seq<Type>, hidden: nat, tys: seq<Type>)
    requires ValidTarget(t)
  {
    |params| == hidden + |tys| && forall i :: 0 <= i < |tys| ==> params[hidden + i] == ParamType(t, tys[i])
  }

  /** What a result becomes: structs an integer of their size or nothing, in favour of a hidden pointer. */
  function ResultType(t: Target, result: Result): Result
    requires ValidTarget(t)
  {
    if result.Void? || !result.ty.Struct? then result
    else if InRegister(t, result.ty) then Of(Int(8 * StoreSize(t, result.ty))) else Void
  }

  /** The hidden pointer. */
  function HiddenCount(t: Target, result: Result): nat
    requires ValidTarget(t)
  {
    if result.Of? && result.ty.Struct? && !InRegister(t, result.ty) then 1 else 0
  }

  /** No struct, and among the parameters no array. */
  predicate Plain(tys: seq<Type>, result: Result) {
    (forall ty <- tys :: !ty.Struct? && !ty.Arr?) && (result.Of? ==> !result.ty.Struct?)
  }

  function ResultClass(t: Target, result: Result): Coercion
    requires ValidTarget(t)
  {
    if result.Of? then ClassifyReturn(t, result.ty) else IDENTITY
  }

  /** The class of an argument in terms of its type. */
  lemma ArgumentClass(t: Target, ty: Type)
    requires ValidTarget(t)
    ensures ValidArg(ClassifyArgument(t, ty))
    ensures Lanes(ClassifyArgument(t, ty), ty) == [ParamType(t, ty)] && !IsByVal(ClassifyArgument(t, ty))
    ensures ClassifyArgument(t, ty).IsIdentity() <==> !ty.Struct? && !ty.Arr?
    ensures CarriesAll(t, ty, ClassifyArgument(t, ty))
  {
    ClassesAreValid(t, ty);
    if ty.Struct? {
      StructRule(t, ty, false);
      if InRegister(t, ty) {
        CoercionFitsSlot(t, ty, false);
        var c := ClassifyArgument(t, ty);
        hide StoreSize, AllocSize, ClassifyArgument;
        forall k | 0 <= k < StoreSize(t, ty)
          ensures ArgCarries(t, c, k)
        {
          SingleCarries(t, c.coercedType.value, k);
        }
      }
    }
  }

  lemma ReturnClass(t: Target, result: Result)
    requires ValidTarget(t)
    ensures var ret := ResultClass(t, result);
            && ValidRet(ret) && |Hidden(ret)| == HiddenCount(t, result)
            && (ret.IsIdentity() <==> !(result.Of? && result.ty.Struct?))
            && (forall r: Result :: ReturnsAs(r, ret, result) ==> r == ResultType(t, result))
            && (result.Of? ==> ReturnsAll(t, result.ty, ret))
  {
    if result.Of? {
      ClassesAreValid(t, result.ty);
      if result.ty.Struct? {
        StructRule(t, result.ty, true);
        if InRegister(t, result.ty) {
          CoercionFitsSlot(t, result.ty, true);
          var ret, ty := ResultClass(t, result), result.ty;
          hide StoreSize, AllocSize, ClassifyReturn;
          forall k | 0 <= k < StoreSize(t, ty)
            ensures RetCarries(t, ret, k)
          {
            SingleCarries(t, ret.coercedType.value, k);
          }
        }
      }
    }
  }

  /** What the caller gets back has every data byte it passed. */
  ghost predicate LosesNothing(t: Target, ty: Type, ret: Coercion, r: Rebuilt, args: seq<BlockArg>, handover: Handover,
                               at: nat)
    requires ValidTarget(t) && ValidArg(ClassifyArgument(t, ty)) && ValidRet(ret)
  {
    forall incoming: seq<Lane>, cells: Cells, data: iset<nat> ::
      |incoming| == |args| && |cells| == AllocSize(t, ty)
      && Holding(incoming, at, Passed(t, ClassifyArgument(t, ty), cells)) ==>
        var out := RoundTrip(t, ty, ret, r, args, handover, incoming, data);
        out.Some? && Agree(out.value, cells, StoreSize(t, ty), data)
  }

  /** The bytes an argument's class and its result's class carry are all there are. */
  lemma ReturningAnArgumentLosesNothing(t: Target, ty: Type, r: Rebuilt, args: seq<BlockArg>, handover: Handover,
                                        at: nat)
    requires ValidTarget(t) && ValidArg(ClassifyArgument(t, ty)) && ValidRet(ClassifyReturn(t, ty))
    requires GivesBack(t, ty, ClassifyArgument(t, ty), ClassifyReturn(t, ty), r, args, handover, at)
    ensures LosesNothing(t, ty, ClassifyReturn(t, ty), r, args, handover, at)
  {
    ArgumentClass(t, ty);
    ReturnClass(t, Of(ty));
    ResultClassOf(t, ty);
    FieldRoom(t, ty, 0);
    hide ClassifyArgument, ClassifyReturn, ResultClass, StoreSize, AllocSize, RoundTrip, Passed, Holding;
    hide ValidArg, ValidRet;
    var c, ret := ClassifyArgument(t, ty), ClassifyReturn(t, ty);
    assert CarriesAll(t, ty, c) && ReturnsAll(t, ty, ret);
    hide ArgFits, RetFits, ArgCarries, RetCarries;
    forall incoming: seq<Lane>, cells: Cells, data: iset<nat> |
      |incoming| == |args| && |cells| == AllocSize(t, ty) && Holding(incoming, at, Passed(t, c, cells))
      ensures var out := RoundTrip(t, ty, ret, r, args, handover, incoming, data);
              out.Some? && Agree(out.value, cells, StoreSize(t, ty), data)
    {
      assert RoundTrip(t, ty, ret, r, args, handover, incoming, data).Some?;
    }
  }

  /** Every argument has one lane. */
  lemma {:induction false} LanesAreParamTypes(t: Target, tys: seq<Type>, cs: seq<Coercion>)
    requires ValidTarget(t) && |cs| == |tys| && (forall c <- cs :: ValidArg(c))
    requires forall i :: 0 <= i < |tys| ==> cs[i] == ClassifyArgument(t, tys[i])
    ensures |AllLanes(cs, tys)| == |tys|
    ensures forall i :: 0 <= i < |tys| ==> AllLanes(cs, tys)[i] == ParamType(t, tys[i])
    decreases |tys|
  {
    if tys != [] {
      ArgumentClass(t, tys[0]);
      hide Lanes, ClassifyArgument, ParamType, ValidArg;
      LanesAreParamTypes(t, tys[1..], cs[1..]);
    }
  }

  lemma {:induction false} NoByVals(t: Target, tys: seq<Type>, cs: seq<Coercion>, ret: Coercion, n: nat)
    requires ValidTarget(t) && |cs| == |tys| && n <= |tys| && (forall c <- cs :: ValidArg(c))
    requires forall i :: 0 <= i < |tys| ==> cs[i] == ClassifyArgument(t, tys[i])
    ensures ByVals(cs, tys, ret, n) == [] && AsMap([]) == map[]
    decreases n
  {
    if n > 0 {
      hide ClassifyArgument, Position;
      ArgumentClass(t, tys[n - 1]);
      NoByVals(t, tys, cs, ret, n - 1);
    }
  }

  lemma PositionIs(t: Target, tys: seq<Type>, cs: seq<Coercion>, ret: Coercion, i: nat)
    requires ValidTarget(t) && |cs| == |tys| && i < |tys| && (forall c <- cs :: ValidArg(c))
    requires forall j :: 0 <= j < |tys| ==> cs[j] == ClassifyArgument(t, tys[j])
    ensures Position(cs, tys, ret, i) == |Hidden(ret)| + i
  {
    hide ClassifyArgument, AllLanes, ValidArg, ParamType;
    LanesAreParamTypes(t, tys[..i], cs[..i]);
  }

  /** Nothing is to be done exactly for a signature without structs and without array parameters. */
  lemma NothingToDoIff(t: Target, tys: seq<Type>, result: Result, cs: seq<Coercion>)
    requires ValidTarget(t) && |cs| == |tys| && forall i :: 0 <= i < |tys| ==> cs[i] == ClassifyArgument(t, tys[i])
    ensures NothingToDo(cs, ResultClass(t, result)) <==> Plain(tys, result)
  {
    forall i | 0 <= i < |tys|
      ensures cs[i].IsIdentity() <==> !tys[i].Struct? && !tys[i].Arr?
    {
      ArgumentClass(t, tys[i]);
    }
    ReturnClass(t, result);
    hide ClassifyArgument, ResultClass;
    if NothingToDo(cs, ResultClass(t, result)) {
      forall ty | ty in tys
        ensures !ty.Struct? && !ty.Arr?
      {
        var i :| 0 <= i < |tys| && tys[i] == ty;
        assert cs[i] in cs;
      }
    }
    if Plain(tys, result) {
      forall c | c in cs
        ensures c.IsIdentity()
      {
        var i :| 0 <= i < |cs| && cs[i] == c;
        assert tys[i] in tys;
      }
    }
  }

  /**
   Classify a definition for Win64 and rewrite it.  The new signature is that of the convention, in terms of the
   types alone; a definition without structs and array parameters is left as it is; and a body that returns an
   argument gives all its data back.
   */
  method RewriteForWin64(t: Target, func: Func)
    requires ValidTarget(t) && Unchanged(func)
    modifies func, func.entry
    ensures func.entry == old(func.entry)
    ensures var tys, hidden := old(func.params), HiddenCount(t, old(func.result));
            && ParamsFollow(t, func.params, hidden, tys) && (hidden == 1 ==> func.params[0] == Ptr)
            && func.result == ResultType(t, old(func.result)) && func.byVal == map[]
    ensures Plain(old(func.params), old(func.result)) ==>
              && func.params == old(func.params) && func.result == old(func.result) && func.uses == old(func.uses)
              && (func.entry != null ==> func.entry.args == old(func.entry.args))
    ensures func.entry != null ==>
              var tys, ret := old(func.params), ResultClass(t, old(func.result));
              && TypesOf(func.entry.args) == func.params && |func.uses| == |tys| && ValidRet(ret)
              && forall i :: 0 <= i < |tys| && old(func.result) == Of(tys[i]) ==>
                   && ValidArg(ClassifyArgument(t, tys[i]))
                   && LosesNothing(t, tys[i], ret, func.uses[i], func.entry.args, func.handover,
                                   HiddenCount(t, old(func.result)) + i)
  {
    hide ClassifyArgument, ClassifyReturn, AllLanes, GivesBack, LosesNothing, ByVals, AsMap, ParamType, ResultType;
    hide HiddenCount, Position, ArrivesAs, ReturnsAs, NothingToDo, ValidArg, ValidRet, Plain, TypesOf, Hidden;
    hide ParamsFollow;
    var tys, result := func.params, func.result;
    var cs, ret := ComputeSignatureInfo(t, tys, if result.Of? then Some(result.ty) else None);
    assert ret == ResultClass(t, result);
    hide ResultClass;
    NothingToDoIff(t, tys, result, cs);
    RewriteByClasses(t, func, cs, ret);
    SignatureIs(t, tys, result, cs, func.params, func.result, func.byVal);
    if func.entry != null {
      forall i | 0 <= i < |tys| && result == Of(tys[i])
        ensures ValidArg(ClassifyArgument(t, tys[i]))
        ensures LosesNothing(t, tys[i], ret, func.uses[i], func.entry.args, func.handover, HiddenCount(t, result) + i)
      {
        BytesAre(t, tys, result, cs, func.uses[i], func.entry.args, func.handover, i);
      }
    }
  }

  /** The new signature, whether there was something to do or not. */
  lemma SignatureIs(t: Target, tys: seq<Type>, result: Result, cs: seq<Coercion>, params: seq<Type>, newResult: Result,
                    byVal: map<nat, Type>)
    requires ValidTarget(t) && |cs| == |tys| && (forall c <- cs :: ValidArg(c)) && ValidRet(ResultClass(t, result))
    requires forall i :: 0 <= i < |tys| ==> cs[i] == ClassifyArgument(t, tys[i])
    requires var ret := ResultClass(t, result);
             if NothingToDo(cs, ret) then params == tys && newResult == result && byVal == map[]
             else
               && params == Hidden(ret) + AllLanes(cs, tys) && ReturnsAs(newResult, ret, result)
               && byVal == AsMap(ByVals(cs, tys, ret, |cs|))
    ensures var hidden := HiddenCount(t, result);
            && ParamsFollow(t, params, hidden, tys) && (hidden == 1 ==> params[0] == Ptr)
            && newResult == ResultType(t, result) && byVal == map[]
  {
    hide *;
    var ret := ResultClass(t, result);
    HiddenLength(t, result);
    if NothingToDo(cs, ret) {
      NothingToDoIff(t, tys, result, cs);
      PlainStays(t, tys, result, ret);
    } else {
      ReturnsMeans(t, result, newResult);
      NoByVals(t, tys, cs, ret, |tys|);
      ParamsAre(t, tys, cs, Hidden(ret), params);
      HiddenIs(ret);
      ParamsLength(t, params, |Hidden(ret)|, tys);
    }
  }

  lemma ParamsLength(t: Target, params: seq<Type>, hidden: nat, tys: seq<Type>)
    requires ValidTarget(t) && ParamsFollow(t, params, hidden, tys)
    ensures |params| == hidden + |tys|
  {
  }

  lemma HiddenLength(t: Target, result: Result)
    requires ValidTarget(t)
    ensures |Hidden(ResultClass(t, result))| == HiddenCount(t, result)
  {
    hide *;
    ReturnClass(t, result);
  }

  lemma ReturnsMeans(t: Target, result: Result, newResult: Result)
    requires ValidTarget(t) && ReturnsAs(newResult, ResultClass(t, result), result)
    ensures newResult == ResultType(t, result)
  {
    hide *;
    ReturnClass(t, result);
  }

  lemma ParamsAre(t: Target, tys: seq<Type>, cs: seq<Coercion>, hidden: seq<Type>, params: seq<Type>)
    requires ValidTarget(t) && |cs| == |tys| && (forall c <- cs :: ValidArg(c))
    requires forall i :: 0 <= i < |tys| ==> cs[i] == ClassifyArgument(t, tys[i])
    requires params == hidden + AllLanes(cs, tys)
    ensures ParamsFollow(t, params, |hidden|, tys)
  {
    hide ParamType, AllLanes, ClassifyArgument, ValidArg;
    LanesAreParamTypes(t, tys, cs);
  }

  lemma BytesAre(t: Target, tys: seq<Type>, result: Result, cs: seq<Coercion>, r: Rebuilt, args: seq<BlockArg>,
                 handover: Handover, i: nat)
    requires ValidTarget(t) && |cs| == |tys| && (forall c <- cs :: ValidArg(c)) && ValidRet(ResultClass(t, result))
    requires (forall j :: 0 <= j < |tys| ==> cs[j] == ClassifyArgument(t, tys[j])) && i < |tys| && result == Of(tys[i])
    requires ValidArg(cs[i])
    requires GivesBack(t, tys[i], cs[i], ResultClass(t, result), r, args, handover,
                       Position(cs, tys, ResultClass(t, result), i))
    ensures ValidArg(ClassifyArgument(t, tys[i]))
    ensures LosesNothing(t, tys[i], ResultClass(t, result), r, args, handover, HiddenCount(t, result) + i)
  {
    hide ClassifyArgument, ClassifyReturn, ResultClass, AllLanes, GivesBack, LosesNothing, Position;
    hide ValidArg, ValidRet, HiddenCount, Hidden;
    ReturnClass(t, result);
    ResultClassOf(t, tys[i]);
    PositionIs(t, tys, cs, ResultClass(t, result), i);
    ReturningAnArgumentLosesNothing(t, tys[i], r, args, handover, HiddenCount(t, result) + i);
  }

  lemma ResultClassOf(t: Target, ty: Type)
    requires ValidTarget(t)
    ensures ResultClass(t, Of(ty)) == ClassifyReturn(t, ty)
  {
    hide ClassifyReturn;
  }

  lemma HiddenIs(ret: Coercion)
    ensures |Hidden(ret)| <= 1 && (|Hidden(ret)| == 1 ==> Hidden(ret)[0] == Ptr)
  {
  }

  lemma PlainStays(t: Target, tys: seq<Type>, result: Result, ret: Coercion)
    requires ValidTarget(t) && Plain(tys, result)
    ensures HiddenCount(t, result) == 0 && ResultType(t, result) == result
    ensures ParamsFollow(t, tys, 0, tys)
  {
    hide StoreSize;
    assert forall i :: 0 <= i < |tys| ==> tys[i] in tys;
  }
}
