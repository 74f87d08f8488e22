/**
 Rewriting a function definition to its C ABI signature.  One loop builds the new parameter
 types, another appends the matching block arguments; erasing the old arguments and inserting
 the hidden result pointer then has to leave the two lists equal.
 */
module CAbiRewrite {
  import opened Options
  import opened DataLayout

  datatype ArgClass = Integer | SSE | IntegerPair | SSEPair | Mixed | Memory | NoClass

  datatype Coercion = Coercion(
    argClass: ArgClass,
    coercedType: Option<Type>,
    coercedSecondType: Option<Type>,
    useIndirect: bool,
    useByval: bool,
    useSRet: bool)
  {
    predicate IsIdentity() { argClass == NoClass }

    predicate IsTwoRegister() { argClass == IntegerPair || argClass == SSEPair || argClass == Mixed }

    /** The classes name the types that the rewrite needs. */
    predicate Complete() {
      IsIdentity() || useIndirect || useSRet
      || (coercedType.Some? && (IsTwoRegister() ==> coercedSecondType.Some?))
    }
  }

  /** What classifiers return for an argument and for a result. */
  predicate ValidArg(c: Coercion) { c.Complete() && !c.useSRet }

  predicate ValidRet(c: Coercion) { c.Complete() && !c.useIndirect && (c.useSRet ==> !c.IsIdentity()) }

  /** How one argument arrives. */
  function Lanes(c: Coercion, ty: Type): (r: seq<Type>)
    requires ValidArg(c)
    ensures |r| >= 1
  {
    if c.IsIdentity() then [ty]
    else if c.useIndirect then [Ptr]
    else if c.IsTwoRegister() then [c.coercedType.value, c.coercedSecondType.value]
    else [c.coercedType.value]
  }

  function AllLanes(cs: seq<Coercion>, tys: seq<Type>): seq<Type>
    requires |cs| == |tys| && forall c <- cs :: ValidArg(c)
    decreases |cs|
  {
    if cs == [] then [] else Lanes(cs[0], tys[0]) + AllLanes(cs[1..], tys[1..])
  }

  function Hidden(ret: Coercion): seq<Type> { if ret.useSRet then [Ptr] else [] }

  /** The position of the first lane of argument `i`. */
  function Position(cs: seq<Coercion>, tys: seq<Type>, ret: Coercion, i: nat): nat
    requires |cs| == |tys| && i <= |cs| && forall c <- cs :: ValidArg(c)
  {
    |Hidden(ret)| + |AllLanes(cs[..i], tys[..i])|
  }

  lemma {:induction false} AllLanesConcat(a: seq<Coercion>, ta: seq<Type>, b: seq<Coercion>, tb: seq<Type>)
    requires |a| == |ta| && |b| == |tb| && (forall c <- a :: ValidArg(c)) && (forall c <- b :: ValidArg(c))
    ensures AllLanes(a + b, ta + tb) == AllLanes(a, ta) + AllLanes(b, tb)
    decreases |a|
  {
    hide Lanes, ValidArg;
    if a == [] {
      assert a + b == b && ta + tb == tb;
    } else {
      assert (a + b)[1..] == a[1..] + b && (ta + tb)[1..] == ta[1..] + tb;
      AllLanesConcat(a[1..], ta[1..], b, tb);
    }
  }

  lemma LanesOfOne(c: Coercion, ty: Type)
    requires ValidArg(c)
    ensures AllLanes([c], [ty]) == Lanes(c, ty)
  {
    assert [c][1..] == [] && [ty][1..] == [];
  }

  lemma LanesUpTo(cs: seq<Coercion>, tys: seq<Type>, i: nat)
    requires |cs| == |tys| && i < |cs| && forall c <- cs :: ValidArg(c)
    ensures AllLanes(cs[..i + 1], tys[..i + 1]) == AllLanes(cs[..i], tys[..i]) + Lanes(cs[i], tys[i])
  {
    hide AllLanes, Lanes, ValidArg;
    assert cs[..i + 1] == cs[..i] + [cs[i]] && tys[..i + 1] == tys[..i] + [tys[i]];
    AllLanesConcat(cs[..i], tys[..i], [cs[i]], [tys[i]]);
    LanesOfOne(cs[i], tys[i]);
  }

  // ----- functions and blocks -----

  datatype BlockArg = BlockArg(id: nat, ty: Type)

  /** The value that replaces an original argument, in terms of new block arguments. */
  datatype Rebuilt =
    | Same(arg: nat)
    | LoadFrom(arg: nat, ty: Type)
    | ViaMemory(args: seq<nat>, ty: Type)

  datatype Result = Void | Of(ty: Type)

  function TypesOf(args: seq<BlockArg>): (r: seq<Type>)
    ensures |r| == |args|
  {
    seq(|args|, i requires 0 <= i < |args| => args[i].ty)
  }

  class Block {
    var args: seq<BlockArg>
    var nextId: nat

    ghost predicate Valid()
      reads this
    {
      && (forall a <- args :: a.id < nextId)
      && forall i, j :: 0 <= i < j < |args| ==> args[i].id != args[j].id
    }

    constructor (tys: seq<Type>)
      ensures Valid() && TypesOf(args) == tys
    {
      args := seq(|tys|, i requires 0 <= i < |tys| => BlockArg(i, tys[i]));
      nextId := |tys|;
    }

    method AddArgument(ty: Type) returns (id: nat)
      requires Valid()
      modifies this
      ensures Valid() && args == old(args) + [BlockArg(id, ty)]
    {
      id := nextId;
      args, nextId := args + [BlockArg(nextId, ty)], nextId + 1;
    }

    method EraseFirst(n: nat)
      requires Valid() && n <= |args|
      modifies this
      ensures Valid() && args == old(args)[n..]
    {
      args := args[n..];
    }

    method InsertFirst(ty: Type) returns (id: nat)
      requires Valid()
      modifies this
      ensures Valid() && args == [BlockArg(id, ty)] + old(args)
    {
      id := nextId;
      args, nextId := [BlockArg(nextId, ty)] + args, nextId + 1;
    }
  }

  /** The rebuilt value reads argument `i` from its own lanes, which start at `at`. */
  predicate Reads(r: Rebuilt, c: Coercion, ty: Type, args: seq<BlockArg>, at: nat)
    requires ValidArg(c)
  {
    && at + |Lanes(c, ty)| <= |args|
    && if c.IsIdentity() then r == Same(args[at].id)
       else if c.useIndirect then r == LoadFrom(args[at].id, ty)
       else if c.IsTwoRegister() then r == ViaMemory([args[at].id, args[at + 1].id], ty)
       else r == ViaMemory([args[at].id], ty)
  }

  lemma ReadsShifted(r: Rebuilt, c: Coercion, ty: Type, args: seq<BlockArg>, at: nat,
                     front: seq<BlockArg>, back: seq<BlockArg>)
    requires ValidArg(c) && Reads(r, c, ty, args, at)
    ensures Reads(r, c, ty, front + args + back, |front| + at)
  {
    var all := front + args + back;
    assert all[|front| + at] == args[at];
    if |Lanes(c, ty)| > 1 {
      assert all[|front| + at + 1] == args[at + 1];
    }
  }

  // ----- the two loops -----

  predicate IsByVal(c: Coercion) { !c.IsIdentity() && c.useIndirect && c.useByval }

  /** Parameters marked `byval`: for every such argument, in order, the position of its pointer. */
  function ByVals(cs: seq<Coercion>, tys: seq<Type>, ret: Coercion, n: nat): seq<(nat, Type)>
    requires |cs| == |tys| && n <= |cs| && forall c <- cs :: ValidArg(c)
  {
    if n == 0 then []
    else
      ByVals(cs, tys, ret, n - 1)
      + if IsByVal(cs[n - 1])
        then [(Position(cs, tys, ret, n - 1), tys[n - 1])] else []
  }

  /** Build the new parameter list. */
  method NewParams(cs: seq<Coercion>, tys: seq<Type>, ret: Coercion)
      returns (params: seq<Type>, byVals: seq<(nat, Type)>)
    requires |cs| == |tys| && forall c <- cs :: ValidArg(c)
    ensures params == Hidden(ret) + AllLanes(cs, tys)
    ensures byVals == ByVals(cs, tys, ret, |cs|)
  {
    hide AllLanes;
    params, byVals := [], [];
    if ret.useSRet {
      params := [Ptr];
    }
    NoLanes();
    assert cs[..0] == [] && tys[..0] == [];
    for i := 0 to |cs|
      invariant params == Hidden(ret) + AllLanes(cs[..i], tys[..i])
      invariant byVals == ByVals(cs, tys, ret, i)
    {
      LanesUpTo(cs, tys, i);
      var c := cs[i];
      assert ValidArg(c);
      ghost var before := params;
      if c.IsIdentity() {
        params := params + [tys[i]];
      } else if c.useIndirect {
        if c.useByval {
          byVals := byVals + [(|params|, tys[i])];
        }
        params := params + [Ptr];
      } else if c.IsTwoRegister() {
        params := params + [c.coercedType.value];
        params := params + [c.coercedSecondType.value];
      } else {
        params := params + [c.coercedType.value];
      }
      assert params == before + Lanes(c, tys[i]);
    }
    assert cs[..|cs|] == cs && tys[..|tys|] == tys;
  }

  /** An entry exists for exactly the `byval` arguments, and it names the pointer that argument became. */
  lemma {:induction false} ByValsPointAtPointers(cs: seq<Coercion>, tys: seq<Type>, ret: Coercion, n: nat,
                                                 e: (nat, Type))
    requires |cs| == |tys| && n <= |cs| && forall c <- cs :: ValidArg(c)
    ensures e in ByVals(cs, tys, ret, n) <==>
            exists i :: 0 <= i < n && IsByVal(cs[i]) && e == (Position(cs, tys, ret, i), tys[i])
    ensures e in ByVals(cs, tys, ret, n) ==>
              var params := Hidden(ret) + AllLanes(cs, tys); e.0 < |params| && params[e.0] == Ptr
  {
    hide AllLanes, Position, Hidden;
    if n > 0 {
      ByValsPointAtPointers(cs, tys, ret, n - 1, e);
      assert ValidArg(cs[n - 1]);
      if IsByVal(cs[n - 1]) {
        PositionIsPointer(cs, tys, ret, n - 1);
      }
    }
  }

  lemma PositionIsPointer(cs: seq<Coercion>, tys: seq<Type>, ret: Coercion, i: nat)
    requires |cs| == |tys| && i < |cs| && (forall c <- cs :: ValidArg(c)) && IsByVal(cs[i])
    ensures var params, at := Hidden(ret) + AllLanes(cs, tys), Position(cs, tys, ret, i);
            at < |params| && params[at] == Ptr
  {
    hide AllLanes;
    LanesInPlace(Hidden(ret) + AllLanes(cs, tys), cs, tys, ret, i);
    assert Lanes(cs[i], tys[i])[0] == Ptr;
  }

  /** The lanes of argument `i` are where the parameter list has them. */
  lemma LanesInPlace(params: seq<Type>, cs: seq<Coercion>, tys: seq<Type>, ret: Coercion, i: nat)
    requires |cs| == |tys| && i < |cs| && (forall c <- cs :: ValidArg(c))
    requires params == Hidden(ret) + AllLanes(cs, tys)
    ensures var at := |Hidden(ret)| + |AllLanes(cs[..i], tys[..i])|;
            LanesAt(params, at, cs[i], tys[i])
  {
    hide AllLanes, Lanes, ValidArg;
    var front, lanes := AllLanes(cs[..i], tys[..i]), Lanes(cs[i], tys[i]);
    var back := AllLanes(cs[i + 1..], tys[i + 1..]);
    LanesUpTo(cs, tys, i);
    assert cs == cs[..i + 1] + cs[i + 1..] && tys == tys[..i + 1] + tys[i + 1..];
    AllLanesConcat(cs[..i + 1], tys[..i + 1], cs[i + 1..], tys[i + 1..]);
    assert params == Hidden(ret) + front + (lanes + back);
    var at := |Hidden(ret)| + |front|;
    assert params[at..] == lanes + back;
    assert forall k :: 0 <= k < |lanes| ==> params[at + k] == params[at..][k];
  }

  predicate LanesAt(params: seq<Type>, at: nat, c: Coercion, ty: Type)
    requires ValidArg(c)
  {
    && at + |Lanes(c, ty)| <= |params|
    && forall k :: 0 <= k < |Lanes(c, ty)| ==> params[at + k] == Lanes(c, ty)[k]
  }

  /**
   Append the block arguments for every original argument, reading their types off the new
   parameter list, and say how each original value is rebuilt from them.
   */
  method Reconstruct(entry: Block, params: seq<Type>, cs: seq<Coercion>, tys: seq<Type>, ret: Coercion)
      returns (rebuilt: seq<Rebuilt>, ghost added: seq<BlockArg>)
    requires entry.Valid() && |cs| == |tys| && forall c <- cs :: ValidArg(c)
    requires params == Hidden(ret) + AllLanes(cs, tys)
    modifies entry
    ensures entry.Valid() && entry.args == old(entry.args) + added && TypesOf(added) == AllLanes(cs, tys)
    ensures |rebuilt| == |cs|
    ensures forall i :: 0 <= i < |cs| ==> Reads(rebuilt[i], cs[i], tys[i], added, |AllLanes(cs[..i], tys[..i])|)
  {
    hide AllLanes, Reads, LanesAt, Block.Valid;
    rebuilt, added := [], [];
    var paramIdx := if ret.useSRet then 1 else 0;
    NoLanes();
    for i := 0 to |cs|
      invariant entry.Valid() && entry.args == old(entry.args) + added && |rebuilt| == i
      invariant TypesOf(added) == AllLanes(cs[..i], tys[..i]) && paramIdx == |Hidden(ret)| + |added|
      invariant forall k :: 0 <= k < i ==> Reads(rebuilt[k], cs[k], tys[k], added, |AllLanes(cs[..k], tys[..k])|)
    {
      var c := cs[i];
      LanesUpTo(cs, tys, i);
      LanesInPlace(params, cs, tys, ret, i);
      ghost var before, at := added, |added|;
      var r;
      r, added := AddLanes(entry, params, paramIdx, c, tys[i], added);
      paramIdx := paramIdx + if !c.IsIdentity() && !c.useIndirect && c.IsTwoRegister() then 2 else 1;
      forall k | 0 <= k < i
        ensures Reads(rebuilt[k], cs[k], tys[k], added, |AllLanes(cs[..k], tys[..k])|)
      {
        ReadsShifted(rebuilt[k], cs[k], tys[k], before, |AllLanes(cs[..k], tys[..k])|, [], added[at..]);
        assert [] + before + added[at..] == added;
      }
      rebuilt := rebuilt + [r];
    }
    assert cs[..|cs|] == cs && tys[..|tys|] == tys;
  }

  lemma NoLanes()
    ensures AllLanes([], []) == []
  {
  }

  /** The block arguments of one original argument. */
  method AddLanes(entry: Block, params: seq<Type>, paramIdx: nat, c: Coercion, ty: Type, ghost added: seq<BlockArg>)
      returns (r: Rebuilt, ghost added': seq<BlockArg>)
    requires entry.Valid() && ValidArg(c) && LanesAt(params, paramIdx, c, ty)
    modifies entry
    ensures entry.Valid() && added <= added' && entry.args == old(entry.args) + added'[|added|..]
    ensures TypesOf(added') == TypesOf(added) + Lanes(c, ty)
    ensures Reads(r, c, ty, added', |added|)
  {
    var first := entry.AddArgument(params[paramIdx]);
    assert params[paramIdx + 0] == Lanes(c, ty)[0];
    added' := added + [BlockArg(first, params[paramIdx])];
    if c.IsIdentity() {
      r := Same(first);
    } else if c.useIndirect {
      r := LoadFrom(first, ty);
    } else if c.IsTwoRegister() {
      var second := entry.AddArgument(params[paramIdx + 1]);
      added' := added' + [BlockArg(second, params[paramIdx + 1])];
      r := ViaMemory([first, second], ty);
    } else {
      r := ViaMemory([first], ty);
    }
  }

  // ----- the whole rewrite -----

  /** How return operations hand over the result. */
  datatype Handover = Direct | ThroughPointer(arg: nat) | ReloadedAs(ty: Result)

  class Func {
    var params: seq<Type>
    var result: Result
    var entry: Block?
    var uses: seq<Rebuilt>
    var handover: Handover
    var structRet: Option<Result>
    var byVal: map<nat, Type>

    /** A function as it was before the rewrite: it uses its arguments as they come and returns its result as it is. */
    constructor (params: seq<Type>, result: Result, isExternal: bool)
      ensures this.params == params && this.result == result && handover == Direct && (isExternal <==> entry == null)
      ensures entry != null ==>
                && fresh(entry) && entry.Valid() && TypesOf(entry.args) == params
                && |uses| == |params| && forall i :: 0 <= i < |params| ==> uses[i] == Same(entry.args[i].id)
    {
      this.params, this.result, uses, handover := params, result, [], Direct;
      structRet, byVal := None, map[];
      if isExternal {
        entry := null;
      } else {
        var block := new Block(params);
        var args := block.args;
        entry, uses := block, seq(|args|, i requires 0 <= i < |args| => Same(args[i].id));
      }
    }
  }

  function NewResult(ret: Coercion, result: Result): Result
    requires ValidRet(ret)
  {
    if ret.useSRet then Void
    else if ret.IsTwoRegister() then Of(Struct([ret.coercedType.value, ret.coercedSecondType.value]))
    else if ret.coercedType.Some? then Of(ret.coercedType.value)
    else result
  }

  /** The parameters in which an argument arrives: for a pair, the first register's before the second's. */
  predicate ArrivesAs(params: seq<Type>, at: nat, c: Coercion, ty: Type) {
    && at < |params|
    && if c.IsIdentity() then params[at] == ty
       else if c.useIndirect then params[at] == Ptr
       else
         && c.coercedType == Some(params[at])
         && (c.IsTwoRegister() ==> at + 1 < |params| && c.coercedSecondType == Some(params[at + 1]))
  }

  /** The result that a class calls for: for a pair, a struct of the first register's type and then the second's. */
  predicate ReturnsAs(result: Result, ret: Coercion, oldResult: Result) {
    if ret.useSRet then result.Void?
    else if ret.IsTwoRegister() then
      && result.Of? && result.ty.Struct? && |result.ty.fields| == 2
      && ret.coercedType == Some(result.ty.fields[0]) && ret.coercedSecondType == Some(result.ty.fields[1])
    else if ret.coercedType.Some? then result.Of? && ret.coercedType == Some(result.ty)
    else result == oldResult
  }

  lemma ArrivesInPlace(params: seq<Type>, cs: seq<Coercion>, tys: seq<Type>, ret: Coercion, i: nat)
    requires |cs| == |tys| && i < |cs| && (forall c <- cs :: ValidArg(c))
    requires params == Hidden(ret) + AllLanes(cs, tys)
    ensures ArrivesAs(params, Position(cs, tys, ret, i), cs[i], tys[i])
  {
    hide *;
    assert ValidArg(cs[i]);
    LanesInPlace(params, cs, tys, ret, i);
    PositionUnfolds(cs, tys, ret, i);
    LanesArrive(params, Position(cs, tys, ret, i), cs[i], tys[i]);
  }

  lemma LanesArrive(params: seq<Type>, at: nat, c: Coercion, ty: Type)
    requires ValidArg(c) && LanesAt(params, at, c, ty)
    ensures ArrivesAs(params, at, c, ty)
  {
    var lanes := Lanes(c, ty);
    assert params[at + 0] == lanes[0];
    if |lanes| > 1 { assert params[at + 1] == lanes[1]; }
  }

  /** Arguments follow one another, after the hidden pointer, each in one lane or in two. */
  lemma PositionSteps(cs: seq<Coercion>, tys: seq<Type>, ret: Coercion, i: nat)
    requires |cs| == |tys| && i < |cs| && forall c <- cs :: ValidArg(c)
    ensures Position(cs, tys, ret, 0) == if ret.useSRet then 1 else 0
    ensures Position(cs, tys, ret, i + 1) ==
            Position(cs, tys, ret, i)
            + if !cs[i].IsIdentity() && !cs[i].useIndirect && cs[i].IsTwoRegister() then 2 else 1
  {
    hide AllLanes;
    NoLanes();
    assert cs[..0] == [] && tys[..0] == [];
    assert ValidArg(cs[i]);
    LanesUpTo(cs, tys, i);
  }

  predicate NothingToDo(cs: seq<Coercion>, ret: Coercion) {
    (forall c <- cs :: c.IsIdentity()) && ret.IsIdentity()
  }

  /**
   Rewrite a definition.  Afterwards the entry block's arguments are the new parameters, position
   by position, and every original argument is rebuilt from exactly its own lanes.
   */
  method Process(func: Func, cs: seq<Coercion>, ret: Coercion)
    requires |cs| == |func.params| && (forall c <- cs :: ValidArg(c)) && ValidRet(ret)
    requires func.entry != null ==> func.entry.Valid() && TypesOf(func.entry.args) == func.params
    modifies func, func.entry
    ensures func.entry == old(func.entry) && (func.entry != null ==> func.entry.Valid())
    ensures NothingToDo(cs, ret) ==>
              && func.params == old(func.params) && func.result == old(func.result)
              && func.uses == old(func.uses) && func.handover == old(func.handover) && func.byVal == old(func.byVal)
              && (func.entry != null ==> func.entry.args == old(func.entry.args))
    ensures !NothingToDo(cs, ret) ==>
              && func.params == Hidden(ret) + AllLanes(cs, old(func.params))
              && func.result == NewResult(ret, old(func.result))
              && (ret.useSRet ==> func.params[0] == Ptr && func.structRet == Some(old(func.result)))
              && func.byVal == AsMap(ByVals(cs, old(func.params), ret, |cs|))
              && ReturnsAs(func.result, ret, old(func.result))
              && (forall i :: 0 <= i < |cs| ==>
                    ArrivesAs(func.params, Position(cs, old(func.params), ret, i), cs[i], old(func.params)[i]))
    ensures !NothingToDo(cs, ret) && func.entry != null ==>
              && TypesOf(func.entry.args) == func.params && |func.uses| == |cs|
              && (forall i :: 0 <= i < |cs| ==>
                    Reads(func.uses[i], cs[i], old(func.params)[i], func.entry.args,
                          Position(cs, old(func.params), ret, i)))
              && (ret.useSRet ==> func.handover == ThroughPointer(func.entry.args[0].id))
              && (!ret.useSRet && !ret.IsIdentity() ==> func.handover == ReloadedAs(func.result))
              && (ret.IsIdentity() ==> func.handover == old(func.handover))
    ensures !ret.useSRet ==> func.structRet == old(func.structRet)
  {
    hide AllLanes, Reads, ByVals, AsMap, Position, ArrivesAs;
    if (forall c <- cs :: c.IsIdentity()) && ret.IsIdentity() {
      return;
    }
    var tys, oldResult := func.params, func.result;
    var params, byVals := NewParams(cs, tys, ret);
    var newResult := NewResult(ret, oldResult);
    if func.entry != null {
      RewriteBody(func, func.entry, params, cs, tys, ret, newResult);
    }
    func.params, func.result := params, newResult;
    if ret.useSRet {
      func.structRet := Some(oldResult);
    }
    func.byVal := AsMap(byVals);
    forall i | 0 <= i < |cs|
      ensures ArrivesAs(params, Position(cs, tys, ret, i), cs[i], tys[i])
    {
      ArrivesInPlace(params, cs, tys, ret, i);
    }
  }

  function AsMap(entries: seq<(nat, Type)>): map<nat, Type> {
    if entries == [] then map[]
    else
      var last := |entries| - 1;
      AsMap(entries[..last])[entries[last].0 := entries[last].1]
  }

  /** Append the new arguments, erase the old ones, and put the hidden pointer first. */
  method RewriteBody(func: Func, entry: Block, params: seq<Type>, cs: seq<Coercion>, tys: seq<Type>,
                     ret: Coercion, newResult: Result)
    requires entry.Valid() && TypesOf(entry.args) == tys && |cs| == |tys|
    requires (forall c <- cs :: ValidArg(c)) && ValidRet(ret)
    requires params == Hidden(ret) + AllLanes(cs, tys)
    modifies func`uses, func`handover, entry
    ensures entry.Valid() && TypesOf(entry.args) == params && |func.uses| == |cs|
    ensures forall i :: 0 <= i < |cs| ==>
              Reads(func.uses[i], cs[i], tys[i], entry.args, Position(cs, tys, ret, i))
    ensures ret.useSRet ==> func.handover == ThroughPointer(entry.args[0].id)
    ensures !ret.useSRet && !ret.IsIdentity() ==> func.handover == ReloadedAs(newResult)
    ensures ret.IsIdentity() ==> func.handover == old(func.handover)
  {
    hide AllLanes, Reads, Lanes, ValidArg, Position, TypesOf, Block.Valid;
    ghost var added;
    var rebuilt;
    rebuilt, added := Reconstruct(entry, params, cs, tys, ret);
    func.uses := rebuilt;
    entry.EraseFirst(|tys|);
    assert entry.args == added;
    ghost var front: seq<BlockArg> := [];
    if !ret.IsIdentity() {
      if ret.useSRet {
        var id := entry.InsertFirst(Ptr);
        front := [BlockArg(id, Ptr)];
        func.handover := ThroughPointer(id);
      } else {
        func.handover := ReloadedAs(newResult);
      }
    }
    assert entry.args == front + added && |front| == |Hidden(ret)|;
    HiddenFront(ret, front, added);
    forall i | 0 <= i < |cs|
      ensures Reads(func.uses[i], cs[i], tys[i], entry.args, Position(cs, tys, ret, i))
    {
      ReadsShifted(rebuilt[i], cs[i], tys[i], added, |AllLanes(cs[..i], tys[..i])|, front, []);
      assert front + added + [] == entry.args;
      PositionUnfolds(cs, tys, ret, i);
    }
  }

  lemma HiddenFront(ret: Coercion, front: seq<BlockArg>, added: seq<BlockArg>)
    requires |front| == |Hidden(ret)| && forall a <- front :: a.ty == Ptr
    ensures TypesOf(front + added) == Hidden(ret) + TypesOf(added)
  {
  }

  lemma PositionUnfolds(cs: seq<Coercion>, tys: seq<Type>, ret: Coercion, i: nat)
    requires |cs| == |tys| && i <= |cs| && forall c <- cs :: ValidArg(c)
    ensures Position(cs, tys, ret, i) == |Hidden(ret)| + |AllLanes(cs[..i], tys[..i])|
  {
    hide AllLanes, ValidArg;
  }
}
