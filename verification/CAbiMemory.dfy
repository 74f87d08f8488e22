/**
 The bytes of an argument on their way through the C ABI: into registers or behind a pointer, back into a value
 in the rewritten body, and out again when the body returns it.  For every class, not for one convention.
 */
module CAbiMemory {
  import opened Options
  import opened DataLayout
  import opened CAbiRewrite

  // ----- slots -----

  datatype Cell = Undef | Byte(value: int)

  /** Bytes of a stack slot or of a value; `data` says which bytes of the type carry data. */
  type Cells = seq<Cell>

  ghost predicate Agree(a: Cells, b: Cells, size: nat, data: iset<nat>) {
    |a| >= size && |b| >= size && forall k :: 0 <= k < size && k in data ==> a[k] == b[k]
  }

  /** Loading a struct keeps its data bytes and nothing else; beyond the end of a slot there is no result. */
  ghost function LoadStruct(slot: Cells, size: nat, data: iset<nat>): Option<Cells> {
    if size <= |slot| then Some(seq(size, k requires 0 <= k < size => if k in data then slot[k] else Undef)) else None
  }

  /** Storing a struct writes its data bytes; its padding is left undefined. */
  ghost function StoreStruct(slot: Cells, value: Cells, data: iset<nat>): Option<Cells> {
    if |value| > |slot| then None
    else Some(seq(|slot|, k requires 0 <= k < |slot| =>
                if k >= |value| then slot[k] else if k in data then value[k] else Undef))
  }

  function FreshSlot(size: nat): Cells { seq(size, _ => Undef) }

  // ----- registers -----

  /** `n` bytes from `at`, undefined where there are none. */
  function Slice(cells: Cells, at: nat, n: nat): (r: Cells)
    ensures |r| == n
  {
    seq(n, k requires 0 <= k < n => if at + k < |cells| then cells[at + k] else Undef)
  }

  /** The slot with `cells` written from `at`, as far as it reaches. */
  function Overwrite(slot: Cells, at: nat, cells: Cells): (r: Cells)
    ensures |r| == |slot|
  {
    seq(|slot|, k requires 0 <= k < |slot| => if at <= k < at + |cells| then cells[k - at] else slot[k])
  }

  /** The values of a struct's fields, as its layout has them in memory. */
  function Gather(t: Target, tys: seq<Type>, size: nat, cells: Cells): (regs: seq<Cells>)
    requires ValidTarget(t)
    ensures |regs| == |tys|
    decreases |tys|
  {
    if tys == [] then []
    else
      var start := FieldStart(t, tys[0], size);
      [Slice(cells, start, StoreSize(t, tys[0]))] + Gather(t, tys[1..], start + AllocSize(t, tys[0]), cells)
  }

  /** And back into memory. */
  function Scatter(t: Target, tys: seq<Type>, size: nat, regs: seq<Cells>, slot: Cells): (r: Cells)
    requires ValidTarget(t) && |regs| == |tys|
    ensures |r| == |slot|
    decreases |tys|
  {
    if tys == [] then slot
    else
      var start := FieldStart(t, tys[0], size);
      Scatter(t, tys[1..], start + AllocSize(t, tys[0]), regs[1..], Overwrite(slot, start, regs[0]))
  }

  /** Some field has byte `k`. */
  predicate Carries(t: Target, tys: seq<Type>, size: nat, k: nat)
    requires ValidTarget(t)
    decreases |tys|
  {
    tys != []
    && var start := FieldStart(t, tys[0], size);
       start <= k < start + StoreSize(t, tys[0]) || Carries(t, tys[1..], start + AllocSize(t, tys[0]), k)
  }

  lemma FieldRoom(t: Target, ty: Type, size: nat)
    requires ValidTarget(t)
    ensures FieldStart(t, ty, size) >= size && StoreSize(t, ty) <= AllocSize(t, ty)
  {
    hide SizeInBits;
    AllocUnfolds(t, ty);
  }

  /** Through registers and back, every byte that a field has is kept; what lies before the fields is not touched. */
  lemma {:induction false} GatherScatter(t: Target, tys: seq<Type>, size: nat, cells: Cells, slot: Cells, k: nat)
    requires ValidTarget(t) && k < |slot|
    ensures var r := Scatter(t, tys, size, Gather(t, tys, size, cells), slot);
            && (k < size ==> r[k] == slot[k])
            && (Carries(t, tys, size, k) ==> r[k] == if k < |cells| then cells[k] else Undef)
    decreases |tys|
  {
    if tys != [] {
      hide ValidTarget, FieldStart, AllocSize, StoreSize;
      FieldRoom(t, tys[0], size);
      var start := FieldStart(t, tys[0], size);
      var next := start + AllocSize(t, tys[0]);
      var head := Slice(cells, start, StoreSize(t, tys[0]));
      var regs := Gather(t, tys, size, cells);
      assert regs[0] == head && regs[1..] == Gather(t, tys[1..], next, cells);
      GatherScatter(t, tys[1..], next, cells, Overwrite(slot, start, head), k);
    }
  }

  // ----- lanes -----

  /** How a part of an argument arrives; a register has a type. */
  datatype Lane = Value(cells: Cells) | Register(ty: Type, cells: Cells) | Address(cells: Cells)

  /** The registers of a coerced argument. */
  function Registers(c: Coercion): (tys: seq<Type>)
    requires c.Complete() && !c.IsIdentity() && !c.useIndirect && !c.useSRet
    ensures 1 <= |tys| <= 2
  {
    if c.IsTwoRegister() then [c.coercedType.value, c.coercedSecondType.value] else [c.coercedType.value]
  }

  /** The type that is stored and loaded for registers: their own, or a struct of the two. */
  function Whole(tys: seq<Type>): Type { if |tys| == 1 then tys[0] else Struct(tys) }

  function RegisterLanes(tys: seq<Type>, regs: seq<Cells>): (lanes: seq<Lane>)
    requires |tys| == |regs|
    ensures |lanes| == |tys|
  {
    seq(|tys|, j requires 0 <= j < |tys| => Register(tys[j], regs[j]))
  }

  /** What a caller puts into the lanes of an argument. */
  function Passed(t: Target, c: Coercion, cells: Cells): seq<Lane>
    requires ValidTarget(t) && ValidArg(c)
  {
    if c.IsIdentity() then [Value(cells)]
    else if c.useIndirect then [Address(cells)]
    else RegisterLanes(Registers(c), Gather(t, Registers(c), 0, cells))
  }

  /** The block argument called `id`, and what arrives in it. */
  ghost function Arriving(args: seq<BlockArg>, incoming: seq<Lane>, id: nat): Option<(Type, Lane)>
    requires |args| == |incoming|
  {
    if exists p :: 0 <= p < |args| && args[p].id == id
    then var p :| 0 <= p < |args| && args[p].id == id; Some((args[p].ty, incoming[p]))
    else None
  }

  /** Registers in the order of the block arguments; nothing if one does not hold what its argument declares. */
  ghost function Collected(args: seq<BlockArg>, incoming: seq<Lane>, ids: seq<nat>)
      : (r: Option<(seq<Type>, seq<Cells>)>)
    requires |args| == |incoming|
    ensures r.Some? ==> |r.value.0| == |r.value.1| == |ids|
  {
    if ids == [] then Some(([], []))
    else
      var first, rest := Arriving(args, incoming, ids[0]), Collected(args, incoming, ids[1..]);
      if first.None? || rest.None? || !first.value.1.Register? || first.value.1.ty != first.value.0 then None
      else Some(([first.value.0] + rest.value.0, [first.value.1.cells] + rest.value.1))
  }

  /** Registers stored to a slot of the type's size, if they do not reach beyond it. */
  function StoreRegisters(t: Target, ty: Type, tys: seq<Type>, regs: seq<Cells>): Option<Cells>
    requires ValidTarget(t) && |tys| == |regs|
  {
    if StoreSize(t, Whole(tys)) > AllocSize(t, ty) then None
    else Some(Scatter(t, tys, 0, regs, FreshSlot(AllocSize(t, ty))))
  }

  /** The value the rewritten body works with: as it came, loaded through the pointer, or by way of a slot. */
  ghost function RebuiltFrom(t: Target, ty: Type, r: Rebuilt, args: seq<BlockArg>, incoming: seq<Lane>,
                             data: iset<nat>): Option<Cells>
    requires ValidTarget(t) && |args| == |incoming|
  {
    match r
    case Same(id) =>
      var a := Arriving(args, incoming, id);
      if a.Some? && a.value.0 == ty && a.value.1.Value? then Some(a.value.1.cells) else None
    case LoadFrom(id, _) =>
      var a := Arriving(args, incoming, id);
      if a.Some? && a.value.0 == Ptr && a.value.1.Address? then LoadStruct(a.value.1.cells, StoreSize(t, ty), data)
      else None
    case ViaMemory(ids, _) =>
      var regs := Collected(args, incoming, ids);
      var slot := if regs.None? then None else StoreRegisters(t, ty, regs.value.0, regs.value.1);
      if slot.None? then None else LoadStruct(slot.value, StoreSize(t, ty), data)
  }

  // ----- returns -----

  /** A returned type comes back in one register, or, a struct, field by field. */
  function Parts(ty: Type): seq<Type> { if ty.Struct? then ty.fields else [ty] }

  /** What the caller takes a coerced result for. */
  function Expected(ret: Coercion): Type
    requires ret.Complete() && !ret.IsIdentity() && !ret.useIndirect && !ret.useSRet
  {
    if ret.IsTwoRegister() then Struct([ret.coercedType.value, ret.coercedSecondType.value])
    else ret.coercedType.value
  }

  /**
   What the caller finds when the body returns `value`: as it is, behind its pointer, or reloaded as the coerced type,
   in registers, and stored again by a caller that expects them of its own class.
   */
  ghost function Returned(t: Target, ty: Type, ret: Coercion, handover: Handover, value: Cells,
                          data: iset<nat>): Option<Cells>
    requires ValidTarget(t) && ValidRet(ret)
  {
    match handover
    case Direct => if ret.IsIdentity() then Some(value) else None
    case ThroughPointer(_) => if ret.useSRet then StoreStruct(FreshSlot(AllocSize(t, ty)), value, data) else None
    case ReloadedAs(Void) => None
    case ReloadedAs(Of(coerced)) =>
      if ret.IsIdentity() || ret.useSRet || coerced != Expected(ret) then None
      else
        var slot := StoreStruct(FreshSlot(AllocSize(t, ty)), value, data);
        if slot.None? || StoreSize(t, coerced) > AllocSize(t, ty) then None
        else
          var regs := Gather(t, Parts(coerced), 0, slot.value);
          Some(Scatter(t, Parts(coerced), 0, regs, FreshSlot(AllocSize(t, ty))))
  }

  // ----- there and back -----

  /** The argument's registers reach no further than its slot. */
  predicate ArgFits(t: Target, ty: Type, c: Coercion)
    requires ValidTarget(t) && ValidArg(c)
  {
    c.IsIdentity() || c.useIndirect || StoreSize(t, Whole(Registers(c))) <= AllocSize(t, ty)
  }

  predicate RetFits(t: Target, ty: Type, ret: Coercion)
    requires ValidTarget(t) && ValidRet(ret)
  {
    ret.IsIdentity() || ret.useSRet || StoreSize(t, Expected(ret)) <= AllocSize(t, ty)
  }

  /** Byte `k` of the argument travels. */
  predicate ArgCarries(t: Target, c: Coercion, k: nat)
    requires ValidTarget(t) && ValidArg(c)
  {
    c.IsIdentity() || c.useIndirect || Carries(t, Registers(c), 0, k)
  }

  predicate RetCarries(t: Target, ret: Coercion, k: nat)
    requires ValidTarget(t) && ValidRet(ret)
  {
    ret.IsIdentity() || ret.useSRet || Carries(t, Parts(Expected(ret)), 0, k)
  }

  /** What the caller gets from a body that returns the rebuilt value `r`. */
  ghost function RoundTrip(t: Target, ty: Type, ret: Coercion, r: Rebuilt, args: seq<BlockArg>, handover: Handover,
                           incoming: seq<Lane>, data: iset<nat>): Option<Cells>
    requires ValidTarget(t) && ValidRet(ret) && |args| == |incoming|
  {
    var value := RebuiltFrom(t, ty, r, args, incoming, data);
    if value.None? then None else Returned(t, ty, ret, handover, value.value, data)
  }

  /** The lanes of an argument, from `at` on, hold what the caller puts there. */
  predicate Holding(incoming: seq<Lane>, at: nat, lanes: seq<Lane>) {
    at + |lanes| <= |incoming| && forall j :: 0 <= j < |lanes| ==> incoming[at + j] == lanes[j]
  }

  /**
   Whatever else arrives, whatever was passed and whichever of its bytes carry data: the caller gets a value exactly
   when no store or load goes out of bounds, and then with every data byte that both classes carry.
   */
  ghost predicate GivesBack(t: Target, ty: Type, c: Coercion, ret: Coercion, r: Rebuilt, args: seq<BlockArg>,
                            handover: Handover, at: nat)
    requires ValidTarget(t) && ValidArg(c) && ValidRet(ret)
  {
    forall incoming: seq<Lane>, cells: Cells, data: iset<nat> ::
      |incoming| == |args| && |cells| == AllocSize(t, ty) && Holding(incoming, at, Passed(t, c, cells)) ==>
        var out := RoundTrip(t, ty, ret, r, args, handover, incoming, data);
        && (out.Some? <==> ArgFits(t, ty, c) && RetFits(t, ty, ret))
        && (out.Some? ==> |out.value| >= StoreSize(t, ty))
        && (out.Some? ==> forall k ::
              0 <= k < StoreSize(t, ty) && k in data && ArgCarries(t, c, k) && RetCarries(t, ret, k) ==>
                out.value[k] == cells[k])
  }

  /** How a result of this class is handed over. */
  predicate HandedOver(ret: Coercion, handover: Handover)
    requires ValidRet(ret)
  {
    if ret.IsIdentity() then handover == Direct
    else if ret.useSRet then handover.ThroughPointer?
    else handover == ReloadedAs(Of(Expected(ret)))
  }

  predicate DistinctIds(args: seq<BlockArg>) {
    forall i, j :: 0 <= i < j < |args| ==> args[i].id != args[j].id
  }

  lemma {:induction false} ArrivingAt(args: seq<BlockArg>, incoming: seq<Lane>, p: nat)
    requires DistinctIds(args) && |args| == |incoming| && p < |args|
    ensures Arriving(args, incoming, args[p].id) == Some((args[p].ty, incoming[p]))
  {
  }

  /** The registers that arrive are those that were passed. */
  lemma {:induction false} CollectedAt(t: Target, c: Coercion, ty: Type, r: Rebuilt, args: seq<BlockArg>,
                                       incoming: seq<Lane>, at: nat, cells: Cells)
    requires ValidTarget(t) && ValidArg(c) && !c.IsIdentity() && !c.useIndirect && DistinctIds(args)
    requires |args| == |incoming| && Reads(r, c, ty, args, at) && ArrivesAs(TypesOf(args), at, c, ty)
    requires Holding(incoming, at, Passed(t, c, cells))
    ensures r.ViaMemory? && Collected(args, incoming, r.args) == Some((Registers(c), Gather(t, Registers(c), 0, cells)))
  {
    hide Gather, Arriving, Collected;
    var tys, regs := Registers(c), Gather(t, Registers(c), 0, cells);
    assert Passed(t, c, cells) == RegisterLanes(tys, regs);
    assert Register(tys[0], regs[0]) == Passed(t, c, cells)[0] == incoming[at + 0];
    assert TypesOf(args)[at] == args[at].ty == tys[0];
    if c.IsTwoRegister() {
      assert Register(tys[1], regs[1]) == Passed(t, c, cells)[1] == incoming[at + 1];
      assert TypesOf(args)[at + 1] == args[at + 1].ty == tys[1];
      assert tys == [tys[0], tys[1]] && regs == [regs[0], regs[1]] && r.args == [args[at].id, args[at + 1].id];
      CollectedPair(args, incoming, at, tys, regs);
    } else {
      assert tys == [tys[0]] && regs == [regs[0]] && r.args == [args[at].id];
      CollectedOne(args, incoming, at, tys[0], regs[0]);
    }
  }

  lemma {:induction false} CollectedOne(args: seq<BlockArg>, incoming: seq<Lane>, p: nat, ty: Type, reg: Cells)
    requires DistinctIds(args) && |args| == |incoming| && p < |args|
    requires args[p].ty == ty && incoming[p] == Register(ty, reg)
    ensures Collected(args, incoming, [args[p].id]) == Some(([ty], [reg]))
  {
    ArrivingAt(args, incoming, p);
    hide Arriving;
    assert [args[p].id][1..] == [] && Collected(args, incoming, []) == Some(([], []));
    assert [ty] + [] == [ty] && [reg] + [] == [reg];
  }

  lemma {:induction false} CollectedPair(args: seq<BlockArg>, incoming: seq<Lane>, p: nat, tys: seq<Type>,
                                         regs: seq<Cells>)
    requires DistinctIds(args) && |args| == |incoming| && p + 1 < |args| && |tys| == |regs| == 2
    requires args[p].ty == tys[0] && incoming[p] == Register(tys[0], regs[0])
    requires args[p + 1].ty == tys[1] && incoming[p + 1] == Register(tys[1], regs[1])
    ensures Collected(args, incoming, [args[p].id, args[p + 1].id]) == Some((tys, regs))
  {
    ArrivingAt(args, incoming, p);
    CollectedOne(args, incoming, p + 1, tys[1], regs[1]);
    hide Arriving;
    assert [args[p].id, args[p + 1].id][1..] == [args[p + 1].id];
    assert [tys[0]] + [tys[1]] == tys && [regs[0]] + [regs[1]] == regs;
  }

  /** What the body rebuilds: nothing if the registers do not fit, otherwise every carried data byte. */
  lemma {:induction false} RebuiltKeeps(t: Target, ty: Type, c: Coercion, r: Rebuilt, args: seq<BlockArg>, at: nat,
                                        incoming: seq<Lane>, cells: Cells, data: iset<nat>)
    requires ValidTarget(t) && ValidArg(c) && DistinctIds(args) && |args| == |incoming| && |cells| == AllocSize(t, ty)
    requires Reads(r, c, ty, args, at) && ArrivesAs(TypesOf(args), at, c, ty)
    requires Holding(incoming, at, Passed(t, c, cells))
    ensures var value := RebuiltFrom(t, ty, r, args, incoming, data);
            && (value.Some? <==> ArgFits(t, ty, c))
            && (value.Some? ==> StoreSize(t, ty) <= |value.value| <= AllocSize(t, ty))
            && (value.Some? ==> forall k :: 0 <= k < StoreSize(t, ty) && k in data && ArgCarries(t, c, k) ==>
                                  value.value[k] == cells[k])
  {
    FieldRoom(t, ty, 0);
    if c.IsIdentity() || c.useIndirect {
      hide StoreSize, AllocSize, Arriving;
      assert incoming[at + 0] == Passed(t, c, cells)[0];
      ArrivingAt(args, incoming, at);
      assert TypesOf(args)[at] == args[at].ty;
    } else {
      hide *;
      CollectedAt(t, c, ty, r, args, incoming, at, cells);
      StoredKeeps(t, ty, Registers(c), cells);
      MemoryKeeps(t, ty, c, r, args, incoming, cells, data);
    }
  }

  lemma {:induction false} MemoryKeeps(t: Target, ty: Type, c: Coercion, r: Rebuilt, args: seq<BlockArg>,
                                       incoming: seq<Lane>, cells: Cells, data: iset<nat>)
    requires ValidTarget(t) && ValidArg(c) && !c.IsIdentity() && !c.useIndirect && |args| == |incoming|
    requires |cells| == AllocSize(t, ty) && StoreSize(t, ty) <= AllocSize(t, ty) && r.ViaMemory?
    requires Collected(args, incoming, r.args) == Some((Registers(c), Gather(t, Registers(c), 0, cells)))
    requires var slot := StoreRegisters(t, ty, Registers(c), Gather(t, Registers(c), 0, cells));
             && (slot.Some? <==> StoreSize(t, Whole(Registers(c))) <= AllocSize(t, ty))
             && (slot.Some? ==> |slot.value| == |cells| && forall k ::
                   0 <= k < |cells| && Carries(t, Registers(c), 0, k) ==> slot.value[k] == cells[k])
    ensures var value := RebuiltFrom(t, ty, r, args, incoming, data);
            && (value.Some? <==> ArgFits(t, ty, c))
            && (value.Some? ==> StoreSize(t, ty) <= |value.value| <= AllocSize(t, ty))
            && (value.Some? ==> forall k :: 0 <= k < StoreSize(t, ty) && k in data && ArgCarries(t, c, k) ==>
                                  value.value[k] == cells[k])
  {
    hide StoreSize, AllocSize, Collected, Gather, StoreRegisters, Carries, Registers, Whole;
  }

  /** Registers that fit are stored with every byte they have. */
  lemma StoredKeeps(t: Target, ty: Type, tys: seq<Type>, cells: Cells)
    requires ValidTarget(t) && |cells| == AllocSize(t, ty)
    ensures var slot := StoreRegisters(t, ty, tys, Gather(t, tys, 0, cells));
            && (slot.Some? <==> StoreSize(t, Whole(tys)) <= AllocSize(t, ty))
            && (slot.Some? ==> |slot.value| == |cells| &&
                               forall k :: 0 <= k < |cells| && Carries(t, tys, 0, k) ==> slot.value[k] == cells[k])
  {
    hide StoreSize, AllocSize, Gather, Scatter, Carries;
    var slot := FreshSlot(AllocSize(t, ty));
    forall k | 0 <= k < |slot| && Carries(t, tys, 0, k)
      ensures Scatter(t, tys, 0, Gather(t, tys, 0, cells), slot)[k] == cells[k]
    {
      GatherScatter(t, tys, 0, cells, slot, k);
    }
  }

  /** What comes back: nothing if the result's registers do not fit, otherwise every carried data byte. */
  lemma ReturnedKeeps(t: Target, ty: Type, ret: Coercion, handover: Handover, value: Cells, data: iset<nat>)
    requires ValidTarget(t) && ValidRet(ret) && HandedOver(ret, handover)
    requires StoreSize(t, ty) <= |value| <= AllocSize(t, ty)
    ensures var out := Returned(t, ty, ret, handover, value, data);
            && (out.Some? <==> RetFits(t, ty, ret))
            && (out.Some? ==> |out.value| >= StoreSize(t, ty))
            && (out.Some? ==> forall k :: 0 <= k < StoreSize(t, ty) && k in data && RetCarries(t, ret, k) ==>
                                out.value[k] == value[k])
  {
    hide StoreSize, AllocSize, Gather, Scatter, Carries;
    if !ret.IsIdentity() && !ret.useSRet {
      var tys, empty := Parts(Expected(ret)), FreshSlot(AllocSize(t, ty));
      var slot := StoreStruct(empty, value, data).value;
      forall k | 0 <= k < |empty| && Carries(t, tys, 0, k)
        ensures Scatter(t, tys, 0, Gather(t, tys, 0, slot), empty)[k] == slot[k]
      {
        GatherScatter(t, tys, 0, slot, empty, k);
      }
    }
  }

  /** A rewritten body that returns its argument gives back every data byte that travels, register by register. */
  lemma ReturningAnArgumentGivesBack(t: Target, ty: Type, c: Coercion, ret: Coercion, r: Rebuilt, args: seq<BlockArg>,
                                     handover: Handover, at: nat)
    requires ValidTarget(t) && ValidArg(c) && ValidRet(ret) && DistinctIds(args) && HandedOver(ret, handover)
    requires Reads(r, c, ty, args, at) && ArrivesAs(TypesOf(args), at, c, ty)
    ensures GivesBack(t, ty, c, ret, r, args, handover, at)
  {
    forall incoming: seq<Lane>, cells: Cells, data: iset<nat> |
      |incoming| == |args| && |cells| == AllocSize(t, ty) && Holding(incoming, at, Passed(t, c, cells))
      ensures var out := RoundTrip(t, ty, ret, r, args, handover, incoming, data);
              && (out.Some? <==> ArgFits(t, ty, c) && RetFits(t, ty, ret))
              && (out.Some? ==> |out.value| >= StoreSize(t, ty))
              && (out.Some? ==> forall k ::
                    0 <= k < StoreSize(t, ty) && k in data && ArgCarries(t, c, k) && RetCarries(t, ret, k) ==>
                      out.value[k] == cells[k])
    {
      hide StoreSize, AllocSize, Holding, Passed, RebuiltFrom, Returned, ArgFits, RetFits, ArgCarries, RetCarries;
      hide Reads, ArrivesAs, HandedOver, DistinctIds;
      RebuiltKeeps(t, ty, c, r, args, at, incoming, cells, data);
      var value := RebuiltFrom(t, ty, r, args, incoming, data);
      if value.Some? {
        ReturnedKeeps(t, ty, ret, handover, value.value, data);
      }
    }
  }

  /** A class that carries the whole value: nothing goes out of bounds, and every byte is in a register. */
  predicate CarriesAll(t: Target, ty: Type, c: Coercion)
    requires ValidTarget(t) && ValidArg(c)
  {
    ArgFits(t, ty, c) && forall k :: 0 <= k < StoreSize(t, ty) ==> ArgCarries(t, c, k)
  }

  predicate ReturnsAll(t: Target, ty: Type, ret: Coercion)
    requires ValidTarget(t) && ValidRet(ret)
  {
    RetFits(t, ty, ret) && forall k :: 0 <= k < StoreSize(t, ty) ==> RetCarries(t, ret, k)
  }

  /** A pair carries bytes of its first register from the start, and of its second from that field's offset. */
  lemma PairCarries(t: Target, a: Type, b: Type, k: nat)
    requires ValidTarget(t)
    ensures Carries(t, [a, b], 0, k) <==>
            var second := FieldStart(t, b, AllocSize(t, a));
            k < StoreSize(t, a) || second <= k < second + StoreSize(t, b)
  {
    StartOfFirst(t, a);
    hide FieldStart, AllocSize, StoreSize;
    assert [a, b][1..] == [b] && [b][1..] == [];
    assert Carries(t, [b], AllocSize(t, a), k) <==>
           var second := FieldStart(t, b, AllocSize(t, a)); second <= k < second + StoreSize(t, b);
  }

  lemma SingleCarries(t: Target, a: Type, k: nat)
    requires ValidTarget(t)
    ensures Carries(t, [a], 0, k) <==> k < StoreSize(t, a)
  {
    StartOfFirst(t, a);
    hide FieldStart, AllocSize, StoreSize;
    assert [a][1..] == [];
  }

  lemma StartOfFirst(t: Target, a: Type)
    requires ValidTarget(t)
    ensures FieldStart(t, a, 0) == 0
  {
    PositiveAlign(t, a);
  }

  /** A pair in memory: its first register is at offset 0, its second at that field's offset. */
  lemma PairStored(t: Target, a: Type, b: Type, at: nat, first: Cells, second: Cells, slot: Cells)
    requires ValidTarget(t) && |first| == StoreSize(t, a) && at == FieldStart(t, b, AllocSize(t, a))
    requires at + |second| <= |slot|
    ensures |first| <= at && SideBySide(Scatter(t, [a, b], 0, [first, second], slot), at, first, second, slot)
  {
    PairScatters(t, a, b, at, first, second, slot);
    hide *;
    TwoOverwrites(at, first, second, slot);
  }

  lemma PairScatters(t: Target, a: Type, b: Type, at: nat, first: Cells, second: Cells, slot: Cells)
    requires ValidTarget(t) && at == FieldStart(t, b, AllocSize(t, a))
    ensures Scatter(t, [a, b], 0, [first, second], slot) == Overwrite(Overwrite(slot, 0, first), at, second)
    ensures StoreSize(t, a) <= at
  {
    StartOfFirst(t, a);
    FieldRoom(t, a, 0);
    FieldRoom(t, b, AllocSize(t, a));
    hide *;
    assert [a, b][1..] == [b] && [first, second][1..] == [second];
    ScatterStep(t, [a, b], 0, [first, second], slot);
    ScatterStep(t, [b], AllocSize(t, a), [second], Overwrite(slot, 0, first));
  }

  /** `first` is at the start and `second` at `at`; the rest is as in `slot`. */
  predicate SideBySide(r: Cells, at: nat, first: Cells, second: Cells, slot: Cells)
    requires |first| <= at && at + |second| <= |slot|
  {
    && |r| == |slot| && r[..|first|] == first && r[at..at + |second|] == second
    && r[|first|..at] == slot[|first|..at] && r[at + |second|..] == slot[at + |second|..]
  }

  lemma TwoOverwrites(at: nat, first: Cells, second: Cells, slot: Cells)
    requires |first| <= at && at + |second| <= |slot|
    ensures SideBySide(Overwrite(Overwrite(slot, 0, first), at, second), at, first, second, slot)
  {
  }

  lemma ScatterStep(t: Target, tys: seq<Type>, size: nat, regs: seq<Cells>, slot: Cells)
    requires ValidTarget(t) && |regs| == |tys| > 0
    ensures var start := FieldStart(t, tys[0], size);
            var next := Overwrite(slot, start, regs[0]);
            && Scatter(t, tys, size, regs, slot) == Scatter(t, tys[1..], start + AllocSize(t, tys[0]), regs[1..], next)
            && (|tys| == 1 ==> Scatter(t, tys, size, regs, slot) == next)
  {
    hide FieldStart, AllocSize, Overwrite;
  }

  /** And back: loading the pair gives those bytes to the registers. */
  lemma PairLoaded(t: Target, a: Type, b: Type, at: nat, size: nat, cells: Cells)
    requires ValidTarget(t) && at == FieldStart(t, b, AllocSize(t, a)) && size == StoreSize(t, b)
    requires at + size <= |cells|
    ensures var regs := Gather(t, [a, b], 0, cells);
            && |regs[0]| == StoreSize(t, a) <= at && regs[0] == cells[..|regs[0]|] && regs[1] == cells[at..at + size]
  {
    StartOfFirst(t, a);
    FieldRoom(t, a, 0);
    FieldRoom(t, b, AllocSize(t, a));
    hide *;
    GatherStep(t, [a, b], 0, cells);
    GatherStep(t, [b], AllocSize(t, a), cells);
    assert [a, b][1..] == [b];
    SliceIs(cells, 0, StoreSize(t, a));
    SliceIs(cells, at, size);
  }

  lemma GatherStep(t: Target, tys: seq<Type>, size: nat, cells: Cells)
    requires ValidTarget(t) && |tys| > 0
    ensures var start, regs := FieldStart(t, tys[0], size), Gather(t, tys, size, cells);
            && regs[0] == Slice(cells, start, StoreSize(t, tys[0]))
            && regs[1..] == Gather(t, tys[1..], start + AllocSize(t, tys[0]), cells)
  {
    hide FieldStart, AllocSize, StoreSize, Slice;
  }

  lemma SliceIs(cells: Cells, at: nat, n: nat)
    requires at + n <= |cells|
    ensures Slice(cells, at, n) == cells[at..at + n]
  {
  }

  // ----- the rewrite, for arbitrary classes -----

  /** A function as it is built: its uses are its own arguments, and it returns its result as it is. */
  ghost predicate Unchanged(func: Func)
    reads func, func.entry
  {
    && func.handover == Direct && func.byVal == map[]
    && (func.entry != null ==>
          && func.entry.Valid() && TypesOf(func.entry.args) == func.params && |func.uses| == |func.params|
          && forall i :: 0 <= i < |func.params| ==> func.uses[i] == Same(func.entry.args[i].id))
  }

  /** Rewrite a definition by any classes; a body that returns an argument gives back what both classes carry. */
  method RewriteByClasses(t: Target, func: Func, cs: seq<Coercion>, ret: Coercion)
    requires ValidTarget(t) && Unchanged(func)
    requires |cs| == |func.params| && (forall c <- cs :: ValidArg(c)) && ValidRet(ret)
    modifies func, func.entry
    ensures func.entry == old(func.entry)
    ensures func.entry != null ==> TypesOf(func.entry.args) == func.params && |func.uses| == |cs|
    ensures func.entry != null ==>
              forall i :: 0 <= i < |cs| && old(func.result) == Of(old(func.params)[i]) ==>
                GivesBack(t, old(func.params)[i], cs[i], ret, func.uses[i], func.entry.args, func.handover,
                          Position(cs, old(func.params), ret, i))
    ensures NothingToDo(cs, ret) ==>
              && func.params == old(func.params) && func.result == old(func.result) && func.uses == old(func.uses)
              && func.byVal == map[] && (func.entry != null ==> func.entry.args == old(func.entry.args))
    ensures !NothingToDo(cs, ret) ==>
              && func.params == Hidden(ret) + AllLanes(cs, old(func.params))
              && ReturnsAs(func.result, ret, old(func.result))
              && func.byVal == AsMap(ByVals(cs, old(func.params), ret, |cs|))
    ensures forall i :: 0 <= i < |cs| ==>
              ArrivesAs(func.params, Position(cs, old(func.params), ret, i), cs[i], old(func.params)[i])
  {
    hide AllLanes, Reads, Position, ByVals, AsMap, ArrivesAs, ReturnsAs, GivesBack, NothingToDo, ValidArg, ValidRet;
    hide NewResult, HandedOver, Hidden, TypesOf;
    ghost var tys, result := func.params, func.result;
    Process(func, cs, ret);
    forall i | 0 <= i < |cs|
      ensures ArrivesAs(func.params, Position(cs, tys, ret, i), cs[i], tys[i])
    {
      if NothingToDo(cs, ret) { NothingMoves(cs, tys, ret, i); }
    }
    if func.entry != null {
      forall i | 0 <= i < |cs| && result == Of(tys[i])
        ensures GivesBack(t, tys[i], cs[i], ret, func.uses[i], func.entry.args, func.handover,
                          Position(cs, tys, ret, i))
      {
        assert ValidArg(cs[i]);
        if NothingToDo(cs, ret) {
          NothingMoves(cs, tys, ret, i);
          UsedAsIs(cs[i], tys[i], func.entry.args, i);
        }
        HandoverIs(cs, ret, result, func.result, func.handover);
        ReturningAnArgumentGivesBack(t, tys[i], cs[i], ret, func.uses[i], func.entry.args, func.handover,
                                     Position(cs, tys, ret, i));
      }
    }
  }

  lemma UsedAsIs(c: Coercion, ty: Type, args: seq<BlockArg>, i: nat)
    requires ValidArg(c) && c.IsIdentity() && i < |args|
    ensures Reads(Same(args[i].id), c, ty, args, i)
  {
  }

  /** With nothing to do, every argument is at its own position. */
  lemma NothingMoves(cs: seq<Coercion>, tys: seq<Type>, ret: Coercion, i: nat)
    requires |cs| == |tys| && i < |cs| && (forall c <- cs :: ValidArg(c)) && ValidRet(ret) && NothingToDo(cs, ret)
    ensures Position(cs, tys, ret, i) == i && cs[i].IsIdentity() && ArrivesAs(tys, i, cs[i], tys[i])
  {
    hide AllLanes;
    assert forall c <- cs[..i] :: c.IsIdentity();
    LanesOfIdentities(cs[..i], tys[..i]);
  }

  lemma {:induction false} LanesOfIdentities(cs: seq<Coercion>, tys: seq<Type>)
    requires |cs| == |tys| && (forall c <- cs :: ValidArg(c) && c.IsIdentity())
    ensures AllLanes(cs, tys) == tys
    decreases |cs|
  {
    if cs != [] {
      LanesOfIdentities(cs[1..], tys[1..]);
      assert [tys[0]] + tys[1..] == tys;
    }
  }

  lemma HandoverIs(cs: seq<Coercion>, ret: Coercion, result: Result, newResult: Result, handover: Handover)
    requires ValidRet(ret)
    requires if NothingToDo(cs, ret) then handover == Direct
             else
               && newResult == NewResult(ret, result)
               && (ret.useSRet ==> handover.ThroughPointer?)
               && (!ret.useSRet && !ret.IsIdentity() ==> handover == ReloadedAs(newResult))
               && (ret.IsIdentity() ==> handover == Direct)
    ensures HandedOver(ret, handover)
  {
  }
}
