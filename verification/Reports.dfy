/**
 What a script is told after a call, value by value, in terms of the bytes the callee left and the
 return register.
 */
module Reports {
  import opened Wrappers
  import opened Numbers
  import opened Types
  import opened Layout
  import opened StructBytes
  import opened Memory
  import opened Coercion
  import opened Signature
  import opened Marshal
  import opened Delivery
  import opened Effects
  import opened Scripts
  import opened Arrival

  lemma {:induction false} OutputIsListed(c: Ctx, inputs: seq<Input>, seen: Snapshot, m: Mem, k: nat, i: nat,
                                          entry: (nat, ScriptVal))
    requires SoundDef(c.def) && i < k <= |inputs| == |seen.cells| == Arity(c) && MemOk(m)
    requires entry in OutputOf(c, inputs, seen, m, i)
    ensures entry in OutputsUpTo(c, inputs, seen, m, k)
  {
    hide OutputOf, SoundDef, MemOk;
    if i < k - 1 {
      OutputIsListed(c, inputs, seen, m, k - 1, i, entry);
    }
  }

  lemma {:induction false} StructIsListed(c: Ctx, inputs: seq<Input>, seen: Snapshot, m: Mem, k: nat, i: nat,
                                          entry: (nat, seq<ScriptVal>))
    requires SoundDef(c.def) && i < k <= |inputs| == |seen.cells| == Arity(c)
    requires entry in StructOutputOf(c, inputs, seen, m, i)
    ensures entry in StructOutputsUpTo(c, inputs, seen, m, k)
  {
    hide StructOutputOf, SoundDef;
    if i < k - 1 {
      StructIsListed(c, inputs, seen, m, k - 1, i, entry);
    }
  }

  /** A scripted `ocstr` is reported as the decoded bytes before the first NUL the callee left, wherever
      that is within the old text and the length it was told. */
  lemma StringIsReported(c: Ctx, inputs: seq<Input>, before: Mem, seen: Snapshot, e: Effect, m: Mem, ret: u64,
                         r: ScriptResult, outs: seq<OutSlot>, structs: seq<StructSlot>, i: nat)
      returns (z: nat)
    requires SoundDef(c.def) && Delivered(c, inputs, before, seen) && i < Arity(c)
    requires |inputs| == |seen.cells| == Arity(c) && Returned(c, inputs, seen, e, m)
    requires Reported(c, inputs, seen, m, ret, r, outs, structs)
    requires inputs[i].Script? && c.def.argTypes[i].OCString?
    ensures TargetAt(seen, i).Some? && SeenLength(c.def.argTypes[i], seen.cells).Some? && PartFits(c, seen, e, i)
    ensures var o, len := seen.mem.objs[TargetAt(seen, i).value], SeenLength(c.def.argTypes[i], seen.cells).value;
      z <= (if o.used >= len then o.used else len)
    ensures var left := LeftIn(c, seen, e, i).data;
      EndsAt(left, z) && (i, Str(c.env.lossy(left[..z]))) in r.outputs
  {
    hide Delivered, Returned, Reported, EndsAt, LeftIn, SeenLength, SoundDef, MeaningAt, IsOutputString, OutputOf,
      OutputsUpTo, StructOutputsUpTo, PartFits, TargetAt, MemOk;
    ReportHolds(c, inputs, seen, m, ret, r, outs, structs);
    StringIsOwed(c, inputs, before, seen, i);
    z := OutputStringProtocol(c, inputs, before, seen, e, m, i);
    FitsOne(c, inputs, seen, e, m, i);
    var o := m.objs[TargetAt(seen, i).value];
    StringEntry(c, inputs, seen, m, i);
    OutputIsListed(c, inputs, seen, m, Arity(c), i, (i, Str(o.data)));
  }

  lemma FitsOne(c: Ctx, inputs: seq<Input>, seen: Snapshot, e: Effect, m: Mem, i: nat)
    requires SoundDef(c.def) && i < |inputs| == |seen.cells| == Arity(c) && Returned(c, inputs, seen, e, m)
    ensures PartFits(c, seen, e, i)
  {
    hide MeaningAt, PartFits, TargetAt;
  }

  lemma StringEntry(c: Ctx, inputs: seq<Input>, seen: Snapshot, m: Mem, i: nat)
    requires SoundDef(c.def) && i < |inputs| == |seen.cells| == Arity(c) && MemOk(m)
    requires MeaningAt(c, inputs, i).Some? && MeaningAt(c, inputs, i).value.PassOutText?
    requires TargetAt(seen, i).Some? && TargetAt(seen, i).value in m.objs
    requires m.objs[TargetAt(seen, i).value].used == |m.objs[TargetAt(seen, i).value].data|
    ensures (i, Str(m.objs[TargetAt(seen, i).value].data)) in OutputOf(c, inputs, seen, m, i)
  {
    hide MeaningAt, TargetAt, SoundDef;
    var o := m.objs[TargetAt(seen, i).value];
    assert o.data[..o.used] == o.data;
    assert OutputOf(c, inputs, seen, m, i)[0] == (i, Str(o.data));
  }

  lemma VariableEntry(c: Ctx, inputs: seq<Input>, seen: Snapshot, m: Mem, i: nat, kind: OutKind)
    requires SoundDef(c.def) && i < |inputs| == |seen.cells| == Arity(c) && MemOk(m)
    requires MeaningAt(c, inputs, i).Some? && MeaningAt(c, inputs, i).value.PassOut?
    requires MeaningAt(c, inputs, i).value.kind == kind && kind != OutText
    requires TargetAt(seen, i).Some? && TargetAt(seen, i).value in m.objs
    requires |m.objs[TargetAt(seen, i).value].data| == KindSize(kind)
    ensures m.objs[TargetAt(seen, i).value].used <= |m.objs[TargetAt(seen, i).value].data|
    ensures (i, OutValue(c.env, kind, m.objs[TargetAt(seen, i).value])) in OutputOf(c, inputs, seen, m, i)
  {
    hide MeaningAt, TargetAt, SoundDef, OutValue, KindSize;
    assert OutputOf(c, inputs, seen, m, i)[0] == (i, OutValue(c.env, kind, m.objs[TargetAt(seen, i).value]));
  }

  lemma StringIsOwed(c: Ctx, inputs: seq<Input>, before: Mem, seen: Snapshot, i: nat)
    requires SoundDef(c.def) && Delivered(c, inputs, before, seen) && i < Arity(c)
    requires |inputs| == Arity(c) && inputs[i].Script? && c.def.argTypes[i].OCString?
    ensures MeaningAt(c, inputs, i).Some? && MeaningAt(c, inputs, i).value.PassOutText?
    ensures IsOutputString(c, inputs, i)
  {
    hide Receives;
  }

  lemma ReportHolds(c: Ctx, inputs: seq<Input>, seen: Snapshot, m: Mem, ret: u64, r: ScriptResult,
                    outs: seq<OutSlot>, structs: seq<StructSlot>)
    requires SoundDef(c.def) && |inputs| == |seen.cells| == Arity(c)
    requires Reported(c, inputs, seen, m, ret, r, outs, structs)
    ensures MemOk(m)
    ensures forall entry :: entry in OutputsUpTo(c, inputs, seen, m, Arity(c)) ==> entry in r.outputs
    ensures forall entry :: entry in StructOutputsUpTo(c, inputs, seen, m, Arity(c)) ==> entry in r.structOutputs
  {
    hide ExactlyTheOutputs, ExactlyTheStructs, ReadOuts, ReadStructs, OutputsUpTo, StructOutputsUpTo, OutReadable,
      StructReadable, ReturnValue, ReturnStruct;
  }

  /** The declared type allows the callee `n` bytes through argument `i`. */
  predicate Allows(d: ArgType, cells: seq<ArgVal>, n: nat) {
    if d.Pointer? then
      n == if d.target.Struct? then d.target.layout.size
        else if IsScalar(d.target) then SizeOf(d.target)
        else if IsAddressType(d.target) then 8 else 0
    else IsTold(d, cells, n)
  }

  /** What a callee leaves: the bytes it writes, as far as it is allowed to, and the old ones after them. */
  lemma CalleeLeaves(c: Ctx, seen: Snapshot, e: Effect, i: nat, n: nat)
    requires SoundDef(c.def) && i < |seen.cells| == Arity(c) && TargetAt(seen, i).Some? && PartFits(c, seen, e, i)
    requires Allows(c.def.argTypes[i], seen.cells, n)
    ensures var o, left, w := seen.mem.objs[TargetAt(seen, i).value], LeftIn(c, seen, e, i),
        if i < |e.writes| then e.writes[i] else [];
      && left.used == o.used && |left.data| == |o.data|
      && forall b :: 0 <= b < |o.data| ==> left.data[b] == if b < |w| && b < n then w[b] else o.data[b]
  {
    hide SoundDef, TargetAt, SizeOf, IsScalar;
  }

  /** The variable behind a scripted `*T` is reported as the value of the bytes the callee left in it. */
  lemma VariableIsReported(c: Ctx, inputs: seq<Input>, before: Mem, seen: Snapshot, e: Effect, m: Mem, ret: u64,
                           r: ScriptResult, outs: seq<OutSlot>, structs: seq<StructSlot>, i: nat)
      returns (v: ScriptVal)
    requires SoundDef(c.def) && Delivered(c, inputs, before, seen) && i < Arity(c)
    requires |inputs| == |seen.cells| == Arity(c) && Returned(c, inputs, seen, e, m)
    requires Reported(c, inputs, seen, m, ret, r, outs, structs)
    requires inputs[i].Script? && c.def.argTypes[i].Pointer?
    ensures TargetAt(seen, i).Some? && PartFits(c, seen, e, i) && (i, v) in r.outputs
    ensures ReadsAs(c.env.fl, c.env.follow, c.def.argTypes[i].target, LeftIn(c, seen, e, i).data, v)
  {
    hide Delivered, Returned, Reported, LeftIn, SoundDef, MeaningAt, ReadsAs, OutputOf, OutputsUpTo, StructOutputsUpTo,
      PartFits, TargetAt, MemOk, OutValue, KindSize, IsScalar, SizeOf;
    ReportHolds(c, inputs, seen, m, ret, r, outs, structs);
    VariableIsOwed(c, inputs, before, seen, i);
    LeftBytes(c, inputs, seen, e, m, i);
    var kind, o := MeaningAt(c, inputs, i).value.kind, m.objs[TargetAt(seen, i).value];
    VariableEntry(c, inputs, seen, m, i, kind);
    v := OutValue(c.env, kind, o);
    OutReads(c.env, kind, c.def.argTypes[i].target, o);
    OutputIsListed(c, inputs, seen, m, Arity(c), i, (i, v));
  }

  /** What an argument's object holds after the call, if it is no output string. */
  lemma LeftBytes(c: Ctx, inputs: seq<Input>, seen: Snapshot, e: Effect, m: Mem, i: nat)
    requires SoundDef(c.def) && i < |inputs| == |seen.cells| == Arity(c) && Returned(c, inputs, seen, e, m)
    requires TargetAt(seen, i).Some? && !c.def.argTypes[i].OCString?
    ensures PartFits(c, seen, e, i) && TargetAt(seen, i).value in m.objs
    ensures m.objs[TargetAt(seen, i).value] == LeftIn(c, seen, e, i)
    ensures |LeftIn(c, seen, e, i).data| == |seen.mem.objs[TargetAt(seen, i).value].data|
  {
    hide MeaningAt, Part, TargetAt;
  }

  lemma VariableIsOwed(c: Ctx, inputs: seq<Input>, before: Mem, seen: Snapshot, i: nat)
    requires SoundDef(c.def) && Delivered(c, inputs, before, seen) && i < Arity(c)
    requires |inputs| == |seen.cells| == Arity(c) && inputs[i].Script? && c.def.argTypes[i].Pointer?
    ensures MeaningAt(c, inputs, i).Some? && MeaningAt(c, inputs, i).value.PassOut? && TargetAt(seen, i).Some?
    ensures var kind, t := MeaningAt(c, inputs, i).value.kind, c.def.argTypes[i].target;
      && KindOf(t) == Some(kind) && IsScalar(t)
      && |seen.mem.objs[TargetAt(seen, i).value].data| == KindSize(kind) == SizeOf(t)
  {
    assert Receives(c.def.argTypes[i], MeaningAt(c, inputs, i).value, seen.cells, i, before, seen.mem);
    KindsMatch(c.env, c.def.argTypes[i].target, inputs[i].val);
    hide OutInit, Delivered, SoundDef, BufferReady, SeenLength;
  }

  /** The kind of variable a type is stored in. */
  function KindOf(t: ArgType): Option<OutKind> {
    match t
    case Int(ty) => Some(OutInt(ty))
    case F32 => Some(OutF32)
    case F64 => Some(OutF64)
    case OpaquePointer => Some(OutPtr)
    case _ => None
  }

  lemma KindsMatch(env: Env, t: ArgType, v: ScriptVal)
    ensures OutInit(env, t, v).Some? ==>
      && OutInit(env, t, v).value.PassOut? && KindOf(t) == Some(OutInit(env, t, v).value.kind)
      && IsScalar(t) && |OutInit(env, t, v).value.bytes| == KindSize(OutInit(env, t, v).value.kind) == SizeOf(t)
  {
    hide Encode, EncodeInt, ScriptInt, ScriptFloat;
  }

  lemma OutReads(env: Env, kind: OutKind, t: ArgType, o: Obj)
    requires KindOf(t) == Some(kind) && IsScalar(t) && |o.data| == KindSize(kind) == SizeOf(t) && o.used <= |o.data|
    ensures ReadsAs(env.fl, env.follow, t, o.data, OutValue(env, kind, o))
  {
    hide Decode, Wrap, Pow256;
    Pow256Small(4);
    Pow256Small(8);
    Pow256Bound(t);
    if t.Int? {
      ShownIsRepresentative(t.ty, Decode(o.data));
    }
  }

  /** A scripted `*{...}` is reported field by field, each as the value of the bytes left in it. */
  lemma StructIsReported(c: Ctx, inputs: seq<Input>, before: Mem, seen: Snapshot, e: Effect, m: Mem, ret: u64,
                         r: ScriptResult, outs: seq<OutSlot>, structs: seq<StructSlot>, i: nat, layout: StructType)
      returns (vals: seq<ScriptVal>)
    requires SoundDef(c.def) && Delivered(c, inputs, before, seen) && i < Arity(c)
    requires |inputs| == |seen.cells| == Arity(c) && Returned(c, inputs, seen, e, m)
    requires Reported(c, inputs, seen, m, ret, r, outs, structs)
    requires inputs[i].ScriptStruct? && c.def.argTypes[i] == Pointer(Struct(layout))
    ensures TargetAt(seen, i).Some? && PartFits(c, seen, e, i) && (i, vals) in r.structOutputs
    ensures Spaced(layout) && |LeftIn(c, seen, e, i).data| == layout.size && |vals| == |layout.fields|
    ensures var left := LeftIn(c, seen, e, i).data; forall j :: 0 <= j < |vals| ==>
      ReadsAs(c.env.fl, c.env.follow, layout.fields[j].argType, FieldSlice(layout, left, j), vals[j])
  {
    StructIsOwed(c, inputs, before, seen, i, layout);
    LeftBytes(c, inputs, seen, e, m, i);
    hide Delivered, Returned, Reported, LeftIn, SoundDef, MeaningAt, ReadsAs, Spaced, FieldValue;
    ReportHolds(c, inputs, seen, m, ret, r, outs, structs);
    var bytes := m.objs[TargetAt(seen, i).value].data;
    vals := ReadAll(c.env.fl, c.env.follow, layout, bytes);
    assert StructOutputOf(c, inputs, seen, m, i) == [(i, vals)];
    StructIsListed(c, inputs, seen, m, Arity(c), i, (i, vals));
    forall j | 0 <= j < |vals|
      ensures ReadsAs(c.env.fl, c.env.follow, layout.fields[j].argType, FieldSlice(layout, bytes, j), vals[j])
    {
      SpacedField(layout, j);
      FieldReads(c.env.fl, c.env.follow, layout.fields[j].argType, FieldSlice(layout, bytes, j));
    }
  }

  lemma SpacedField(layout: StructType, j: nat)
    requires Spaced(layout) && j < |layout.fields|
    ensures IsScalar(layout.fields[j].argType)
  {
  }

  lemma StructIsOwed(c: Ctx, inputs: seq<Input>, before: Mem, seen: Snapshot, i: nat, layout: StructType)
    requires SoundDef(c.def) && Delivered(c, inputs, before, seen) && i < Arity(c)
    requires |inputs| == |seen.cells| == Arity(c)
    requires inputs[i].ScriptStruct? && c.def.argTypes[i] == Pointer(Struct(layout))
    ensures MeaningAt(c, inputs, i).Some? && MeaningAt(c, inputs, i).value.PassOutStruct? && TargetAt(seen, i).Some?
    ensures MeaningAt(c, inputs, i).value.layout == layout && Spaced(layout)
    ensures |seen.mem.objs[TargetAt(seen, i).value].data| == layout.size
  {
    hide Delivered, SoundDef, BufferReady, SeenLength, Spaced, ScriptStructMeaning, FromScriptVals, WfType, ValidState;
    var p := Received(c, inputs, before, seen, i);
    ScriptStructByAddressCases(c.env, layout, inputs[i].vals);
    ByAddressIsSized(c, inputs, i, layout);
  }

  lemma ByAddressIsSized(c: Ctx, inputs: seq<Input>, i: nat, layout: StructType)
    requires SoundDef(c.def) && i < |inputs| && i < Arity(c) && MeaningAt(c, inputs, i).Some?
    requires MeaningAt(c, inputs, i).value.PassOutStruct? && c.def.argTypes[i] == Pointer(Struct(layout))
    ensures MeaningAt(c, inputs, i).value.layout == layout
    ensures |MeaningAt(c, inputs, i).value.bytes| == layout.size
  {
    ArgIsShaped(c, inputs, i);
    hide MeaningAt, Spaced;
  }

  /** The reported result, by declared type. */
  lemma ReturnIsReported(c: Ctx, inputs: seq<Input>, seen: Snapshot, m: Mem, ret: u64, r: ScriptResult,
                         outs: seq<OutSlot>, structs: seq<StructSlot>)
    requires SoundDef(c.def) && |inputs| == |seen.cells| == Arity(c)
    requires Reported(c, inputs, seen, m, ret, r, outs, structs)
    ensures match c.def.returnType
      case Int(ty) => r.returnVal.Integer? && r.returnStruct == None
        && InRange(if ty == U64 then I64 else ty, r.returnVal.n) && (r.returnVal.n - ret) % Modulus(ty) == 0
      case F32 => r.returnVal == Number(c.env.fl.widen(ret % 0x1_0000_0000)) && r.returnStruct == None
      case F64 => r.returnVal == Number(ret) && r.returnStruct == None
      case CString => r.returnVal == (if ret == 0 then Null else Str(c.env.follow(ret))) && r.returnStruct == None
      case OpaquePointer => r.returnVal == (if ret == 0 then Null else Address(ret)) && r.returnStruct == None
      case Pointer(Struct(st)) =>
        if ret == 0 then r.returnVal == Null && r.returnStruct == None
        else r.returnVal == Nil && r.returnStruct == Some(StructState(st, c.env.peek(ret, st.size), 0))
      case Pointer(_) => r.returnVal == (if ret == 0 then Null else Address(ret)) && r.returnStruct == None
      case _ => r.returnVal == Nil && r.returnStruct == None
  {
    if c.def.returnType.Int? {
      ReturnIsRepresentative(c.env, c.def.returnType.ty, ret);
    }
    hide ExactlyTheOutputs, ExactlyTheStructs, ReadOuts, ReadStructs, OutputsUpTo, StructOutputsUpTo, OutsReadable,
      StructsReadable, SoundDef, Wrap;
  }
}
