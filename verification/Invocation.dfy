/**
 `Invocation` as the source has it: two parallel buffers filled by pushes, rewritten in place before
 the call, read by the callee through raw pointers, and drained afterwards.
 */
module Invocations {
  import opened Wrappers
  import opened Numbers
  import opened Types
  import opened Layout
  import opened StructBytes
  import opened Memory
  import opened Coercion
  import opened Signature
  import opened Marshal
  import opened Exchange
  import opened Delivery
  import opened Effects
  import opened Scripts
  import opened Arrival

  class Invocation {
    const ctx: Ctx
    /** `arg_ptrs`. */
    var argPtrs: seq<ArgPtr>
    /** The storage of `arg_vals`; its first `valLen` cells are in use. */
    var argVals: array<ArgVal>
    var valLen: nat
    /** Which storage the cells are in: growing the buffer moves them. */
    var base: nat
    var mem: Mem
    var outSlots: seq<OutSlot>
    var structSlots: seq<StructSlot>

    /** What has been pushed since the last successful call. */
    ghost var inputs: seq<Input>
    /** Every object this invocation has ever borrowed or created. */
    ghost var taken: set<nat>
    /** Slots that earlier plain calls left behind. */
    ghost var staleOuts: seq<OutSlot>
    ghost var staleStructs: seq<StructSlot>

    ghost function View(): Frame
      reads this, argVals
      requires valLen <= argVals.Length
    {
      Frame(argPtrs, argVals[..valLen], mem, outSlots, structSlots)
    }

    /** The cells never outgrow the reserved storage, and every argument is in place. */
    ghost predicate Valid()
      reads this, argVals
    {
      && argVals.Length == 4 * Arity(ctx)
      && valLen <= argVals.Length
      && var frameOk := FrameOk(ctx, inputs, base, taken, View());
      && frameOk
      && var slotsOk := SlotsOk(ctx, inputs, View(), taken, staleOuts, staleStructs);
      && slotsOk
    }

    constructor Prep(ctx: Ctx, mem: Mem)
      requires CtxOk(ctx) && MemOk(mem)
      ensures Valid() && fresh(argVals)
      ensures this.ctx == ctx && this.mem == mem && inputs == [] && taken == {}
      ensures staleOuts == [] && staleStructs == []
    {
      this.ctx := ctx;
      argPtrs := [];
      argVals := new ArgVal[4 * Arity(ctx)](_ => NoVal);
      valLen := 0;
      base := 0;
      this.mem := mem;
      outSlots := [];
      structSlots := [];
      inputs := [];
      taken := {};
      staleOuts := [];
      staleStructs := [];
    }

    // -- the cell buffer --------------------------------------------------------------------------------------------

    /** Append one cell, moving the storage when it is full. */
    method PushVal(v: ArgVal)
      requires valLen <= argVals.Length
      modifies this`argVals, this`valLen, this`base, argVals
      ensures valLen == old(valLen) + 1 <= argVals.Length
      ensures argVals[..valLen] == old(argVals[..valLen]) + [v]
      ensures old(valLen < argVals.Length) ==> argVals == old(argVals) && base == old(base)
      ensures argVals == old(argVals) || fresh(argVals)
    {
      if valLen == argVals.Length {
        var bigger := new ArgVal[2 * valLen + 1](_ => NoVal);
        for k := 0 to valLen
          invariant argVals == old(argVals) && valLen == old(valLen) && base == old(base)
          invariant argVals[..] == old(argVals[..])
          invariant forall j :: 0 <= j < k ==> bigger[j] == argVals[j]
        {
          bigger[k] := argVals[k];
        }
        argVals := bigger;
        base := base + 1;
        assert argVals[..valLen] == old(argVals[..valLen]);
      }
      argVals[valLen] := v;
      valLen := valLen + 1;
    }

    /** `payload_ptr` of the cell at `index`. */
    function PayloadPtr(index: nat): ArgPtr
      reads this, argVals
      requires index < valLen <= argVals.Length
      requires argVals[index].StructVal? ==> argVals[index].obj in mem.objs
    {
      if argVals[index].StructVal? then Data(AddressOf(mem, argVals[index].obj)) else Cell(base, index)
    }

    /** Room for one more argument, with the cells of all the others in place. */
    ghost predicate Roomy()
      reads this, argVals
    {
      var ctxOk, memOk := CtxOk(ctx), MemOk(mem);
      && ctxOk && memOk
      && argVals.Length == 4 * Arity(ctx)
      && valLen == 2 * |argPtrs| && |argPtrs| < Arity(ctx)
      && taken <= mem.objs.Keys
    }

    /** Since `f0` two cells were appended that carry `p`; `ptr` is where libffi must look for it. */
    ghost predicate Placed(f0: Frame, p: Passed, ptr: ArgPtr)
      reads this`valLen, this`argVals, this`base, this`mem, this`taken, this`outSlots, this`structSlots, argVals
    {
      && |f0.vals| + 2 == valLen <= argVals.Length
      && argVals[..|f0.vals|] == f0.vals
      && var lo, hi, grows := argVals[valLen - 2], argVals[valLen - 1], Grows(f0.mem, mem);
      var holds, ptrOk := Holds(p, lo, hi, mem), PtrOk(p, ptr, base, |f0.ptrs|, hi, mem);
      && grows && holds && ptrOk
      && (ObjOf(hi).Some? ==> ObjOf(hi).value !in taken && ObjOf(hi).value in mem.objs)
      && (ObjOf(hi).Some? && ObjOf(hi).value in f0.mem.objs ==> ObjOf(hi) == Borrowee(p))
      && outSlots == f0.outs + OutFor(p, |f0.ptrs|, ObjOf(hi))
      && structSlots == f0.structs + StructFor(p, |f0.ptrs|, ObjOf(hi))
    }

    /** What a conversion does to the stack: place what the input means, or nothing. */
    ghost predicate Converted(f0: Frame, meaning: Option<Passed>, r: Option<ArgPtr>)
      reads this, argVals
    {
      && (r.Some? <==> meaning.Some?)
      && valLen <= argVals.Length && argPtrs == f0.ptrs
      && var view := View();
      && (r.None? ==> view == f0)
      && var placed := r.Some? && Placed(f0, meaning.value, r.value);
      && (r.Some? ==> placed)
    }

    /** Nothing was placed because there is no meaning. */
    lemma NothingConverted(f0: Frame, meaning: Option<Passed>)
      requires valLen <= argVals.Length && View() == f0 && meaning.None?
      ensures Converted(f0, meaning, None)
    {
    }

    lemma ConvertedTo(f0: Frame, p: Passed, ptr: ArgPtr)
      requires Placed(f0, p, ptr) && argPtrs == f0.ptrs
      ensures Converted(f0, Some(p), Some(ptr))
    {
    }

    /** Append the two cells of an argument; within the reserved room the storage stays put. */
    method PushCells(lo: ArgVal, hi: ArgVal)
      requires valLen + 2 <= argVals.Length
      modifies this`argVals, this`valLen, this`base, argVals
      ensures argVals == old(argVals) && base == old(base)
      ensures valLen == old(valLen) + 2 <= argVals.Length
      ensures argVals[..old(valLen)] == old(argVals[..valLen])
      ensures argVals[old(valLen)] == lo && argVals[old(valLen) + 1] == hi
    {
      PushVal(lo);
      PushVal(hi);
    }

    /** `push_pair`: the same value twice; libffi reads the second. */
    method PushPair(v: ArgVal, ghost p: Passed) returns (ptr: ArgPtr)
      requires Roomy() && ((p == PassNum(v) && IsNumber(v)) || (p.PassRaw? && v == PointerVal(Raw(p.bits))))
      modifies this`argVals, this`valLen, this`base, argVals
      ensures argVals == old(argVals) && base == old(base)
      ensures Placed(old(View()), p, ptr)
    {
      PushCells(v, v);
      ptr := PayloadPtr(valLen - 1);
    }

    /** A NUL-terminated copy owned by the stack; libffi reads the pointer in the first cell. */
    method PushText(text: seq<byte>) returns (ptr: ArgPtr)
      requires Roomy()
      modifies this`argVals, this`valLen, this`base, this`mem, argVals
      ensures argVals == old(argVals) && base == old(base)
      ensures Placed(old(View()), PassText(text), ptr)
    {
      hide CtxOk, Width, Spaced;
      var o := mem.next;
      mem := Allocate(mem, text + [0]);
      PushCells(PointerVal(AddressOf(mem, o)), CStringVal(o));
      ptr := PayloadPtr(valLen - 2);
    }

    // -- coercions ---------------------------------------------------------------------------------------------------

    method PushCoercedInt(n: i64, declared: ArgType) returns (r: Option<ArgPtr>)
      requires Roomy()
      modifies this`argVals, this`valLen, this`base, this`mem, argVals
      ensures argVals == old(argVals) && base == old(base)
      ensures Converted(old(View()), CoerceInt(ctx.env, declared, n), r)
    {
      I64WrapsToItself(Integer(n));
      match declared {
        case Int(ty) =>
          var v := IntVal(ty, Wrap(ty, n));
          var ptr := PushPair(v, PassNum(v));
          return Some(ptr);
        case F32 =>
          var v := F32Val(ctx.env.fl.intToF32(n));
          var ptr := PushPair(v, PassNum(v));
          return Some(ptr);
        case F64 =>
          var v := F64Val(ctx.env.fl.intToF64(n));
          var ptr := PushPair(v, PassNum(v));
          return Some(ptr);
        case OpaquePointer =>
          var ptr := PushPair(PointerVal(Raw(Wrap(U64, n))), PassRaw(Wrap(U64, n)));
          return Some(ptr);
        case Pointer(_) =>
          var ptr := PushPair(PointerVal(Raw(Wrap(U64, n))), PassRaw(Wrap(U64, n)));
          return Some(ptr);
        case CString =>
          var ptr := PushText(DecimalBytes(n));
          return Some(ptr);
        case OCString(_) =>
          var ptr := PushText(DecimalBytes(n));
          return Some(ptr);
        case _ =>
          return None;
      }
    }

    method PushCoercedFloat(bits: u64, declared: ArgType) returns (r: Option<ArgPtr>)
      requires Roomy()
      modifies this`argVals, this`valLen, this`base, this`mem, argVals
      ensures argVals == old(argVals) && base == old(base)
      ensures Converted(old(View()), CoerceFloat(ctx.env, declared, bits), r)
    {
      match declared {
        case Int(ty) =>
          var v := IntVal(ty, Clamp(ty, ctx.env.fl.trunc(bits)));
          var ptr := PushPair(v, PassNum(v));
          return Some(ptr);
        case F32 =>
          var v := F32Val(ctx.env.fl.narrow(bits));
          var ptr := PushPair(v, PassNum(v));
          return Some(ptr);
        case F64 =>
          var v := F64Val(bits);
          var ptr := PushPair(v, PassNum(v));
          return Some(ptr);
        case _ =>
          return None;
      }
    }

    method PushCoercedStr(text: seq<byte>, declared: ArgType) returns (r: Option<ArgPtr>)
      requires Roomy()
      modifies this`argVals, this`valLen, this`base, this`mem, argVals
      ensures argVals == old(argVals) && base == old(base)
      ensures Converted(old(View()), CoerceText(ctx.env, declared, text), r)
    {
      if declared.CString? || declared.OCString? {
        var ptr := PushText(text);
        return Some(ptr);
      }
      if declared == Int(Char) {
        var v := IntVal(Char, if text == [] then 0 else text[0]);
        var ptr := PushPair(v, PassNum(v));
        return Some(ptr);
      }
      if !declared.Int? && !declared.F32? && !declared.F64? {
        return None;
      }
      var s := TrimmedText(ctx.env, text);
      if s.None? {
        return None;
      }
      if declared.Int? {
        var n := ParseIntFor(declared.ty, s.value);
        if n.None? {
          return None;
        }
        CoerceIntOfWrapped(ctx.env, declared, n.value);
        r := PushCoercedInt(Wrap(I64, n.value), declared);
      } else {
        var bits := ctx.env.parseFloat(s.value);
        if bits.None? {
          return None;
        }
        r := PushCoercedFloat(bits.value, declared);
      }
    }

    // -- `ToArg` and `ToMutArg` -----------------------------------------------------------------------------

    method NumberToArg(v: ArgVal, declared: ArgType) returns (r: Option<ArgPtr>)
      requires Roomy() && IsNumber(v)
      modifies this`argVals, this`valLen, this`base, this`mem, argVals
      ensures argVals == old(argVals) && base == old(base)
      ensures Converted(old(View()), NumberMeaning(ctx.env, ctx.def.coerce, declared, v), r)
    {
      if Matches(declared, v) {
        var ptr := PushPair(v, PassNum(v));
        return Some(ptr);
      }
      if !ctx.def.coerce {
        return None;
      }
      match v {
        case IntVal(_, n) =>
          CoerceIntOfWrapped(ctx.env, declared, n);
          r := PushCoercedInt(Wrap(I64, n), declared);
        case F32Val(b) =>
          r := PushCoercedFloat(ctx.env.fl.widen(b), declared);
        case F64Val(b) =>
          r := PushCoercedFloat(b, declared);
      }
    }

    /** `push_argval`. */
    method ValueToArg(v: ArgVal, declared: ArgType) returns (r: Option<ArgPtr>)
      requires Roomy() && IsForeignValue(v)
      modifies this`argVals, this`valLen, this`base, this`mem, argVals
      ensures argVals == old(argVals) && base == old(base)
      ensures Converted(old(View()), ValueMeaning(ctx.env, ctx.def.coerce, declared, v), r)
    {
      if v.NoVal? || v.CStringVal? || v.RustString? || v.ByteVec? {
        return None;
      }
      if v.PointerVal? {
        if !PointerLike(declared) {
          return None;
        }
        var ptr := PushPair(v, PassRaw(v.p.bits));
        return Some(ptr);
      }
      if PointerLike(declared) && v.IntVal? && (v.ty.U64? || v.ty.I64?) {
        var address := Wrap(U64, v.n);
        var ptr := PushPair(PointerVal(Raw(address)), PassRaw(address));
        return Some(ptr);
      }
      r := NumberToArg(v, declared);
    }

    method TextToArg(text: seq<byte>, declared: ArgType) returns (r: Option<ArgPtr>)
      requires Roomy()
      modifies this`argVals, this`valLen, this`base, this`mem, argVals
      ensures argVals == old(argVals) && base == old(base)
      ensures Converted(old(View()), TextMeaning(ctx.env, ctx.def.coerce, declared, text), r)
    {
      if 0 in text {
        return None;
      }
      if declared.CString? {
        var ptr := PushText(text);
        return Some(ptr);
      }
      if !ctx.def.coerce {
        return None;
      }
      r := PushCoercedStr(text, declared);
    }

    /** Two clones of a struct; libffi reads the bytes of the second. */
    method PushStructCopy(bytes: seq<byte>) returns (ptr: ArgPtr)
      requires Roomy()
      modifies this`argVals, this`valLen, this`base, this`mem, argVals
      ensures argVals == old(argVals) && base == old(base)
      ensures Placed(old(View()), PassStruct(bytes), ptr)
    {
      hide CtxOk, Width, Spaced;
      var first := mem.next;
      mem := Allocate(mem, bytes);
      var second := mem.next;
      mem := Allocate(mem, bytes);
      PushCells(StructVal(first), StructVal(second));
      ptr := PayloadPtr(valLen - 1);
    }

    method StructToArg(sv: StructState, declared: ArgType) returns (r: Option<ArgPtr>)
      requires Roomy() && WfType(declared) && ValidState(sv)
      modifies this`argVals, this`valLen, this`base, this`mem, argVals
      ensures argVals == old(argVals) && base == old(base)
      ensures Converted(old(View()), Meaning(ctx.env, ctx.def.coerce, declared, ByValue(sv)), r)
    {
      if !declared.Struct? || !SameLayout(declared.layout, sv.layout) || sv.next != |sv.layout.fields| {
        return None;
      }
      var ptr := PushStructCopy(sv.bytes);
      return Some(ptr);
    }

    /** `push_argval` of a struct: of the declared type only the kind is compared. */
    method StructValueToArg(sv: StructState, declared: ArgType) returns (r: Option<ArgPtr>)
      requires Roomy() && WfType(declared) && ValidState(sv)
      modifies this`argVals, this`valLen, this`base, this`mem, argVals
      ensures argVals == old(argVals) && base == old(base)
      ensures Converted(old(View()), Meaning(ctx.env, ctx.def.coerce, declared, StructArg(sv)), r)
    {
      assert valLen <= argVals.Length;
      ghost var f0 := View();
      hide *;
      StructArgCases(ctx.env, ctx.def.coerce, declared, sv);
      if !declared.Struct? {
        NothingConverted(f0, Meaning(ctx.env, ctx.def.coerce, declared, StructArg(sv)));
        return None;
      }
      var ptr := PushStructCopy(sv.bytes);
      ConvertedTo(f0, PassStruct(sv.bytes), ptr);
      return Some(ptr);
    }

    /** A borrowed buffer: its address in the first cell, its owner in the second. */
    method PushBuffer(h: nat, owner: ArgVal, ghost p: Passed) returns (ptr: ArgPtr)
      requires Roomy() && h in mem.objs && h !in taken
      requires (owner == RustString(h) && p == PassString(h)) || (owner == ByteVec(h) && p == PassBytes(h))
      modifies this`argVals, this`valLen, this`base, argVals
      ensures argVals == old(argVals) && base == old(base)
      ensures Placed(old(View()), p, ptr)
    {
      PushCells(PointerVal(AddressOf(mem, h)), owner);
      ptr := PayloadPtr(valLen - 2);
    }

    /** The address of a borrowed variable, twice. */
    method PushBorrow(h: nat, ghost size: nat) returns (ptr: ArgPtr)
      requires Roomy() && h in mem.objs && h !in taken && |mem.objs[h].data| == size
      modifies this`argVals, this`valLen, this`base, argVals
      ensures argVals == old(argVals) && base == old(base)
      ensures Placed(old(View()), PassBorrow(h, size), ptr)
    {
      PushCells(PointerVal(AddressOf(mem, h)), PointerVal(AddressOf(mem, h)));
      ptr := PayloadPtr(valLen - 1);
    }

    /** `to_arg` of the value's type. */
    method ToArg(value: Input, declared: ArgType) returns (r: Option<ArgPtr>)
      requires Roomy() && WfType(declared) && IsArg(value)
      modifies this`argVals, this`valLen, this`base, this`mem, argVals
      ensures argVals == old(argVals) && base == old(base)
      ensures Converted(old(View()), Meaning(ctx.env, ctx.def.coerce, declared, value), r)
    {
      match value {
        case Prim(v) => r := NumberToArg(v, declared);
        case Value(v) => r := ValueToArg(v, declared);
        case Text(text) => r := TextToArg(text, declared);
        case ByValue(sv) => r := StructToArg(sv, declared);
        case StructArg(sv) => r := StructValueToArg(sv, declared);
      }
    }

    /** `to_mut_arg` of the value's type. */
    method ToMutArg(value: Input, declared: ArgType) returns (r: Option<ArgPtr>)
      requires Roomy() && WfType(declared) && IsMutArg(value) && Borrowable(value, mem, taken)
      modifies this`argVals, this`valLen, this`base, this`mem, argVals
      ensures argVals == old(argVals) && base == old(base)
      ensures Converted(old(View()), Meaning(ctx.env, ctx.def.coerce, declared, value), r)
    {
      hide Placed, SameLayout, ValueMeaning, WfType, CtxOk, MemOk;
      match value {
        case MutString(h) =>
          if !declared.OCString? && !declared.OByteBuffer? {
            return None;
          }
          var ptr := PushBuffer(h, RustString(h), PassString(h));
          return Some(ptr);
        case MutBytes(h) =>
          if !declared.OByteBuffer? {
            return None;
          }
          var ptr := PushBuffer(h, ByteVec(h), PassBytes(h));
          return Some(ptr);
        case MutPrim(h, size) =>
          var ptr := PushBorrow(h, size);
          return Some(ptr);
        case MutStruct(layout, h) =>
          if !declared.Pointer? || !declared.target.Struct? || !SameLayout(declared.target.layout, layout) {
            return None;
          }
          var ptr := PushBorrow(h, layout.size);
          return Some(ptr);
        case Value(v) =>
          r := ValueToArg(v, declared);
        case StructArg(sv) =>
          r := StructValueToArg(sv, declared);
      }
    }

    // -- pushing --------------------------------------------------------------------------------------------

    /** What a push does: it succeeds exactly when there is a free argument whose type accepts the input,
        and otherwise changes nothing at all. */
    twostate predicate Pushed(input: Input, ok: bool)
      reads this, argVals
    {
      var wasValid, isValid, grows := old(Valid()), Valid(), Grows(old(mem), mem);
      && wasValid && isValid && (ok ==> grows)
      && argVals == old(argVals) && base == old(base)
      && staleOuts == old(staleOuts) && staleStructs == old(staleStructs)
      && (ok <==>
        |old(inputs)| < Arity(ctx) && Accepts(ctx.env, ctx.def.coerce, ctx.def.argTypes[|old(inputs)|], input))
      && (ok ==> inputs == old(inputs) + [input] && OnlyTook(old(taken), taken, old(mem), input))
      && (!ok ==> View() == old(View()) && inputs == old(inputs) && taken == old(taken))
    }

    /** A valid invocation has one entry in the log per pointer, and room while arguments are missing. */
    lemma ValidCounts()
      requires Valid()
      ensures |inputs| == |argPtrs| && SoundDef(ctx.def)
      ensures argVals.Length == 4 * Arity(ctx) && valLen <= argVals.Length
      ensures FrameOk(ctx, inputs, base, taken, View())
      ensures SlotsOk(ctx, inputs, View(), taken, staleOuts, staleStructs)
      ensures |argPtrs| < Arity(ctx) ==> Roomy() && WfType(ctx.def.argTypes[|argPtrs|])
    {
    }

    lemma PlacedCount(f0: Frame, p: Passed, ptr: ArgPtr)
      requires Placed(f0, p, ptr)
      ensures valLen == |f0.vals| + 2 <= argVals.Length
    {
    }

    /** A conversion that placed nothing leaves a valid invocation. */
    lemma ValidFrom(f0: Frame)
      requires argVals.Length == 4 * Arity(ctx) && valLen <= argVals.Length && View() == f0
      requires FrameOk(ctx, inputs, base, taken, f0)
      requires SlotsOk(ctx, inputs, f0, taken, staleOuts, staleStructs)
      ensures Valid()
    {
    }

    /** `finish_push`: record the pointer of an argument whose two cells are in place. */
    method FinishPush(argp: ArgPtr, prevValCount: nat) returns (ok: bool)
      modifies this`argPtrs
      ensures ok <==> valLen - prevValCount == 2
      ensures argPtrs == old(argPtrs) + if ok then [argp] else []
    {
      if valLen - prevValCount != 2 {
        return false;
      }
      argPtrs := argPtrs + [argp];
      return true;
    }

    /** Enter a finished push in the log. */
    ghost method Admit(input: Input, p: Passed, argp: ArgPtr, f0: Frame)
      requires WfInput(input)
      requires argVals.Length == 4 * Arity(ctx) && |inputs| < Arity(ctx)
      requires FrameOk(ctx, inputs, base, taken, f0)
      requires SlotsOk(ctx, inputs, f0, taken, staleOuts, staleStructs)
      requires MeaningAt(ctx, inputs + [input], |inputs|) == Some(p)
      requires Placed(f0, p, argp) && argPtrs == f0.ptrs + [argp]
      modifies this`inputs, this`taken
      ensures Valid() && inputs == old(inputs) + [input] && Grows(f0.mem, mem)
      ensures OnlyTook(old(taken), taken, f0.mem, input)
    {
      hide FrameOk, SlotsOk, MeaningAt, Holds, PtrOk, Grows, OutFor, StructFor;
      ghost var lo, hi := argVals[valLen - 2], argVals[valLen - 1];
      assert argVals[..valLen] == f0.vals + [lo, hi];
      FrameShape(ctx, inputs, base, taken, f0);
      BorrowOfLast(ctx, inputs, input, p);
      PushKeepsAll(ctx, inputs, base, taken, f0, View(), input, p, argp, lo, hi, staleOuts, staleStructs);
      taken := WithObject(taken, hi);
      inputs := inputs + [input];
    }

    /** `push_arg`. */
    method PushArg(value: Input) returns (ok: bool)
      requires Valid() && IsArg(value)
      modifies this, argVals
      ensures Pushed(value, ok)
      ensures value.Text? && |old(inputs)| < Arity(ctx) && ctx.def.argTypes[|old(inputs)|] == CString ==>
        (ok <==> 0 !in value.bytes)
    {
      hide Valid, Roomy, Placed, FrameOk, SlotsOk, MeaningAt, Meaning, SoundDef, WfType, Grows, Accepts;
      if value.Text? {
        CstrTakesText(ctx.env, ctx.def.coerce, value);
      }
      ValidCounts();
      if |argPtrs| >= Arity(ctx) {
        return false;
      }
      MeaningOfLast(ctx, inputs, value);
      TakenExactly(ctx.env, ctx.def.coerce, ctx.def.argTypes[|argPtrs|], value);
      ghost var f0 := View();
      var valCount, declared := valLen, ctx.def.argTypes[|argPtrs|];
      var argp := ToArg(value, declared);
      if argp.None? {
        ValidFrom(f0);
        return false;
      }
      PlacedCount(f0, Meaning(ctx.env, ctx.def.coerce, declared, value).value, argp.value);
      ok := FinishPush(argp.value, valCount);
      Admit(value, Meaning(ctx.env, ctx.def.coerce, declared, value).value, argp.value, f0);
    }

    /** `push_mut_arg`. */
    method PushMutArg(value: Input) returns (ok: bool)
      requires Valid() && IsMutArg(value) && Borrowable(value, mem, taken)
      modifies this, argVals
      ensures Pushed(value, ok)
    {
      hide Valid, Roomy, Placed, FrameOk, SlotsOk, MeaningAt, Meaning, SoundDef, WfType, Grows, Accepts;
      ValidCounts();
      if |argPtrs| >= Arity(ctx) {
        return false;
      }
      MeaningOfLast(ctx, inputs, value);
      TakenExactly(ctx.env, ctx.def.coerce, ctx.def.argTypes[|argPtrs|], value);
      ghost var f0 := View();
      var valCount, declared := valLen, ctx.def.argTypes[|argPtrs|];
      var argp := ToMutArg(value, declared);
      if argp.None? {
        ValidFrom(f0);
        return false;
      }
      PlacedCount(f0, Meaning(ctx.env, ctx.def.coerce, declared, value).value, argp.value);
      ok := FinishPush(argp.value, valCount);
      Admit(value, Meaning(ctx.env, ctx.def.coerce, declared, value).value, argp.value, f0);
    }

    /** A boxed output variable with its slot. */
    method PushOutSlot(kind: OutKind, init: seq<byte>) returns (ptr: ArgPtr)
      requires Roomy() && kind != OutText && |init| == KindSize(kind)
      modifies this`argVals, this`valLen, this`base, this`mem, this`outSlots, argVals
      ensures argVals == old(argVals) && base == old(base)
      ensures Placed(old(View()), PassOut(kind, init), ptr)
    {
      hide CtxOk, Width, Spaced;
      var o := mem.next;
      mem := Allocate(mem, init);
      PushCells(PointerVal(AddressOf(mem, o)), PointerVal(AddressOf(mem, o)));
      ptr := PayloadPtr(valLen - 1);
      outSlots := outSlots + [OutSlot(|argPtrs|, kind, o)];
    }

    /** A boxed output string with its slot. */
    method PushOutText(init: seq<byte>) returns (ptr: ArgPtr)
      requires Roomy()
      modifies this`argVals, this`valLen, this`base, this`mem, this`outSlots, argVals
      ensures argVals == old(argVals) && base == old(base)
      ensures Placed(old(View()), PassOutText(init), ptr)
    {
      hide CtxOk, Width, Spaced;
      var o := mem.next;
      mem := Allocate(mem, init);
      assert init[..|init|] == init;
      PushCells(PointerVal(AddressOf(mem, o)), RustString(o));
      ptr := PayloadPtr(valLen - 2);
      outSlots := outSlots + [OutSlot(|argPtrs|, OutText, o)];
    }

    /** A boxed struct with its slot. */
    method PushOutStruct(sv: StructState) returns (ptr: ArgPtr)
      requires Roomy() && ValidState(sv)
      modifies this`argVals, this`valLen, this`base, this`mem, this`structSlots, argVals
      ensures argVals == old(argVals) && base == old(base)
      ensures Placed(old(View()), PassOutStruct(sv.layout, sv.bytes), ptr)
    {
      hide CtxOk, Width, Spaced;
      var o := mem.next;
      mem := Allocate(mem, sv.bytes);
      PushCells(PointerVal(AddressOf(mem, o)), PointerVal(AddressOf(mem, o)));
      ptr := PayloadPtr(valLen - 1);
      structSlots := structSlots + [StructSlot(|argPtrs|, sv.layout, o)];
    }

    method ScriptPointerToArg(val: ScriptVal) returns (r: Option<ArgPtr>)
      requires Roomy()
      modifies this`argVals, this`valLen, this`base, this`mem, argVals
      ensures argVals == old(argVals) && base == old(base)
      ensures Converted(old(View()), ScriptMeaning(ctx.env, ctx.def.coerce, OpaquePointer, val), r)
    {
      var address: u64;
      match val {
        case Address(bits) => address := bits;
        case Integer(n) => address := Wrap(U64, n);
        case Number(bits) => address := Wrap(U64, Clamp(I64, ctx.env.fl.trunc(bits)));
        case Nil => address := 0;
        case Null => address := 0;
        case Str(_) => return None;
      }
      var ptr := PushPair(PointerVal(Raw(address)), PassRaw(address));
      return Some(ptr);
    }

    method ScriptTextToArg(val: ScriptVal) returns (r: Option<ArgPtr>)
      requires Roomy()
      modifies this`argVals, this`valLen, this`base, this`mem, argVals
      ensures argVals == old(argVals) && base == old(base)
      ensures Converted(old(View()), ScriptMeaning(ctx.env, ctx.def.coerce, CString, val), r)
    {
      match val {
        case Null =>
          var ptr := PushPair(PointerVal(Raw(0)), PassRaw(0));
          return Some(ptr);
        case Str(text) =>
          r := TextToArg(text, CString);
        case Nil =>
          r := TextToArg([], CString);
        case _ =>
          return None;
      }
    }

    method ScriptOutToArg(target: ArgType, val: ScriptVal) returns (r: Option<ArgPtr>)
      requires Roomy()
      modifies this`argVals, this`valLen, this`base, this`mem, this`outSlots, argVals
      ensures argVals == old(argVals) && base == old(base)
      ensures Converted(old(View()), ScriptMeaning(ctx.env, ctx.def.coerce, Pointer(target), val), r)
    {
      assert valLen <= argVals.Length;
      ghost var f0 := View();
      hide *;
      ScriptOutCases(ctx.env, ctx.def.coerce, target, val);
      var kind, init;
      match target {
        case Int(ty) => kind, init := OutInt(ty), EncodeInt(ty, ScriptInt(ctx.env, val));
        case F32 => kind, init := OutF32, Encode(ctx.env.fl.narrow(ScriptFloat(ctx.env, val)), 4);
        case F64 => kind, init := OutF64, Encode(ScriptFloat(ctx.env, val), 8);
        case OpaquePointer => kind, init := OutPtr, Encode(if val.Address? then val.bits else 0, 8);
        case _ =>
          NothingConverted(f0, ScriptMeaning(ctx.env, ctx.def.coerce, Pointer(target), val));
          return None;
      }
      var ptr := PushOutSlot(kind, init);
      ConvertedTo(f0, PassOut(kind, init), ptr);
      return Some(ptr);
    }

    method ScriptOutTextToArg(val: ScriptVal, declared: ArgType) returns (r: Option<ArgPtr>)
      requires Roomy() && declared.OCString?
      modifies this`argVals, this`valLen, this`base, this`mem, this`outSlots, argVals
      ensures argVals == old(argVals) && base == old(base)
      ensures Converted(old(View()), ScriptMeaning(ctx.env, ctx.def.coerce, declared, val), r)
    {
      hide Placed, ScriptText;
      assert valLen <= argVals.Length;
      hide Roomy;
      var ptr := PushOutText(ScriptText(val));
      r := Some(ptr);
      PlacedCount(old(View()), PassOutText(ScriptText(val)), ptr);
    }

    method ScriptNumberToArg(val: ScriptVal, declared: ArgType) returns (r: Option<ArgPtr>)
      requires Roomy() && !declared.Pointer? && !declared.OCString? && !declared.OpaquePointer?
      requires !declared.CString? && !declared.Struct?
      modifies this`argVals, this`valLen, this`base, this`mem, argVals
      ensures argVals == old(argVals) && base == old(base)
      ensures Converted(old(View()), ScriptMeaning(ctx.env, ctx.def.coerce, declared, val), r)
    {
      assert valLen <= argVals.Length;
      hide CoerceInt, CoerceFloat, OutInit, TextMeaning, Placed, Roomy;
      match val {
        case Number(bits) => r := PushCoercedFloat(bits, declared);
        case Integer(n) => r := PushCoercedInt(n, declared);
        case Nil => r := PushCoercedInt(0, declared);
        case _ => return None;
      }
    }

    /** The conversion of `push_script_val`, by declared type. */
    method ScriptToArg(val: ScriptVal, declared: ArgType) returns (r: Option<ArgPtr>)
      requires Roomy() && WfType(declared)
      modifies this`argVals, this`valLen, this`base, this`mem, this`outSlots, argVals
      ensures argVals == old(argVals) && base == old(base)
      ensures Converted(old(View()), Meaning(ctx.env, ctx.def.coerce, declared, Script(val)), r)
    {
      assert valLen <= argVals.Length;
      hide *;
      ScriptCases(ctx.env, ctx.def.coerce, declared, val);
      match declared {
        case Pointer(target) =>
          if target.Struct? {
            NothingConverted(View(), Meaning(ctx.env, ctx.def.coerce, declared, Script(val)));
            return None;
          }
          r := ScriptOutToArg(target, val);
        case OCString(_) =>
          r := ScriptOutTextToArg(val, declared);
        case OpaquePointer =>
          r := ScriptPointerToArg(val);
        case CString =>
          r := ScriptTextToArg(val);
        case Struct(_) =>
          NothingConverted(View(), Meaning(ctx.env, ctx.def.coerce, declared, Script(val)));
          return None;
        case _ =>
          r := ScriptNumberToArg(val, declared);
      }
    }

    /** `push_script_val`. */
    method PushScriptVal(val: ScriptVal) returns (ok: bool)
      requires Valid()
      modifies this, argVals
      ensures Pushed(Script(val), ok)
    {
      hide Valid, Roomy, Placed, FrameOk, SlotsOk, MeaningAt, Meaning, SoundDef, WfType, Grows, Accepts;
      ValidCounts();
      if |argPtrs| >= Arity(ctx) {
        return false;
      }
      MeaningOfLast(ctx, inputs, Script(val));
      TakenExactly(ctx.env, ctx.def.coerce, ctx.def.argTypes[|argPtrs|], Script(val));
      ghost var f0 := View();
      var valCount, declared := valLen, ctx.def.argTypes[|argPtrs|];
      var argp := ScriptToArg(val, declared);
      if argp.None? {
        ValidFrom(f0);
        return false;
      }
      PlacedCount(f0, Meaning(ctx.env, ctx.def.coerce, declared, Script(val)).value, argp.value);
      ok := FinishPush(argp.value, valCount);
      Admit(Script(val), Meaning(ctx.env, ctx.def.coerce, declared, Script(val)).value, argp.value, f0);
    }

    method ScriptStructByValue(fields: seq<ScriptVal>, st: StructType) returns (r: Option<ArgPtr>)
      requires Roomy() && WfType(Struct(st))
      modifies this`argVals, this`valLen, this`base, this`mem, argVals
      ensures argVals == old(argVals) && base == old(base)
      ensures Converted(old(View()), ScriptStructMeaning(ctx.env, Struct(st), fields), r)
    {
      assert valLen <= argVals.Length;
      hide *;
      ScriptStructByValueCases(ctx.env, ctx.def.coerce, st, fields);
      var sv := FromScriptVals(ctx.env.fl, st, fields);
      if sv.None? {
        NothingConverted(View(), ScriptStructMeaning(ctx.env, Struct(st), fields));
        return None;
      }
      r := StructToArg(sv.value, Struct(st));
    }

    method ScriptStructByAddress(fields: seq<ScriptVal>, st: StructType) returns (r: Option<ArgPtr>)
      requires Roomy() && WfType(Pointer(Struct(st)))
      modifies this`argVals, this`valLen, this`base, this`mem, this`structSlots, argVals
      ensures argVals == old(argVals) && base == old(base)
      ensures Converted(old(View()), ScriptStructMeaning(ctx.env, Pointer(Struct(st)), fields), r)
    {
      assert valLen <= argVals.Length;
      hide *;
      ScriptStructByAddressCases(ctx.env, st, fields);
      var sv := FromScriptVals(ctx.env.fl, st, fields);
      if sv.None? {
        NothingConverted(View(), ScriptStructMeaning(ctx.env, Pointer(Struct(st)), fields));
        return None;
      }
      var ptr := PushOutStruct(sv.value);
      PlacedCount(old(View()), PassOutStruct(st, sv.value.bytes), ptr);
      return Some(ptr);
    }

    /** The conversion of `push_script_struct`, by declared type. */
    method ScriptStructToArg(fields: seq<ScriptVal>, declared: ArgType) returns (r: Option<ArgPtr>)
      requires Roomy() && WfType(declared)
      modifies this`argVals, this`valLen, this`base, this`mem, this`structSlots, argVals
      ensures argVals == old(argVals) && base == old(base)
      ensures Converted(old(View()), Meaning(ctx.env, ctx.def.coerce, declared, ScriptStruct(fields)), r)
    {
      assert valLen <= argVals.Length;
      hide *;
      ScriptStructCases(ctx.env, ctx.def.coerce, declared, fields);
      if declared.Struct? {
        r := ScriptStructByValue(fields, declared.layout);
      } else if declared.Pointer? && declared.target.Struct? {
        r := ScriptStructByAddress(fields, declared.target.layout);
      } else {
        NoStructMeaning(ctx.env, declared, fields);
        NothingConverted(View(), ScriptStructMeaning(ctx.env, declared, fields));
        return None;
      }
    }

    /** `push_script_struct`. */
    method PushScriptStruct(fields: seq<ScriptVal>) returns (ok: bool)
      requires Valid()
      modifies this, argVals
      ensures Pushed(ScriptStruct(fields), ok)
    {
      hide Valid, Roomy, Placed, FrameOk, SlotsOk, MeaningAt, Meaning, SoundDef, WfType, Grows, Accepts;
      ValidCounts();
      if |argPtrs| >= Arity(ctx) {
        return false;
      }
      MeaningOfLast(ctx, inputs, ScriptStruct(fields));
      TakenExactly(ctx.env, ctx.def.coerce, ctx.def.argTypes[|argPtrs|], ScriptStruct(fields));
      ghost var f0 := View();
      var valCount, declared := valLen, ctx.def.argTypes[|argPtrs|];
      var argp := ScriptStructToArg(fields, declared);
      if argp.None? {
        ValidFrom(f0);
        return false;
      }
      PlacedCount(f0, Meaning(ctx.env, ctx.def.coerce, declared, ScriptStruct(fields)).value, argp.value);
      ok := FinishPush(argp.value, valCount);
      Admit(ScriptStruct(fields), Meaning(ctx.env, ctx.def.coerce, declared, ScriptStruct(fields)).value, argp.value,
        f0);
    }

    // -- the call -------------------------------------------------------------------------------------------

    /** `pre_process_ocstring`. */
    method PreProcessOcString(i: nat, length: LengthDef) returns (e: Option<CallError>)
      requires CtxOk(ctx) && MemOk(mem) && i < Arity(ctx) && 2 * i + 1 < valLen <= argVals.Length
      requires ctx.def.argTypes[i] == OCString(length)
      requires BufferAt(ctx, View(), i).Some? ==> BufferAt(ctx, View(), i).value in mem.objs
      modifies this`mem, argVals
      ensures e == Problem(ctx.def.argTypes[i], old(argVals[..valLen]), i)
      ensures View() == if e.None? then PrepareArg(ctx, old(View()), i) else old(View())
    {
      hide SoundDef;
      match ResolveLength(argVals[..valLen], length) {
        case Err(cause) => return Some(cause);
        case Ok(None) => return Some(LengthMissing(i));
        case Ok(Some(len)) =>
          e := None;
          if argVals[2 * i + 1].RustString? {
            var h := argVals[2 * i + 1].obj;
            var s := Reserve(ctx.env, mem.objs[h], len + 1);
            s := ZeroSpare(s);
            mem := mem.(objs := mem.objs[h := s]);
            argVals[2 * i] := PointerVal(AddressOf(mem, h));
          }
      }
    }

    /** `pre_process_obytebuffer`. */
    method PreProcessOByteBuffer(i: nat, length: LengthDef) returns (e: Option<CallError>)
      requires CtxOk(ctx) && MemOk(mem) && i < Arity(ctx) && 2 * i + 1 < valLen <= argVals.Length
      requires ctx.def.argTypes[i] == OByteBuffer(length)
      requires BufferAt(ctx, View(), i).Some? ==> BufferAt(ctx, View(), i).value in mem.objs
      modifies this`mem, argVals
      ensures e == Problem(ctx.def.argTypes[i], old(argVals[..valLen]), i)
      ensures View() == if e.None? then PrepareArg(ctx, old(View()), i) else old(View())
    {
      hide SoundDef;
      match ResolveLength(argVals[..valLen], length) {
        case Err(cause) => return Some(cause);
        case Ok(None) => return None;
        case Ok(Some(len)) =>
          e := None;
          match argVals[2 * i + 1] {
            case RustString(h) =>
              mem := mem.(objs := mem.objs[h := Reserve(ctx.env, mem.objs[h], len)]);
              argVals[2 * i] := PointerVal(AddressOf(mem, h));
            case ByteVec(h) =>
              mem := mem.(objs := mem.objs[h := Resize(ctx.env, mem.objs[h], len)]);
              argVals[2 * i] := PointerVal(AddressOf(mem, h));
            case _ =>
          }
      }
    }

    /** `pre_process_args`: stops at the first failure, leaving the buffers before it prepared. */
    method PreProcessArgs() returns (e: Option<CallError>, ghost done: nat)
      requires valLen <= argVals.Length && |inputs| == Arity(ctx)
      requires FrameOk(ctx, inputs, base, taken, View())
      modifies this`mem, argVals
      ensures PreparedUpTo(ctx, old(View()), View(), Arity(ctx), done)
      ensures e == FirstProblem(ctx, old(View()).vals, 0) && done == FailingAt(ctx, old(View()).vals, 0)
    {
      hide FrameOk, PreparedUpTo, PrepareArg, Problem, CtxOk, MemOk;
      ghost var f0 := View();
      PreparedStart(ctx, inputs, base, taken, f0);
      for i := 0 to |ctx.def.argTypes|
        invariant PreparedUpTo(ctx, f0, View(), Arity(ctx), i)
        invariant FirstProblem(ctx, f0.vals, 0) == FirstProblem(ctx, f0.vals, i)
        invariant FailingAt(ctx, f0.vals, 0) == FailingAt(ctx, f0.vals, i)
      {
        ReadyForStep(ctx, inputs, base, taken, f0, View(), i);
        PrepareStep(ctx, inputs, base, taken, f0, View(), i);
        match ctx.def.argTypes[i] {
          case OCString(length) =>
            e := PreProcessOcString(i, length);
          case OByteBuffer(length) =>
            e := PreProcessOByteBuffer(i, length);
          case _ =>
            e := None;
        }
        if e.Some? {
          return e, i;
        }
      }
      return None, Arity(ctx);
    }

    /** `post_process_args`: cut every output string at its first NUL. */
    method PostProcessArgs(ghost f: Frame)
      requires FrameOk(ctx, inputs, base, taken, f) && |inputs| == Arity(ctx) && SameShape(f.mem, mem)
      requires valLen <= argVals.Length && argVals[..valLen] == f.vals
      modifies this`mem
      ensures mem == Finish(ctx, f, old(mem), Arity(ctx))
    {
      hide FrameOk, SameShape, Finish, UntilNul;
      FrameShape(ctx, inputs, base, taken, f);
      ghost var m := mem;
      FinishStart(ctx, f, m);
      for i := 0 to |ctx.def.argTypes|
        invariant mem == Finish(ctx, f, m, i)
      {
        if ctx.def.argTypes[i].OCString? && argVals[2 * i].PointerVal? && argVals[2 * i + 1].RustString? {
          var p, h := argVals[2 * i].p, argVals[2 * i + 1].obj;
          assert OutputString(ctx, f, i) == Some(h);
          FinishFinds(ctx, inputs, base, taken, f, m, i);
          assert Live(mem, p) && p.obj == h;
          var bytes := mem.objs[p.obj].data[..|mem.objs[h].data|];
          assert bytes == mem.objs[h].data;
          var n := FirstNul(bytes);
          var text := ctx.env.lossy(bytes[..n]);
          mem := mem.(objs := mem.objs[h := Obj(mem.objs[h].gen + 1, text, |text|)]);
        } else {
          FinishSkips(ctx, inputs, base, taken, f, m, i);
        }
      }
    }

    /** The parts no call touches. */
    twostate predicate CallKept()
      reads this
    {
      argVals == old(argVals) && base == old(base) && taken == old(taken)
    }

    /** A call that never reached the callee: everything is as before, except that a call with a bad
        length has prepared the buffers before it. It will fail alike when repeated. */
    twostate predicate Refused(e: CallError)
      reads this, argVals
    {
      var wasValid, isValid, spared := old(Valid()), Valid(), Spared(old(mem), mem, taken);
      && wasValid && isValid && spared && CallKept()
      && inputs == old(inputs) && staleOuts == old(staleOuts) && staleStructs == old(staleStructs)
      && argPtrs == old(argPtrs) && outSlots == old(outSlots) && structSlots == old(structSlots)
      && var before := old(View());
      && (|inputs| < Arity(ctx) ==> e == TooFewArguments && View() == before)
      && (|inputs| == Arity(ctx) ==>
        && FirstProblem(ctx, before.vals, 0) == FirstProblem(ctx, View().vals, 0) == Some(e) && LengthFault(inputs, e)
        && LeftByFailure(ctx, inputs, before.vals, before.mem, mem, FailingAt(ctx, before.vals, 0)))
    }

    /** A call that stayed inside memory: it is as promised, the stack is cleared
        and the slots are still there. */
    twostate predicate Completed(seen: Snapshot, e: Effect)
      reads this, argVals
      requires SoundDef(ctx.def) && |old(inputs)| == |seen.cells| == Arity(ctx)
    {
      var isValid, spared := Valid(), Spared(old(mem), mem, taken);
      && isValid && spared && CallKept()
      && Returned(ctx, old(inputs), seen, e, mem)
      && SlotsRead(ctx, old(inputs), seen, mem, outSlots, structSlots, old(staleOuts), old(staleStructs))
      && outSlots == old(outSlots) && structSlots == old(structSlots)
      && inputs == [] && argPtrs == [] && valLen == 0 && staleOuts == outSlots && staleStructs == structSlots
    }

    /** The first part of `call`: count the arguments and prepare the buffers. */
    method Ready() returns (e: Option<CallError>)
      requires Valid()
      modifies this`mem, argVals
      ensures SoundDef(ctx.def) && |inputs| <= Arity(ctx)
      ensures e.None? <==> |inputs| == Arity(ctx) && AllLengthsFit(ctx, inputs)
      ensures e.Some? ==> Refused(e.value)
      ensures e.None? ==> Valid() && Spared(old(mem), mem, taken)
      ensures e.None? ==> BuffersReady(ctx, inputs, base, taken, old(View()), View())
    {
      hide Valid, Roomy, FrameOk, SlotsOk, MeaningAt, SoundDef, PreparedUpTo, FirstProblem, FailingAt, LengthFault,
        AllLengthsFit, Spared, LeftByFailure, CtxOk, MemOk, Problem, BuffersReady;
      ValidCounts();
      ghost var before := View();
      FrameShape(ctx, inputs, base, taken, before);
      if |argPtrs| < |ctx.def.argTypes| {
        SparedBySame(mem, taken);
        return Some(TooFewArguments);
      }
      CallIsExact(ctx, inputs, base, taken, before);
      ghost var done;
      e, done := PreProcessArgs();
      ghost var f := View();
      PreparedKeepsFrame(ctx, inputs, base, taken, before, f, done);
      PreparedKeepsSlots(ctx, inputs, base, taken, before, f, done, staleOuts, staleStructs);
      PreparingSpares(ctx, inputs, base, taken, before, f, done);
      ValidFrom(f);
      if e.Some? {
        CallFailsOnlyOnLengths(ctx, inputs, base, taken, before, 0);
        FirstProblemUnchanged(ctx, before, f, done, 0);
        PreparingLeaves(ctx, inputs, base, taken, before, f, done);
      } else {
        BuffersAreReady(ctx, inputs, base, taken, before, f);
      }
    }

    /**
     `call`. A full call reaches libffi exactly when every length fits, and then every argument pointer
     leads to what its input means. If libffi reads all of that as declared and the callee overruns
     nothing, the caller has its result, and what the callee left with the output strings cut. No callee
     can break this if what was pushed is safe.
     */
    method Call(callee: Snapshot -> Effect) returns (r: Result<u64, CallError>, seen: Snapshot)
      requires Valid()
      modifies this, argVals
      ensures SoundDef(ctx.def) && |old(inputs)| <= Arity(ctx)
      ensures r.Ok? <==> |old(inputs)| == Arity(ctx) && AllLengthsFit(ctx, old(inputs))
      ensures r.Err? ==> Refused(r.error)
      ensures r.Ok? ==>
        && Delivered(ctx, old(inputs), old(mem), seen) && |seen.cells| == Arity(ctx)
        && (AllSafe(ctx, old(inputs)) ==> StaysInside(ctx, seen, callee(seen)))
        && (StaysInside(ctx, seen, callee(seen)) ==>
          r.value == callee(seen).ret && Completed(seen, callee(seen)))
    {
      hide Valid, Roomy, FrameOk, SlotsOk, MeaningAt, SoundDef, AllFetchable, SeenBy, Foreign, Finish, Delivered,
        Returned, SlotsRead, AllLengthsFit, AllSafe, StaysInside, PartsFit, Spared, CtxOk, MemOk, SameShape,
        BuffersReady, Refused;
      ValidCounts();
      ghost var before := View();
      seen := Snapshot([], mem);
      var e := Ready();
      if e.Some? {
        return Err(e.value), seen;
      }
      ghost var f := View();
      ValidCounts();
      FrameShape(ctx, inputs, base, taken, f);
      ReadyIsDelivered(ctx, inputs, base, taken, before, f);
      seen := SeenBy(base, Frame(argPtrs, argVals[..valLen], mem, outSlots, structSlots));
      var effect := callee(seen);
      if !StaysInside(ctx, seen, effect) {
        var anything: u64;
        mem, anything := *, *;
        return Ok(anything), seen;
      }
      StaysInsideFits(ctx, seen, effect);
      CallCompletes(ctx, inputs, base, taken, f, effect, staleOuts, staleStructs);
      mem := Foreign(ctx, seen, effect, |argPtrs|);
      PostProcessArgs(f);
      SparedTwice(before.mem, f.mem, mem, taken);
      argPtrs := [];
      valLen := 0;
      inputs := [];
      staleOuts := outSlots;
      staleStructs := structSlots;
      ValidFrom(View());
      return Ok(effect.ret), seen;
    }

    /** A scripted call that stayed inside memory: the script has its values, and the
        invocation is as after `prep`. */
    twostate predicate Answered(seen: Snapshot, e: Effect, r: ScriptResult)
      reads this, argVals
      requires SoundDef(ctx.def) && |old(inputs)| == |seen.cells| == Arity(ctx)
    {
      var isValid, spared := Valid(), Spared(old(mem), mem, taken);
      && isValid && spared && CallKept()
      && Returned(ctx, old(inputs), seen, e, mem)
      && Reported(ctx, old(inputs), seen, mem, e.ret, r, old(staleOuts), old(staleStructs))
      && inputs == [] && argPtrs == [] && valLen == 0
      && outSlots == [] && structSlots == [] && staleOuts == [] && staleStructs == []
    }

    /** `call_scripted`: the call, its result as script values, and the slots drained; a failed call
        keeps them. */
    method CallScripted(callee: Snapshot -> Effect) returns (r: Result<ScriptResult, CallError>, seen: Snapshot)
      requires Valid()
      modifies this, argVals
      ensures SoundDef(ctx.def) && |old(inputs)| <= Arity(ctx)
      ensures r.Ok? <==> |old(inputs)| == Arity(ctx) && AllLengthsFit(ctx, old(inputs))
      ensures r.Err? ==> Refused(r.error)
      ensures r.Ok? ==>
        && Delivered(ctx, old(inputs), old(mem), seen) && |seen.cells| == Arity(ctx)
        && (AllSafe(ctx, old(inputs)) ==> StaysInside(ctx, seen, callee(seen)))
        && (StaysInside(ctx, seen, callee(seen)) ==> Answered(seen, callee(seen), r.value))
    {
      hide Valid, Roomy, FrameOk, SlotsOk, SoundDef, Delivered, Returned, SlotsRead, Reported, FirstProblem, FailingAt,
        LengthFault, AllLengthsFit, AllSafe, StaysInside, PartsFit,
        Spared, LeftByFailure, ReturnValue, ReturnStruct, OutsReadable,
        StructsReadable, ReadOuts, ReadStructs;
      ghost var pushed, oldOuts, oldStructs := inputs, staleOuts, staleStructs;
      var ret;
      ret, seen := Call(callee);
      if ret.Err? {
        return Err(ret.error), seen;
      }
      if !StaysInside(ctx, seen, callee(seen)) {
        var anything: ScriptResult := *;
        return Ok(anything), seen;
      }
      ReportedFrom(ctx, pushed, seen, mem, ret.value, outSlots, structSlots, oldOuts, oldStructs);
      var returnVal := ReturnValue(ctx.env, ctx.def.returnType, ret.value);
      var returnStruct := ReturnStruct(ctx.env, ctx.def.returnType, ret.value);
      var outputs := ReadOuts(ctx.env, mem, outSlots);
      var structOutputs := ReadStructs(ctx.env, mem, structSlots);
      ValidCounts();
      DrainedIsOk(ctx, base, taken, View());
      outSlots := [];
      structSlots := [];
      staleOuts := [];
      staleStructs := [];
      ValidFrom(View());
      return Ok(ScriptResult(returnVal, returnStruct, outputs, structOutputs)), seen;
    }
  }

  /** Values `push_arg` takes; an `ArgVal` comes from outside, so its pointers are raw addresses. */
  ghost predicate IsArg(value: Input) {
    match value
    case Prim(v) => IsNumber(v)
    case Value(v) => IsForeignValue(v)
    case Text(_) => true
    case ByValue(sv) => ValidState(sv)
    case StructArg(sv) => ValidState(sv)
    case _ => false
  }

  predicate IsForeignValue(v: ArgVal) {
    match v
    case IntVal(_, _) => IsNumber(v)
    case PointerVal(p) => p.Raw?
    case StructVal(_) => false
    case _ => true
  }

  ghost predicate IsMutArg(value: Input) {
    match value
    case MutString(_) => true
    case MutBytes(_) => true
    case MutPrim(_, size) => IsUnit(size)
    case MutStruct(_, _) => true
    case Value(v) => IsForeignValue(v)
    case StructArg(sv) => ValidState(sv)
    case _ => false
  }

  /** Beyond what it had, a push takes what it borrows and what it creates. */
  ghost predicate OnlyTook(before: set<nat>, after: set<nat>, mem: Mem, input: Input) {
    forall o :: o in after ==> o in before || o !in mem.objs || BorrowedBy(input) == Some(o)
  }

  /** Exclusive borrowing: the object exists, with the size of its type, and this invocation does not
      hold it already. */
  predicate Borrowable(value: Input, mem: Mem, taken: set<nat>) {
    match value
    case MutString(h) => h in mem.objs && h !in taken
    case MutBytes(h) => h in mem.objs && h !in taken
    case MutPrim(h, size) => h in mem.objs && h !in taken && |mem.objs[h].data| == size
    case MutStruct(layout, h) => h in mem.objs && h !in taken && |mem.objs[h].data| == layout.size
    case _ => true
  }

  lemma ScriptCases(env: Env, coerce: bool, d: ArgType, v: ScriptVal)
    requires WfType(d)
    ensures Meaning(env, coerce, d, Script(v)) == ScriptMeaning(env, coerce, d, v)
    ensures d.Struct? || (d.Pointer? && d.target.Struct?) ==> ScriptMeaning(env, coerce, d, v) == None
  {
    hide ScriptMeaning, WfType;
    if d.Struct? || (d.Pointer? && d.target.Struct?) {
      ScriptStructsAreRefused(env, coerce, d, v);
    }
  }

  lemma ScriptStructsAreRefused(env: Env, coerce: bool, d: ArgType, v: ScriptVal)
    requires d.Struct? || (d.Pointer? && d.target.Struct?)
    ensures ScriptMeaning(env, coerce, d, v) == None
  {
    hide CoerceInt, CoerceFloat, TextMeaning;
  }

  lemma ScriptOutCases(env: Env, coerce: bool, target: ArgType, v: ScriptVal)
    ensures var meaning := ScriptMeaning(env, coerce, Pointer(target), v);
      match target
      case Int(ty) =>
        && meaning == Some(PassOut(OutInt(ty), EncodeInt(ty, ScriptInt(env, v)))) && KindSize(OutInt(ty)) == Width(ty)
      case F32 =>
        meaning == Some(PassOut(OutF32, Encode(env.fl.narrow(ScriptFloat(env, v)), 4))) && KindSize(OutF32) == 4
      case F64 => meaning == Some(PassOut(OutF64, Encode(ScriptFloat(env, v), 8))) && KindSize(OutF64) == 8
      case OpaquePointer =>
        meaning == Some(PassOut(OutPtr, Encode(if v.Address? then v.bits else 0, 8))) && KindSize(OutPtr) == 8
      case _ => meaning == None
  {
    hide Encode, EncodeInt, ScriptInt, ScriptFloat;
  }

  lemma StructArgCases(env: Env, coerce: bool, d: ArgType, sv: StructState)
    requires WfType(d) && ValidState(sv)
    ensures Meaning(env, coerce, d, StructArg(sv)) == if d.Struct? then Some(PassStruct(sv.bytes)) else None
  {
  }

  lemma ScriptStructByValueCases(env: Env, coerce: bool, st: StructType, fields: seq<ScriptVal>)
    requires WfType(Struct(st))
    ensures Spaced(st)
    ensures ScriptStructMeaning(env, Struct(st), fields) ==
      match FromScriptVals(env.fl, st, fields)
      case None => None
      case Some(sv) => Meaning(env, coerce, Struct(st), ByValue(sv))
  {
    hide Spaced, FromScriptVals, WfStruct, SameLayout;
    WfIsSpaced(st);
    SameLayoutAsItself(st);
  }

  lemma MeaningOfLast(c: Ctx, inputs: seq<Input>, input: Input)
    requires SoundDef(c.def) && |inputs| < Arity(c) && WfInput(input)
    ensures MeaningAt(c, inputs + [input], |inputs|)
      == Meaning(c.env, c.def.coerce, c.def.argTypes[|inputs|], input)
  {
    hide Meaning;
  }

  lemma BorrowOfLast(c: Ctx, inputs: seq<Input>, input: Input, p: Passed)
    requires SoundDef(c.def) && |inputs| < Arity(c) && MeaningAt(c, inputs + [input], |inputs|) == Some(p)
    ensures Borrowee(p) == BorrowedBy(input)
  {
    MeaningBorrows(c.env, c.def.coerce, c.def.argTypes[|inputs|], input);
    hide Meaning;
  }

  lemma SameLayoutAsItself(st: StructType)
    ensures SameLayout(st, st)
  {
    forall t: ArgType
      ensures SameVariant(t, t)
    {
    }
  }

  /** Casting to `i64` first, as every caller of the coercion does, changes nothing. */
  lemma CoerceIntOfWrapped(env: Env, d: ArgType, n: int)
    ensures CoerceInt(env, d, Wrap(I64, n)) == CoerceInt(env, d, n)
  {
    I64WrapsToItself(Integer(Wrap(I64, n)));
    WrapThrough64(if d.Int? then d.ty else U64, n);
    hide Wrap, DecimalBytes;
  }

  /** What the step on argument `i` may rely on. */
  lemma ReadyForStep(c: Ctx, inputs: seq<Input>, base: nat, taken: set<nat>, f0: Frame, f: Frame, i: nat)
    requires FrameOk(c, inputs, base, taken, f0) && i < |inputs| == Arity(c)
    requires PreparedUpTo(c, f0, f, |inputs|, i)
    ensures CtxOk(c) && MemOk(f.mem) && |f.vals| == 2 * |inputs|
    ensures BufferAt(c, f, i).Some? ==> BufferAt(c, f, i).value in f.mem.objs
    ensures Problem(c.def.argTypes[i], f.vals, i) == Problem(c.def.argTypes[i], f0.vals, i)
    ensures !c.def.argTypes[i].OCString? && !c.def.argTypes[i].OByteBuffer? ==>
      PrepareArg(c, f, i) == f && Problem(c.def.argTypes[i], f.vals, i).None?
  {
    LengthsUnchanged(c, f0, f, |inputs|, i, c.def.argTypes[i], i);
    PreparedKeepsFrame(c, inputs, base, taken, f0, f, i);
    if BufferAt(c, f, i).Some? {
      BufferExists(c, inputs, base, taken, f, i);
    }
    hide FrameOk, ArgPrepared;
  }

  lemma SparedBySame(m: Mem, taken: set<nat>)
    ensures Spared(m, m, taken)
  {
  }

  lemma SparedTwice(m: Mem, m': Mem, m'': Mem, taken: set<nat>)
    requires Spared(m, m', taken) && Spared(m', m'', taken)
    ensures Spared(m, m'', taken)
  {
  }

  /** Every buffer of `f` has been prepared from `f0` without a failure. */
  ghost predicate BuffersReady(c: Ctx, inputs: seq<Input>, base: nat, taken: set<nat>, f0: Frame, f: Frame) {
    var frameOk, prepared := FrameOk(c, inputs, base, taken, f0), PreparedUpTo(c, f0, f, Arity(c), Arity(c));
    frameOk && prepared && |inputs| == Arity(c) && FirstProblem(c, f0.vals, 0).None?
  }

  lemma BuffersAreReady(c: Ctx, inputs: seq<Input>, base: nat, taken: set<nat>, f0: Frame, f: Frame)
    requires FrameOk(c, inputs, base, taken, f0) && |inputs| == Arity(c) && FirstProblem(c, f0.vals, 0).None?
    requires PreparedUpTo(c, f0, f, Arity(c), FailingAt(c, f0.vals, 0))
    ensures BuffersReady(c, inputs, base, taken, f0, f)
  {
    hide FrameOk, PreparedUpTo;
    AllPrepared(c, f0.vals);
  }

  lemma ReadyIsDelivered(c: Ctx, inputs: seq<Input>, base: nat, taken: set<nat>, f0: Frame, f: Frame)
    requires BuffersReady(c, inputs, base, taken, f0, f) && FrameOk(c, inputs, base, taken, f)
    ensures AllFetchable(base, f) && SoundDef(c.def) && |inputs| == |SeenBy(base, f).cells| == Arity(c)
    ensures Delivered(c, inputs, f0.mem, SeenBy(base, f))
    ensures forall e: Effect :: AllSafe(c, inputs) ==> StaysInside(c, SeenBy(base, f), e)
  {
    hide FrameOk, PreparedUpTo, FirstProblem, AllFetchable, SeenBy, Delivered, AllSafe, StaysInside, SoundDef;
    FrameShape(c, inputs, base, taken, f);
    FramePointersAreLive(c, inputs, base, taken, f);
    NoProblems(c, f0.vals);
    PreparedIsDelivered(c, inputs, base, taken, f0, f);
    SafeExactly(c, inputs, f0.mem, SeenBy(base, f));
  }

  lemma AllPrepared(c: Ctx, vals: seq<ArgVal>)
    requires FirstProblem(c, vals, 0).None?
    ensures FailingAt(c, vals, 0) == Arity(c)
  {
  }

  lemma StaysInsideFits(c: Ctx, seen: Snapshot, e: Effect)
    requires |seen.cells| == Arity(c)
    ensures StaysInside(c, seen, e) ==> PartsFit(c, seen, e)
  {
  }
}
