/**
 What a push takes and what the callee finds for it, input by input, in plain values: the documented
 behaviour of every entry point, against which the coercion table is proved.
 */
module Arrival {
  import opened Wrappers
  import opened Numbers
  import opened Types
  import opened Layout
  import opened StructBytes
  import opened Text
  import opened Memory
  import opened Coercion
  import opened Signature
  import opened Marshal
  import opened Delivery
  import opened Effects

  // -- what a push takes --------------------------------------------------------------------------------------------

  predicate IsFloat(d: ArgType) {
    d == F32 || d == F64
  }

  /** Types whose argument is an address. */
  predicate IsAddressType(d: ArgType) {
    d == OpaquePointer || d == CString || d == ByteBuffer || d.OCString? || d.OByteBuffer? || d.Pointer?
  }

  /** A number is taken as itself, and with coercion by any number; an integer also as an address or text. */
  predicate TakesNumber(coerce: bool, d: ArgType, v: ArgVal) {
    match v
    case IntVal(ty, _) =>
      d == Int(ty) || (coerce && (d.Int? || IsFloat(d) || (IsAddressType(d) && d != ByteBuffer && !d.OByteBuffer?)))
    case F32Val(_) => d == F32 || (coerce && (d.Int? || IsFloat(d)))
    case F64Val(_) => d == F64 || (coerce && (d.Int? || IsFloat(d)))
    case _ => false
  }

  /** A text is taken by `cstr`; with coercion also by `ocstr`, by a byte, and by a number it spells. */
  predicate TakesText(env: Env, coerce: bool, d: ArgType, bytes: seq<byte>) {
    && 0 !in bytes
    && (d == CString || (coerce && (d.OCString? || d == Int(Char) || SpelledNumber(env, d, bytes))))
  }

  predicate SpelledNumber(env: Env, d: ArgType, bytes: seq<byte>) {
    env.decode(bytes).Some? &&
    var s := Trim(env.decode(bytes).value);
    match d
    case Int(I8) | Int(I16) | Int(I32) | Int(I64) => ParseSigned(s).Some?
    case Int(U16) | Int(U32) | Int(U64) => ParseUnsigned(s, 18446744073709551615).Some?
    case F32 | F64 => env.parseFloat(s).Some?
    case _ => false
  }

  predicate TakesScript(d: ArgType, v: ScriptVal) {
    match d
    case Pointer(t) => t.Int? || IsFloat(t) || t == OpaquePointer
    case OCString(_) => true
    case OpaquePointer => !v.Str?
    case CString => v.Null? || v.Nil? || (v.Str? && 0 !in v.text)
    case Int(_) | F32 | F64 => v.Number? || v.Integer? || v.Nil?
    case _ => false
  }

  predicate TakesFields(layout: StructType, vals: seq<ScriptVal>) {
    |vals| <= |layout.fields| && forall j :: 0 <= j < |vals| ==> ScriptTakes(layout.fields[j].argType, vals[j])
  }

  /** Whether a push succeeds on a free argument of type `d`. */
  predicate Accepts(env: Env, coerce: bool, d: ArgType, input: Input) {
    match input
    case Prim(v) => TakesNumber(coerce, d, v)
    case Value(PointerVal(Raw(_))) => IsAddressType(d)
    case Value(v) =>
      TakesNumber(coerce, d, v) || (IsAddressType(d) && v.IntVal? && (v.ty == U64 || v.ty == I64))
    case Text(bytes) => TakesText(env, coerce, d, bytes)
    case ByValue(sv) => d.Struct? && SameLayout(d.layout, sv.layout) && sv.next == |sv.layout.fields|
    case StructArg(_) => d.Struct?
    case MutString(_) => d.OCString? || d.OByteBuffer?
    case MutBytes(_) => d.OByteBuffer?
    case MutPrim(_, _) => true
    case MutStruct(layout, _) => d.Pointer? && d.target.Struct? && SameLayout(d.target.layout, layout)
    case Script(v) => TakesScript(d, v)
    case ScriptStruct(vals) =>
      || (d.Struct? && TakesFields(d.layout, vals) && |vals| == |d.layout.fields|)
      || (d.Pointer? && d.target.Struct? && TakesFields(d.target.layout, vals))
  }

  lemma NumberIsTaken(env: Env, coerce: bool, d: ArgType, v: ArgVal)
    requires IsNumber(v)
    ensures NumberMeaning(env, coerce, d, v).Some? <==> TakesNumber(coerce, d, v)
  {
    hide Wrap, Clamp, DecimalBytes;
  }

  lemma ValueIsTaken(env: Env, coerce: bool, d: ArgType, v: ArgVal)
    requires v.IntVal? ==> IsNumber(v)
    ensures ValueMeaning(env, coerce, d, v).Some? <==> Accepts(env, coerce, d, Value(v))
  {
    if IsNumber(v) {
      NumberIsTaken(env, coerce, d, v);
    }
    hide NumberMeaning, TakesNumber, Wrap;
  }

  lemma TextIsTaken(env: Env, coerce: bool, d: ArgType, bytes: seq<byte>)
    ensures TextMeaning(env, coerce, d, bytes).Some? <==> TakesText(env, coerce, d, bytes)
  {
    hide Wrap, Clamp, DecimalBytes, ParseSigned, ParseUnsigned, Trim;
  }

  lemma CstrTakesText(env: Env, coerce: bool, input: Input)
    requires input.Text?
    ensures Accepts(env, coerce, CString, input) <==> 0 !in input.bytes
  {
  }

  lemma ScriptIsTaken(env: Env, coerce: bool, d: ArgType, v: ScriptVal)
    ensures ScriptMeaning(env, coerce, d, v).Some? <==> TakesScript(d, v)
  {
    hide Wrap, Clamp, DecimalBytes, Encode, EncodeInt;
  }

  lemma FieldsAreTaken(fl: FloatOps, layout: StructType, vals: seq<ScriptVal>)
    requires Spaced(layout)
    ensures FromScriptVals(fl, layout, vals).Some? <==> TakesFields(layout, vals)
    ensures FromScriptVals(fl, layout, vals).Some? ==> FromScriptVals(fl, layout, vals).value.next == |vals|
  {
    PushAllImage(fl, layout, ScriptPushes(vals));
    forall t: ArgType, v: ScriptVal
      ensures FieldBytes(fl, t, ScriptPush(v)).Some? <==> ScriptTakes(t, v)
    {
      ScriptFieldHolds(fl, t, v);
    }
    hide Spaced, FieldBytes, ScriptPush, ScriptTakes, PushAll, IsImage;
    var ps := ScriptPushes(vals);
    assert forall j :: 0 <= j < |vals| ==> ps[j] == ScriptPush(vals[j]);
  }

  lemma StructByValueIsTaken(env: Env, st: StructType, vals: seq<ScriptVal>)
    requires WfType(Struct(st))
    ensures ScriptStructMeaning(env, Struct(st), vals).Some? <==> TakesFields(st, vals) && |vals| == |st.fields|
  {
    WfIsSpaced(st);
    FieldsAreTaken(env.fl, st, vals);
    hide Spaced, FromScriptVals, TakesFields, WfStruct, WfType;
  }

  lemma StructByAddressIsTaken(env: Env, st: StructType, vals: seq<ScriptVal>)
    requires WfType(Pointer(Struct(st)))
    ensures ScriptStructMeaning(env, Pointer(Struct(st)), vals).Some? <==> TakesFields(st, vals)
  {
    ScriptStructByAddressCases(env, st, vals);
    hide Spaced, FromScriptVals, TakesFields, WfStruct, WfType, ScriptStructMeaning;
    FieldsAreTaken(env.fl, st, vals);
  }

  lemma StructIsTaken(env: Env, coerce: bool, d: ArgType, vals: seq<ScriptVal>)
    requires WfType(d)
    ensures ScriptStructMeaning(env, d, vals).Some? <==> Accepts(env, coerce, d, ScriptStruct(vals))
  {
    hide ScriptStructMeaning, TakesFields, WfType;
    if d.Struct? {
      StructByValueIsTaken(env, d.layout, vals);
    } else if d.Pointer? && d.target.Struct? {
      StructByAddressIsTaken(env, d.target.layout, vals);
    } else {
      NoStructMeaning(env, d, vals);
    }
  }

  /** A push has a meaning exactly when the declared type takes it. */
  lemma TakenExactly(env: Env, coerce: bool, d: ArgType, input: Input)
    requires WfType(d) && WfInput(input) && (input.Value? && input.v.IntVal? ==> IsNumber(input.v))
    ensures Meaning(env, coerce, d, input).Some? <==> Accepts(env, coerce, d, input)
  {
    match input {
      case Prim(v) => NumberIsTaken(env, coerce, d, v);
      case Value(v) => ValueIsTaken(env, coerce, d, v);
      case Text(bytes) => TextIsTaken(env, coerce, d, bytes);
      case Script(v) => ScriptIsTaken(env, coerce, d, v);
      case ScriptStruct(vals) => StructIsTaken(env, coerce, d, vals);
      case _ =>
    }
    hide NumberMeaning, ValueMeaning, TextMeaning, ScriptMeaning, ScriptStructMeaning, TakesNumber, TakesText,
      TakesScript, TakesFields, SameLayout, WfStruct;
  }

  // -- what the callee finds ----------------------------------------------------------------------------------------

  /** The bytes behind argument `i` as the callee finds them. */
  function Behind(seen: Snapshot, i: nat): seq<byte>
    requires i < |seen.cells| && TargetAt(seen, i).Some?
  {
    seen.mem.objs[TargetAt(seen, i).value].data
  }

  /** Argument `i` as it was received. */
  lemma Received(c: Ctx, inputs: seq<Input>, before: Mem, seen: Snapshot, i: nat) returns (p: Passed)
    requires SoundDef(c.def) && Delivered(c, inputs, before, seen) && i < Arity(c)
    ensures |inputs| == |seen.cells| == Arity(c)
    ensures WfType(c.def.argTypes[i]) && WfInput(inputs[i])
    ensures Meaning(c.env, c.def.coerce, c.def.argTypes[i], inputs[i]) == Some(p)
    ensures Receives(c.def.argTypes[i], p, seen.cells, i, before, seen.mem)
  {
    p := MeaningAt(c, inputs, i).value;
    hide Meaning, Receives;
  }

  /** A text reaches a `cstr` or `ocstr` as itself with a NUL, and a byte as its first byte. */
  lemma TextArrives(c: Ctx, inputs: seq<Input>, before: Mem, seen: Snapshot, i: nat, bytes: seq<byte>)
    requires SoundDef(c.def) && Delivered(c, inputs, before, seen) && i < Arity(c)
    requires |inputs| == Arity(c) && inputs[i] == Text(bytes)
    ensures |seen.cells| == Arity(c)
    ensures var d, cell := c.def.argTypes[i], seen.cells[i];
      && (d == CString || d.OCString? ==> TargetAt(seen, i).Some? && Behind(seen, i) == bytes + [0])
      && (d == Int(Char) ==> cell == IntVal(Char, if bytes == [] then 0 else bytes[0]))
  {
    var p := Received(c, inputs, before, seen, i);
    hide Delivered, SoundDef, BufferReady, SeenLength, TrimmedText, ParseIntFor, CoerceInt, CoerceFloat;
  }

  /** It reaches any other number as the one it spells. */
  lemma SpelledNumberArrives(c: Ctx, inputs: seq<Input>, before: Mem, seen: Snapshot, i: nat, bytes: seq<byte>)
    requires SoundDef(c.def) && Delivered(c, inputs, before, seen) && i < Arity(c)
    requires |inputs| == Arity(c) && inputs[i] == Text(bytes)
    ensures |seen.cells| == Arity(c)
    ensures var d, cell := c.def.argTypes[i], seen.cells[i];
      && (d == Int(I8) || d == Int(I16) || d == Int(I32) || d == Int(I64) ==>
        && c.env.decode(bytes).Some? && ParseSigned(Trim(c.env.decode(bytes).value)).Some?
        && cell == IntVal(d.ty, Wrap(d.ty, ParseSigned(Trim(c.env.decode(bytes).value)).value)))
      && (d == Int(U16) || d == Int(U32) || d == Int(U64) ==>
        && c.env.decode(bytes).Some?
        && ParseUnsigned(Trim(c.env.decode(bytes).value), 18446744073709551615).Some?
        && cell == IntVal(d.ty, Wrap(d.ty, ParseUnsigned(Trim(c.env.decode(bytes).value), 18446744073709551615).value)))
      && (IsFloat(d) ==>
        && c.env.decode(bytes).Some? && c.env.parseFloat(Trim(c.env.decode(bytes).value)).Some?
        && var bits := c.env.parseFloat(Trim(c.env.decode(bytes).value)).value;
          cell == if d == F64 then F64Val(bits) else F32Val(c.env.fl.narrow(bits)))
  {
    var p := Received(c, inputs, before, seen, i);
    hide Delivered, SoundDef, Wrap, ParseSigned, ParseUnsigned, Trim, DecimalBytes, BufferReady, SeenLength;
  }

  /** An integer reaches a number as its representative or nearest float, an address type as its 64 bits,
      and a text type as its decimal text, the last two as a 64-bit number. */
  lemma IntegerArrives(c: Ctx, inputs: seq<Input>, before: Mem, seen: Snapshot, i: nat, ty: IntType, n: int)
    requires SoundDef(c.def) && Delivered(c, inputs, before, seen) && i < Arity(c)
    requires |inputs| == Arity(c) && (inputs[i] == Prim(IntVal(ty, n)) || inputs[i] == Value(IntVal(ty, n)))
    requires InRange(ty, n)
    ensures |seen.cells| == Arity(c)
    ensures var d, cell := c.def.argTypes[i], seen.cells[i];
      && (d.Int? ==> cell == IntVal(d.ty, Wrap(d.ty, n)))
      && (d == F64 ==> cell == F64Val(c.env.fl.intToF64(Wrap(I64, n))))
      && (d == F32 ==> cell == F32Val(c.env.fl.intToF32(Wrap(I64, n))))
      && (d == OpaquePointer || d.Pointer? || (inputs[i].Value? && IsAddressType(d) && (ty == U64 || ty == I64)) ==>
        cell == PointerVal(Raw(Wrap(U64, n))))
      && ((d == CString || d.OCString?) && !(inputs[i].Value? && (ty == U64 || ty == I64)) ==>
        && TargetAt(seen, i).Some? && |Behind(seen, i)| == |IntText(Wrap(I64, n))| + 1
        && Behind(seen, i)[|IntText(Wrap(I64, n))|] == 0
        && forall b :: 0 <= b < |IntText(Wrap(I64, n))| ==> Behind(seen, i)[b] == IntText(Wrap(I64, n))[b] as int)
  {
    var p := Received(c, inputs, before, seen, i);
    InRangeWraps(ty, n);
    IntTextIsAscii(Wrap(I64, n));
    hide Delivered, SoundDef, Wrap, BufferReady, SeenLength, IntText;
  }

  lemma InRangeWraps(ty: IntType, n: int)
    requires InRange(ty, n)
    ensures Wrap(ty, n) == n
  {
    WrapIsTheRepresentative(ty, n, n);
  }

  lemma IntTextIsAscii(n: int)
    ensures |DecimalBytes(n)| == |IntText(n)|
    ensures forall b :: 0 <= b < |IntText(n)| ==> DecimalBytes(n)[b] == IntText(n)[b] as int
  {
    assert AllDigits(NatText(if n < 0 then -n else n));
  }

  /** A float reaches an integer truncated and clamped, and a float widened or narrowed. */
  lemma FloatArrives(c: Ctx, inputs: seq<Input>, before: Mem, seen: Snapshot, i: nat, v: ArgVal)
    requires SoundDef(c.def) && Delivered(c, inputs, before, seen) && i < Arity(c)
    requires |inputs| == Arity(c) && (v.F32Val? || v.F64Val?) && (inputs[i] == Prim(v) || inputs[i] == Value(v))
    ensures |seen.cells| == Arity(c)
    ensures var d, cell, bits := c.def.argTypes[i], seen.cells[i],
        if v.F32Val? then c.env.fl.widen(v.bits32) else v.bits64;
      && (d.Int? ==> cell == IntVal(d.ty, Clamp(d.ty, c.env.fl.trunc(bits))))
      && (d == F64 ==> cell == F64Val(bits))
      && (d == F32 ==> cell == if v.F32Val? then v else F32Val(c.env.fl.narrow(bits)))
  {
    var p := Received(c, inputs, before, seen, i);
    hide Delivered, SoundDef, Wrap, Clamp, BufferReady, SeenLength, DecimalBytes;
  }

  /** A dynamic address arrives bit for bit. */
  lemma AddressArrives(c: Ctx, inputs: seq<Input>, before: Mem, seen: Snapshot, i: nat, bits: u64)
    requires SoundDef(c.def) && Delivered(c, inputs, before, seen) && i < Arity(c)
    requires |inputs| == Arity(c) && inputs[i] == Value(PointerVal(Raw(bits)))
    ensures |seen.cells| == Arity(c) && seen.cells[i] == PointerVal(Raw(bits))
  {
    var p := Received(c, inputs, before, seen, i);
    hide Delivered, SoundDef, BufferReady, SeenLength;
  }

  /** A struct by value arrives byte for byte. */
  lemma StructArrives(c: Ctx, inputs: seq<Input>, before: Mem, seen: Snapshot, i: nat, sv: StructState)
    requires SoundDef(c.def) && Delivered(c, inputs, before, seen) && i < Arity(c)
    requires |inputs| == Arity(c) && (inputs[i] == ByValue(sv) || inputs[i] == StructArg(sv))
    ensures |seen.cells| == Arity(c) && seen.cells[i].StructVal? && seen.cells[i].obj in seen.mem.objs
    ensures seen.mem.objs[seen.cells[i].obj].data == sv.bytes
  {
    var p := Received(c, inputs, before, seen, i);
    hide Delivered, SoundDef, BufferReady, SeenLength, SameLayout, Spaced;
  }

  /** A borrowed variable or struct is reached itself, as it was. */
  lemma VariableArrives(c: Ctx, inputs: seq<Input>, before: Mem, seen: Snapshot, i: nat, h: nat)
    requires SoundDef(c.def) && Delivered(c, inputs, before, seen) && i < Arity(c)
    requires |inputs| == Arity(c)
    requires (inputs[i].MutPrim? && inputs[i].obj == h) || (inputs[i].MutStruct? && inputs[i].obj == h)
    ensures |seen.cells| == Arity(c) && TargetAt(seen, i) == Some(h)
    ensures h in before.objs && seen.mem.objs[h] == before.objs[h]
  {
    var p := Received(c, inputs, before, seen, i);
    BorrowMeans(c.env, c.def.coerce, c.def.argTypes[i], inputs[i], h);
    hide Delivered, SoundDef, BufferReady, SeenLength, Meaning, WfType, WfInput;
  }

  lemma BorrowMeans(env: Env, coerce: bool, d: ArgType, input: Input, h: nat)
    requires WfType(d) && WfInput(input)
    requires (input.MutPrim? && input.obj == h) || (input.MutStruct? && input.obj == h)
    ensures var p := Meaning(env, coerce, d, input); p.Some? ==> p.value.PassBorrow? && p.value.obj == h
  {
    hide SameLayout, WfType;
  }

  /** The length the callee is told for a buffer of type `d`. */
  predicate IsTold(d: ArgType, cells: seq<ArgVal>, len: nat) {
    && (d.OCString? || d.OByteBuffer?)
    && ((d.length.Fixed? && d.length.n == len)
      || (d.length.FromArg? && d.length.k < |cells| && cells[d.length.k].IntVal? && cells[d.length.k].n == len))
  }

  /** A caller's String or vector is reached itself: an `ocstr` with its text, zeros after it and room for
      `len` more bytes and a NUL; an `obuff` String with its text and room for `len` more; an `obuff` vector
      cut or filled with zeros to `len` bytes. */
  lemma BufferArrives(c: Ctx, inputs: seq<Input>, before: Mem, seen: Snapshot, i: nat, h: nat, len: nat)
    requires SoundDef(c.def) && Delivered(c, inputs, before, seen) && i < Arity(c)
    requires |inputs| == |seen.cells| == Arity(c) && (inputs[i] == MutString(h) || inputs[i] == MutBytes(h))
    requires IsTold(c.def.argTypes[i], seen.cells, len)
    ensures TargetAt(seen, i) == Some(h) && h in before.objs && before.objs[h].used <= |before.objs[h].data|
    ensures var d, o, o' := c.def.argTypes[i], before.objs[h], seen.mem.objs[h];
      if inputs[i].MutBytes? then
        && o'.used == len <= |o'.data|
        && forall b :: 0 <= b < len ==> o'.data[b] == if b < o.used then o.data[b] else 0
      else
        && o'.used == o.used && |o'.data| >= o.used + len + (if d.OCString? then 1 else 0)
        && o'.data[..o.used] == o.data[..o.used]
        && (d.OCString? ==> forall b :: o.used <= b < |o'.data| ==> o'.data[b] == 0)
  {
    var p := Received(c, inputs, before, seen, i);
    hide Delivered, SoundDef, WfType;
  }

  /** Without a length an `obuff` is reached as it was. */
  lemma UnmeasuredBufferArrives(c: Ctx, inputs: seq<Input>, before: Mem, seen: Snapshot, i: nat, h: nat)
    requires SoundDef(c.def) && Delivered(c, inputs, before, seen) && i < Arity(c)
    requires |inputs| == |seen.cells| == Arity(c) && (inputs[i] == MutString(h) || inputs[i] == MutBytes(h))
    requires c.def.argTypes[i] == OByteBuffer(NoLength)
    ensures TargetAt(seen, i) == Some(h) && h in before.objs && before.objs[h].used <= |before.objs[h].data|
    ensures var o, o' := before.objs[h], seen.mem.objs[h];
      o'.used == o.used <= |o'.data| && o'.data[..o.used] == o.data[..o.used]
  {
    var p := Received(c, inputs, before, seen, i);
    hide Delivered, SoundDef, WfType;
  }

  /** A scripted `ocstr` is a private string with the given text, or none, and the same room. */
  lemma ScriptStringArrives(c: Ctx, inputs: seq<Input>, before: Mem, seen: Snapshot, i: nat, v: ScriptVal, len: nat)
    requires SoundDef(c.def) && Delivered(c, inputs, before, seen) && i < Arity(c)
    requires |inputs| == |seen.cells| == Arity(c) && inputs[i] == Script(v) && c.def.argTypes[i].OCString?
    requires IsTold(c.def.argTypes[i], seen.cells, len)
    ensures TargetAt(seen, i).Some?
    ensures var o, text := seen.mem.objs[TargetAt(seen, i).value], if v.Str? then v.text else [];
      && o.used == |text| && |o.data| >= |text| + len + 1 && o.data[..|text|] == text
      && forall b :: |text| <= b < |o.data| ==> o.data[b] == 0
  {
    var p := Received(c, inputs, before, seen, i);
    hide Delivered, SoundDef, WfType;
  }

  /** A script value for a number: an integer wrapped, a float clamped or narrowed, nothing as zero. */
  lemma ScriptNumberArrives(c: Ctx, inputs: seq<Input>, before: Mem, seen: Snapshot, i: nat, v: ScriptVal)
    requires SoundDef(c.def) && Delivered(c, inputs, before, seen) && i < Arity(c)
    requires |inputs| == Arity(c) && inputs[i] == Script(v)
    requires c.def.argTypes[i].Int? || IsFloat(c.def.argTypes[i])
    ensures |seen.cells| == Arity(c) && (v.Number? || v.Integer? || v.Nil?)
    ensures var d, cell, fl := c.def.argTypes[i], seen.cells[i], c.env.fl;
      if v.Number? then
        && (d.Int? ==> cell == IntVal(d.ty, Clamp(d.ty, fl.trunc(v.bits))))
        && (d == F32 ==> cell == F32Val(fl.narrow(v.bits))) && (d == F64 ==> cell == F64Val(v.bits))
      else
        var n: i64 := if v.Integer? then v.n else 0;
        && (d.Int? ==> cell == IntVal(d.ty, Wrap(d.ty, n)))
        && (d == F32 ==> cell == F32Val(fl.intToF32(n))) && (d == F64 ==> cell == F64Val(fl.intToF64(n)))
  {
    var p := Received(c, inputs, before, seen, i);
    I64WrapsToItself(v);
    hide Delivered, SoundDef, BufferReady, SeenLength, Wrap, Clamp, DecimalBytes;
  }

  /** A script value for a `ptr`: the address, an integer's 64 bits, a float truncated first, or null. */
  lemma ScriptAddressArrives(c: Ctx, inputs: seq<Input>, before: Mem, seen: Snapshot, i: nat, v: ScriptVal)
    requires SoundDef(c.def) && Delivered(c, inputs, before, seen) && i < Arity(c)
    requires |inputs| == Arity(c) && inputs[i] == Script(v) && c.def.argTypes[i] == OpaquePointer
    ensures |seen.cells| == Arity(c) && !v.Str?
    ensures seen.cells[i] == PointerVal(Raw(
      match v
      case Address(bits) => bits
      case Integer(n) => Wrap(U64, n)
      case Number(b) => Wrap(U64, Clamp(I64, c.env.fl.trunc(b)))
      case _ => 0))
  {
    var p := Received(c, inputs, before, seen, i);
    hide Delivered, SoundDef, BufferReady, SeenLength, Wrap, Clamp;
  }

  /** A script value for a `cstr`: the text with a NUL, the empty one for nothing, or a null address. */
  lemma ScriptTextArrives(c: Ctx, inputs: seq<Input>, before: Mem, seen: Snapshot, i: nat, v: ScriptVal)
    requires SoundDef(c.def) && Delivered(c, inputs, before, seen) && i < Arity(c)
    requires |inputs| == Arity(c) && inputs[i] == Script(v) && c.def.argTypes[i] == CString
    ensures |seen.cells| == Arity(c) && (v.Null? || v.Nil? || v.Str?)
    ensures v.Null? ==> seen.cells[i] == PointerVal(Raw(0))
    ensures !v.Null? ==> TargetAt(seen, i).Some? && Behind(seen, i) == (if v.Str? then v.text else []) + [0]
  {
    var p := Received(c, inputs, before, seen, i);
    hide Delivered, SoundDef, BufferReady, SeenLength;
  }

  /** The variable behind a scripted `*T` starts with the given value; what is no number starts at zero. */
  lemma ScriptVariableArrives(c: Ctx, inputs: seq<Input>, before: Mem, seen: Snapshot, i: nat, v: ScriptVal)
    requires SoundDef(c.def) && Delivered(c, inputs, before, seen) && i < Arity(c)
    requires |inputs| == Arity(c) && inputs[i] == Script(v) && c.def.argTypes[i].Pointer?
    ensures |seen.cells| == Arity(c) && TargetAt(seen, i).Some?
    ensures var t, bs, fl := c.def.argTypes[i].target, Behind(seen, i), c.env.fl;
      && IsScalar(t) && |bs| == SizeOf(t)
      && (t.Int? || IsFloat(t) || t == OpaquePointer)
      && (t.Int? ==> DecodeInt(t.ty, bs) == Wrap(t.ty,
        if v.Integer? then v.n else if v.Number? then Clamp(I64, fl.trunc(v.bits)) else 0))
      && (t == F64 ==> Decode(bs) == if v.Number? then v.bits else if v.Integer? then fl.intToF64(v.n) else 0)
      && (t == F32 ==>
        Decode(bs) == fl.narrow(if v.Number? then v.bits else if v.Integer? then fl.intToF64(v.n) else 0))
      && (t == OpaquePointer ==> Decode(bs) == if v.Address? then v.bits else 0)
  {
    VariableReceived(c, inputs, before, seen, i, v);
    VariableStarts(c.env, c.def.argTypes[i].target, v);
    hide Delivered, SoundDef, OutInit, Decode, DecodeInt, Wrap, Clamp, IsScalar, SizeOf, TargetAt;
  }

  lemma VariableReceived(c: Ctx, inputs: seq<Input>, before: Mem, seen: Snapshot, i: nat, v: ScriptVal)
    requires SoundDef(c.def) && Delivered(c, inputs, before, seen) && i < Arity(c)
    requires |inputs| == Arity(c) && inputs[i] == Script(v) && c.def.argTypes[i].Pointer?
    ensures |seen.cells| == Arity(c) && TargetAt(seen, i).Some?
    ensures var init := OutInit(c.env, c.def.argTypes[i].target, v);
      init.Some? && init.value.PassOut? && Behind(seen, i) == init.value.bytes
  {
    var p := Received(c, inputs, before, seen, i);
    hide Delivered, SoundDef, BufferReady, SeenLength;
  }

  lemma VariableStarts(env: Env, t: ArgType, v: ScriptVal)
    requires OutInit(env, t, v).Some?
    ensures t.Int? || IsFloat(t) || t == OpaquePointer
    ensures OutInit(env, t, v).value.PassOut?
    ensures var bs, fl := OutInit(env, t, v).value.bytes, env.fl;
      && IsScalar(t) && |bs| == SizeOf(t)
      && (t.Int? ==> DecodeInt(t.ty, bs) == Wrap(t.ty,
        if v.Integer? then v.n else if v.Number? then Clamp(I64, fl.trunc(v.bits)) else 0))
      && (t == F64 ==> Decode(bs) == if v.Number? then v.bits else if v.Integer? then fl.intToF64(v.n) else 0)
      && (t == F32 ==>
        Decode(bs) == fl.narrow(if v.Number? then v.bits else if v.Integer? then fl.intToF64(v.n) else 0))
      && (t == OpaquePointer ==> Decode(bs) == if v.Address? then v.bits else 0)
  {
    hide Encode, Decode, Pow256, Wrap, Clamp, DecodeInt, EncodeInt;
    Pow256Small(4);
    Pow256Small(8);
    match t {
      case Int(ty) => IntRoundTrip(ty, ScriptInt(env, v));
      case F32 => DecodeEncode(env.fl.narrow(ScriptFloat(env, v)), 4);
      case F64 => DecodeEncode(ScriptFloat(env, v), 8);
      case OpaquePointer => DecodeEncode(if v.Address? then v.bits else 0, 8);
      case _ =>
    }
  }

  /** The bytes of a struct built from script values: each value in its field, zeros everywhere else. */
  ghost predicate IsBuiltFrom(fl: FloatOps, layout: StructType, vals: seq<ScriptVal>, bytes: seq<byte>) {
    && Spaced(layout) && |bytes| == layout.size && |vals| <= |layout.fields|
    && (forall j :: 0 <= j < |vals| ==>
      FieldBytes(fl, layout.fields[j].argType, ScriptPush(vals[j])) == Some(FieldSlice(layout, bytes, j)))
    && (forall b :: 0 <= b < |bytes| && (forall j :: 0 <= j < |vals| ==> !InField(layout, j, b)) ==> bytes[b] == 0)
  }

  lemma BuiltFrom(fl: FloatOps, layout: StructType, vals: seq<ScriptVal>)
    requires Spaced(layout) && FromScriptVals(fl, layout, vals).Some?
    ensures IsBuiltFrom(fl, layout, vals, FromScriptVals(fl, layout, vals).value.bytes)
  {
    var ps := ScriptPushes(vals);
    PushAllImage(fl, layout, ps);
    var bytes := FromScriptVals(fl, layout, vals).value.bytes;
    forall j | 0 <= j < |vals|
      ensures FieldBytes(fl, layout.fields[j].argType, ScriptPush(vals[j])) == Some(FieldSlice(layout, bytes, j))
    {
      assert ps[j] == ScriptPush(vals[j]);
      assert EncodeAll(fl, layout, ps)[j] == FieldSlice(layout, bytes, j);
    }
    hide FieldBytes, ScriptPush, PushAll;
  }

  lemma ScriptStructMeans(env: Env, coerce: bool, d: ArgType, vals: seq<ScriptVal>)
    requires WfType(d)
    ensures var p := Meaning(env, coerce, d, ScriptStruct(vals));
      && (p.Some? ==> p.value.PassStruct? || p.value.PassOutStruct?)
      && (p.Some? && p.value.PassStruct? ==>
        d.Struct? && |vals| == |d.layout.fields| && IsBuiltFrom(env.fl, d.layout, vals, p.value.bytes))
      && (p.Some? && p.value.PassOutStruct? ==>
        d.Pointer? && d.target.Struct? && IsBuiltFrom(env.fl, d.target.layout, vals, p.value.bytes))
  {
    hide FromScriptVals, IsBuiltFrom, Spaced, WfStruct;
    var layout := if d.Struct? then d.layout else if d.Pointer? && d.target.Struct? then d.target.layout
      else StructType([], 0, 1);
    if d.Struct? || (d.Pointer? && d.target.Struct?) {
      assert WfType(Struct(layout));
      WfIsSpaced(layout);
      FieldsAreTaken(env.fl, layout, vals);
      if FromScriptVals(env.fl, layout, vals).Some? {
        BuiltFrom(env.fl, layout, vals);
      }
    }
  }

  /** A scripted struct arrives built from the values, by value complete, by address as far as they go. */
  lemma ScriptStructArrives(c: Ctx, inputs: seq<Input>, before: Mem, seen: Snapshot, i: nat, vals: seq<ScriptVal>)
    requires SoundDef(c.def) && Delivered(c, inputs, before, seen) && i < Arity(c)
    requires |inputs| == Arity(c) && inputs[i] == ScriptStruct(vals)
    ensures |seen.cells| == Arity(c)
    ensures var d, cell := c.def.argTypes[i], seen.cells[i];
      if d.Struct? then
        && cell.StructVal? && cell.obj in seen.mem.objs && |vals| == |d.layout.fields|
        && IsBuiltFrom(c.env.fl, d.layout, vals, seen.mem.objs[cell.obj].data)
      else
        && d.Pointer? && d.target.Struct? && TargetAt(seen, i).Some?
        && IsBuiltFrom(c.env.fl, d.target.layout, vals, Behind(seen, i))
  {
    hide Delivered, SoundDef, BufferReady, SeenLength, IsBuiltFrom, Meaning, WfType;
    var p := Received(c, inputs, before, seen, i);
    ScriptStructMeans(c.env, c.def.coerce, c.def.argTypes[i], vals);
  }
}
