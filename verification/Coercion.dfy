/**
 What an argument means: from the declared type and what the caller pushed to what the callee must
 receive. This is the documented coercion table; `Invocation` is proved to deliver it.
 */
module Coercion {
  import opened Wrappers
  import opened Numbers
  import opened Types
  import opened Layout
  import opened StructBytes
  import opened Text
  import opened Memory

  /** A cell of the argument stack. Owned and borrowed buffers are named by their object. */
  datatype ArgVal =
    | IntVal(ty: IntType, n: int)
    | F32Val(bits32: u32)
    | F64Val(bits64: u64)
    | PointerVal(p: Ptr)
    | StructVal(obj: nat)
    | CStringVal(obj: nat)
    | RustString(obj: nat)
    | ByteVec(obj: nat)
    | NoVal

  /** One push, by entry point and argument. */
  datatype Input =
    | Prim(v: ArgVal)                             // push_arg of an integer or float
    | Value(v: ArgVal)                            // push_arg or push_mut_arg of an ArgVal
    | Text(bytes: seq<byte>)                      // push_arg of a String or CStr
    | ByValue(sv: StructState)                    // push_arg of a StructValue
    | StructArg(sv: StructState)                  // push_arg or push_mut_arg of an ArgVal that is a struct
    | MutString(obj: nat)                         // push_mut_arg of a String
    | MutBytes(obj: nat)                          // push_mut_arg of a Vec<u8>
    | MutPrim(obj: nat, size: nat)                // push_mut_arg of an integer or float
    | MutStruct(layout: StructType, obj: nat)     // push_mut_arg of a StructValue
    | Script(val: ScriptVal)                      // push_script_val
    | ScriptStruct(vals: seq<ScriptVal>)          // push_script_struct

  /** What a boxed output slot holds. */
  datatype OutKind = OutInt(ty: IntType) | OutF32 | OutF64 | OutPtr | OutText

  /** What the callee receives. */
  datatype Passed =
    | PassNum(v: ArgVal)                          // a number of the declared type
    | PassRaw(bits: u64)                          // an address taken from the caller
    | PassText(bytes: seq<byte>)                  // a private NUL-terminated copy
    | PassStruct(bytes: seq<byte>)                // a private copy of a struct, by value
    | PassString(obj: nat)                        // the caller's String, as an output buffer
    | PassBytes(obj: nat)                         // the caller's Vec<u8>, as an output buffer
    | PassBorrow(obj: nat, size: nat)             // the caller's variable or struct, by address
    | PassOutText(init: seq<byte>)                // an owned String, as an output buffer
    | PassOut(kind: OutKind, bytes: seq<byte>)    // an owned output variable
    | PassOutStruct(layout: StructType, bytes: seq<byte>)  // an owned struct, by address

  predicate IsNumber(v: ArgVal) {
    match v
    case IntVal(ty, n) => InRange(ty, n)
    case F32Val(_) | F64Val(_) => true
    case _ => false
  }

  /** The value is of the declared type itself. */
  predicate Matches(d: ArgType, v: ArgVal) {
    match (d, v)
    case (Int(ty), IntVal(ty', _)) => ty == ty'
    case (F32, F32Val(_)) => true
    case (F64, F64Val(_)) => true
    case _ => false
  }

  /** Declared types that libffi passes as a pointer. */
  predicate PointerLike(d: ArgType) {
    d.OpaquePointer? || d.CString? || d.OCString? || d.ByteBuffer? || d.OByteBuffer? || d.Pointer?
  }

  // -- coercions ---------------------------------------------------------------------------------------------------

  function AsciiBytes(s: string): (bs: seq<byte>)
    requires forall i :: 0 <= i < |s| ==> s[i] as int < 0x80
    ensures |bs| == |s|
  {
    seq(|s|, i requires 0 <= i < |s| => s[i] as int)
  }

  function DecimalBytes(n: int): seq<byte> {
    assert AllDigits(NatText(if n < 0 then -n else n));
    AsciiBytes(IntText(n))
  }

  /** An integer for a declared type: the representative in range, the nearest float, an address, or
      decimal text of its 64-bit value. */
  function CoerceInt(env: Env, d: ArgType, n: int): (r: Option<Passed>)
  {
    match d
    case Int(ty) => Some(PassNum(IntVal(ty, Wrap(ty, n))))
    case F32 => Some(PassNum(F32Val(env.fl.intToF32(Wrap(I64, n)))))
    case F64 => Some(PassNum(F64Val(env.fl.intToF64(Wrap(I64, n)))))
    case OpaquePointer | Pointer(_) => Some(PassRaw(Wrap(U64, n)))
    case CString | OCString(_) => Some(PassText(DecimalBytes(Wrap(I64, n))))
    case _ => None
  }

  /** A float for a declared type: truncated and clamped to an integer range, or narrowed. */
  function CoerceFloat(env: Env, d: ArgType, bits: u64): (r: Option<Passed>)
  {
    match d
    case Int(ty) => Some(PassNum(IntVal(ty, Clamp(ty, env.fl.trunc(bits)))))
    case F32 => Some(PassNum(F32Val(env.fl.narrow(bits))))
    case F64 => Some(PassNum(F64Val(bits)))
    case _ => None
  }

  function TrimmedText(env: Env, bytes: seq<byte>): Option<string> {
    match env.decode(bytes)
    case None => None
    case Some(s) => Some(Trim(s))
  }

  function ParseIntFor(ty: IntType, s: string): Option<int> {
    if Signed(ty) then ParseSigned(s)
    else
      match ParseUnsigned(s, 0xFFFF_FFFF_FFFF_FFFF)
      case Some(n) => Some(n)
      case None => None
  }

  /** Text for a declared type: itself, its first byte for a byte, otherwise its decimal value. */
  function CoerceText(env: Env, d: ArgType, bytes: seq<byte>): (r: Option<Passed>)
  {
    match d
    case CString | OCString(_) => Some(PassText(bytes))
    case Int(Char) => Some(PassNum(IntVal(Char, if bytes == [] then 0 else bytes[0])))
    case Int(ty) =>
      (match TrimmedText(env, bytes)
       case None => None
       case Some(s) =>
         match ParseIntFor(ty, s)
         case None => None
         case Some(n) => CoerceInt(env, d, n))
    case F32 | F64 =>
      (match TrimmedText(env, bytes)
       case None => None
       case Some(s) =>
         match env.parseFloat(s)
         case None => None
         case Some(bits) => CoerceFloat(env, d, bits))
    case _ => None
  }

  // -- the entry points --------------------------------------------------------------------------------------------

  function NumberMeaning(env: Env, coerce: bool, d: ArgType, v: ArgVal): (r: Option<Passed>)
    requires IsNumber(v)
  {
    if Matches(d, v) then Some(PassNum(v))
    else if !coerce then None
    else
      match v
      case IntVal(_, n) => CoerceInt(env, d, n)
      case F32Val(b) => CoerceFloat(env, d, env.fl.widen(b))
      case F64Val(b) => CoerceFloat(env, d, b)
  }

  /** A dynamic value: an address for any pointer type, a 64-bit integer likewise, else a number. */
  function ValueMeaning(env: Env, coerce: bool, d: ArgType, v: ArgVal): (r: Option<Passed>)
  {
    match v
    case PointerVal(Raw(bits)) => if PointerLike(d) then Some(PassRaw(bits)) else None
    case IntVal(ty, n) =>
      if PointerLike(d) && (ty.U64? || ty.I64?) then Some(PassRaw(Wrap(U64, n)))
      else if IsNumber(v) then NumberMeaning(env, coerce, d, v) else None
    case F32Val(_) | F64Val(_) => NumberMeaning(env, coerce, d, v)
    case _ => None
  }

  function TextMeaning(env: Env, coerce: bool, d: ArgType, bytes: seq<byte>): (r: Option<Passed>)
  {
    if 0 in bytes then None
    else if d.CString? then Some(PassText(bytes))
    else if coerce then CoerceText(env, d, bytes)
    else None
  }

  /** `script_val_as_i64`. */
  function ScriptInt(env: Env, v: ScriptVal): i64 {
    match v
    case Integer(n) => n
    case Number(b) => Clamp(I64, env.fl.trunc(b))
    case _ => 0
  }

  /** `script_val_as_f64`. */
  function ScriptFloat(env: Env, v: ScriptVal): u64 {
    match v
    case Number(b) => b
    case Integer(n) => env.fl.intToF64(n)
    case _ => 0
  }

  /** The initial text of an output string: anything but a string counts as empty. */
  function ScriptText(v: ScriptVal): seq<byte> {
    if v.Str? then v.text else []
  }

  /** The boxed variable behind a scripted `*T` argument. */
  function OutInit(env: Env, target: ArgType, v: ScriptVal): Option<Passed> {
    match target
    case Int(ty) => Some(PassOut(OutInt(ty), EncodeInt(ty, ScriptInt(env, v))))
    case F32 => Some(PassOut(OutF32, Encode(env.fl.narrow(ScriptFloat(env, v)), 4)))
    case F64 => Some(PassOut(OutF64, Encode(ScriptFloat(env, v), 8)))
    case OpaquePointer => Some(PassOut(OutPtr, Encode(if v.Address? then v.bits else 0, 8)))
    case _ => None
  }

  function ScriptMeaning(env: Env, coerce: bool, d: ArgType, v: ScriptVal): Option<Passed> {
    match d
    case Pointer(target) => OutInit(env, target, v)
    case OCString(_) => Some(PassOutText(ScriptText(v)))
    case OpaquePointer =>
      (match v
       case Address(bits) => Some(PassRaw(bits))
       case Integer(n) => Some(PassRaw(Wrap(U64, n)))
       case Number(b) => Some(PassRaw(Wrap(U64, Clamp(I64, env.fl.trunc(b)))))
       case Nil | Null => Some(PassRaw(0))
       case Str(_) => None)
    case CString =>
      (match v
       case Null => Some(PassRaw(0))
       case Str(s) => TextMeaning(env, coerce, d, s)
       case Nil => Some(PassText([]))
       case _ => None)
    case Struct(_) => None
    case _ =>
      match v
      case Number(b) => CoerceFloat(env, d, b)
      case Integer(n) => CoerceInt(env, d, n)
      case Nil => CoerceInt(env, d, 0)
      case _ => None
  }

  /** A scripted struct: complete when by value, zero-filled when by address. */
  function ScriptStructMeaning(env: Env, d: ArgType, vals: seq<ScriptVal>): Option<Passed>
    requires WfType(d)
  {
    match d
    case Struct(st) =>
      WfIsSpaced(st);
      (match FromScriptVals(env.fl, st, vals)
       case Some(sv) => if sv.next == |st.fields| then Some(PassStruct(sv.bytes)) else None
       case None => None)
    case Pointer(Struct(st)) =>
      assert WfType(d.target);
      WfIsSpaced(st);
      (match FromScriptVals(env.fl, st, vals)
       case Some(sv) => Some(PassOutStruct(st, sv.bytes))
       case None => None)
    case _ => None
  }

  /** What the type of a pushed Rust value guarantees. */
  ghost predicate WfInput(input: Input) {
    match input
    case Prim(v) => IsNumber(v)
    case ByValue(sv) => ValidState(sv)
    case StructArg(sv) => ValidState(sv)
    case _ => true
  }

  /** The caller's object an argument borrows, if any. */
  function Borrowee(p: Passed): Option<nat> {
    match p
    case PassString(h) => Some(h)
    case PassBytes(h) => Some(h)
    case PassBorrow(h, _) => Some(h)
    case _ => None
  }

  /** The caller's object a push borrows, if any. */
  function BorrowedBy(input: Input): Option<nat> {
    match input
    case MutString(h) => Some(h)
    case MutBytes(h) => Some(h)
    case MutPrim(h, _) => Some(h)
    case MutStruct(_, h) => Some(h)
    case _ => None
  }

  /** What the callee must receive for an input under a declared type; None when the push must fail. */
  function Meaning(env: Env, coerce: bool, d: ArgType, input: Input): Option<Passed>
    requires WfType(d)
    requires WfInput(input)
  {
    match input
    case Prim(v) => NumberMeaning(env, coerce, d, v)
    case Value(v) => ValueMeaning(env, coerce, d, v)
    case Text(bytes) => TextMeaning(env, coerce, d, bytes)
    case ByValue(sv) =>
      if d.Struct? && SameLayout(d.layout, sv.layout) && sv.next == |sv.layout.fields| then Some(PassStruct(sv.bytes))
      else None
    case StructArg(sv) => if d.Struct? then Some(PassStruct(sv.bytes)) else None
    case MutString(h) => if d.OCString? || d.OByteBuffer? then Some(PassString(h)) else None
    case MutBytes(h) => if d.OByteBuffer? then Some(PassBytes(h)) else None
    case MutPrim(h, size) => Some(PassBorrow(h, size))
    case MutStruct(layout, h) =>
      if d.Pointer? && d.target.Struct? && SameLayout(d.target.layout, layout) then Some(PassBorrow(h, layout.size))
      else None
    case Script(v) => ScriptMeaning(env, coerce, d, v)
    case ScriptStruct(vals) => ScriptStructMeaning(env, d, vals)
  }

  // -- reading outputs back -------------------------------------------------------------------------------------------

  function KindSize(kind: OutKind): nat {
    match kind
    case OutInt(ty) => Width(ty)
    case OutF32 => 4
    case OutF64 | OutPtr => 8
    case OutText => 0
  }

  /** `to_script_val`. */
  function OutValue(env: Env, kind: OutKind, o: Obj): ScriptVal
    requires o.used <= |o.data|
    requires kind != OutText ==> |o.data| == KindSize(kind)
  {
    Pow256Small(if kind.OutInt? || kind.OutText? then 1 else KindSize(kind));
    match kind
    case OutInt(ty) => Integer(Wrap(I64, DecodeInt(ty, o.data)))
    case OutF32 => Number(env.fl.widen(Decode(o.data)))
    case OutF64 => Number(Decode(o.data))
    case OutPtr => FromPointer(Decode(o.data))
    case OutText => Str(o.data[..o.used])
  }

  // -- properties of the table ------------------------------------------------------------------------------

  /** What is passed is of a kind the declared type admits. */
  ghost predicate KindFits(d: ArgType, p: Passed) {
    match p
    case PassNum(v) => Matches(d, v) && IsNumber(v)
    case PassRaw(_) => PointerLike(d)
    case PassText(_) => d.CString? || d.OCString?
    case PassStruct(_) => d.Struct?
    case PassString(_) => d.OCString? || d.OByteBuffer?
    case PassBytes(_) => d.OByteBuffer?
    case PassBorrow(_, _) => true
    case PassOutText(_) => d.OCString?
    case PassOut(kind, bytes) =>
      && d.Pointer? && IsScalar(d.target) && kind != OutText
      && SizeOf(d.target) == |bytes| == KindSize(kind)
    case PassOutStruct(layout, bytes) =>
      d.Pointer? && d.target == Struct(layout) && Spaced(layout) && |bytes| == layout.size
  }

  ghost predicate ShapedIfAny(d: ArgType, p: Option<Passed>) {
    p.Some? ==> KindFits(d, p.value)
  }

  lemma CoercedIsShaped(env: Env, d: ArgType, n: int, bits: u64)
    ensures ShapedIfAny(d, CoerceInt(env, d, n)) && ShapedIfAny(d, CoerceFloat(env, d, bits))
  {
    hide Wrap, Clamp, DecimalBytes;
  }

  lemma NumberIsShaped(env: Env, coerce: bool, d: ArgType, v: ArgVal)
    requires IsNumber(v)
    ensures ShapedIfAny(d, NumberMeaning(env, coerce, d, v))
  {
    CoercedIsShaped(env, d, if v.IntVal? then v.n else 0,
      if v.F32Val? then env.fl.widen(v.bits32) else if v.F64Val? then v.bits64 else 0);
    hide CoerceInt, CoerceFloat;
  }

  lemma ValueIsShaped(env: Env, coerce: bool, d: ArgType, v: ArgVal)
    ensures ShapedIfAny(d, ValueMeaning(env, coerce, d, v))
  {
    if IsNumber(v) {
      NumberIsShaped(env, coerce, d, v);
    }
    hide NumberMeaning, Wrap;
  }

  lemma TextIsShaped(env: Env, coerce: bool, d: ArgType, bytes: seq<byte>)
    ensures ShapedIfAny(d, TextMeaning(env, coerce, d, bytes))
  {
    hide CoerceInt, CoerceFloat, Trim, ParseIntFor;
    forall n: int
      ensures ShapedIfAny(d, CoerceInt(env, d, n))
    {
      CoercedIsShaped(env, d, n, 0);
    }
    forall bits: u64
      ensures ShapedIfAny(d, CoerceFloat(env, d, bits))
    {
      CoercedIsShaped(env, d, 0, bits);
    }
  }

  lemma OutInitIsShaped(env: Env, target: ArgType, v: ScriptVal)
    ensures ShapedIfAny(Pointer(target), OutInit(env, target, v))
  {
    hide Encode, EncodeInt, ScriptInt, ScriptFloat;
  }

  lemma ScriptIsShaped(env: Env, coerce: bool, d: ArgType, v: ScriptVal)
    ensures ShapedIfAny(d, ScriptMeaning(env, coerce, d, v))
  {
    CoercedIsShaped(env, d, if v.Integer? then v.n else 0, if v.Number? then v.bits else 0);
    TextIsShaped(env, coerce, d, if v.Str? then v.text else []);
    if d.Pointer? {
      OutInitIsShaped(env, d.target, v);
    }
    hide CoerceInt, CoerceFloat, TextMeaning, OutInit, Wrap, Clamp;
  }

  lemma ScriptStructIsShaped(env: Env, d: ArgType, vals: seq<ScriptVal>)
    requires WfType(d)
    ensures ShapedIfAny(d, ScriptStructMeaning(env, d, vals))
  {
    hide Spaced, WfStruct, FromScriptVals;
    if d.Pointer? && d.target.Struct? {
      ScriptStructPointer(env, d.target.layout, vals);
    }
  }

  lemma ScriptStructPointer(env: Env, st: StructType, vals: seq<ScriptVal>)
    requires WfType(Pointer(Struct(st)))
    ensures ShapedIfAny(Pointer(Struct(st)), ScriptStructMeaning(env, Pointer(Struct(st)), vals))
  {
    assert WfType(Struct(st));
    WfIsSpaced(st);
    hide Spaced, WfStruct, FromScriptVals;
  }

  lemma MeaningIsShaped(env: Env, coerce: bool, d: ArgType, input: Input)
    requires WfType(d) && WfInput(input)
    ensures ShapedIfAny(d, Meaning(env, coerce, d, input))
  {
    match input {
      case Prim(v) => NumberIsShaped(env, coerce, d, v);
      case Value(v) => ValueIsShaped(env, coerce, d, v);
      case Text(bytes) => TextIsShaped(env, coerce, d, bytes);
      case Script(v) => ScriptIsShaped(env, coerce, d, v);
      case ScriptStruct(vals) => ScriptStructIsShaped(env, d, vals);
      case _ =>
    }
  }

  /** Numbers, addresses and texts. */
  predicate IsPlain(p: Option<Passed>) {
    p.Some? ==> p.value.PassNum? || p.value.PassRaw? || p.value.PassText?
  }

  lemma CoercedKinds(env: Env, d: ArgType, n: int, bits: u64)
    ensures IsPlain(CoerceInt(env, d, n)) && IsPlain(CoerceFloat(env, d, bits))
  {
    hide Wrap, Clamp, DecimalBytes;
  }

  lemma TextKinds(env: Env, coerce: bool, d: ArgType, bytes: seq<byte>)
    ensures IsPlain(TextMeaning(env, coerce, d, bytes))
  {
    hide CoerceInt, CoerceFloat, Trim, ParseIntFor;
    forall n: int
      ensures IsPlain(CoerceInt(env, d, n))
    {
      CoercedKinds(env, d, n, 0);
    }
    forall b: u64
      ensures IsPlain(CoerceFloat(env, d, b))
    {
      CoercedKinds(env, d, 0, b);
    }
  }

  lemma PlainInputs(env: Env, coerce: bool, d: ArgType, input: Input)
    requires input.Prim? || input.Value? || input.Text?
    requires WfType(d) && WfInput(input)
    ensures IsPlain(Meaning(env, coerce, d, input))
  {
    var v := if input.Text? then NoVal else input.v;
    CoercedKinds(env, d, if v.IntVal? then v.n else 0,
      if v.F32Val? then env.fl.widen(v.bits32) else if v.F64Val? then v.bits64 else 0);
    if input.Text? {
      TextKinds(env, coerce, d, input.bytes);
    }
    hide CoerceInt, CoerceFloat, TextMeaning, Wrap;
  }

  /** What is passed fits the declared type: a struct by value to the byte, and a borrowed variable only
      where an address is declared. */
  ghost predicate WellShaped(d: ArgType, p: Passed) {
    && KindFits(d, p)
    && (p.PassStruct? ==> |p.bytes| == d.layout.size)
    && (p.PassBorrow? ==> PointerLike(d))
  }

  /** A dynamic value that is a struct, of which only the kind is compared. */
  predicate IsOtherStruct(d: ArgType, input: Input) {
    input.StructArg? && d.Struct? && input.sv.layout.size != d.layout.size
  }

  /** A borrowed primitive, for which the declared type is never looked at. */
  predicate IsStrayVariable(d: ArgType, input: Input) {
    input.MutPrim? && !PointerLike(d)
  }

  lemma StructsAreSized(env: Env, coerce: bool, d: ArgType, input: Input)
    requires WfType(d) && WfInput(input)
    ensures var p := Meaning(env, coerce, d, input);
      p.Some? && p.value.PassStruct? ==>
        && d.Struct?
        && (|p.value.bytes| == d.layout.size <==> !(input.StructArg? && input.sv.layout.size != d.layout.size))
  {
    match input {
      case Prim(v) => NumberIsShaped(env, coerce, d, v);
      case Value(v) => PlainInputs(env, coerce, d, input);
      case Text(bytes) => PlainInputs(env, coerce, d, input);
      case Script(v) => ScriptIsNoStruct(env, coerce, d, v);
      case _ =>
    }
    hide NumberMeaning, ValueMeaning, TextMeaning, ScriptMeaning, FromScriptVals, Spaced, WfStruct;
  }

  lemma ScriptIsNoStruct(env: Env, coerce: bool, d: ArgType, v: ScriptVal)
    ensures var p := ScriptMeaning(env, coerce, d, v); p.Some? ==> !p.value.PassStruct?
  {
    ScriptIsShaped(env, coerce, d, v);
    hide CoerceInt, CoerceFloat, TextMeaning, OutInit;
  }

  lemma ScriptStructCases(env: Env, coerce: bool, d: ArgType, vals: seq<ScriptVal>)
    requires WfType(d)
    ensures Meaning(env, coerce, d, ScriptStruct(vals)) == ScriptStructMeaning(env, d, vals)
  {
    hide ScriptStructMeaning, WfType;
  }

  lemma NoStructMeaning(env: Env, d: ArgType, vals: seq<ScriptVal>)
    requires WfType(d) && !d.Struct? && !(d.Pointer? && d.target.Struct?)
    ensures ScriptStructMeaning(env, d, vals) == None
  {
    hide WfType, Spaced, FromScriptVals;
  }

  lemma ScriptStructByAddressCases(env: Env, st: StructType, fields: seq<ScriptVal>)
    requires WfType(Pointer(Struct(st)))
    ensures Spaced(st)
    ensures match FromScriptVals(env.fl, st, fields)
      case None => ScriptStructMeaning(env, Pointer(Struct(st)), fields) == None
      case Some(sv) =>
        && ValidState(sv) && sv.layout == st
        && ScriptStructMeaning(env, Pointer(Struct(st)), fields) == Some(PassOutStruct(st, sv.bytes))
  {
    assert WfType(Struct(st));
    WfIsSpaced(st);
    hide Spaced, FromScriptVals, WfStruct;
  }

  /** Type preservation: whatever the input, what is passed fits the declared type exactly when it is
      neither a dynamic value holding a struct of another size nor a variable for a type that is no
      address. */
  lemma MeaningIsWellShaped(env: Env, coerce: bool, d: ArgType, input: Input)
    requires WfType(d) && WfInput(input)
    ensures var p := Meaning(env, coerce, d, input);
      p.Some? ==> (WellShaped(d, p.value) <==> !IsOtherStruct(d, input) && !IsStrayVariable(d, input))
  {
    MeaningIsShaped(env, coerce, d, input);
    StructsAreSized(env, coerce, d, input);
    VariablesAreBorrowed(env, coerce, d, input);
    if input.StructArg? && d.Struct? {
      assert Meaning(env, coerce, d, input).value.PassStruct?;
    }
    hide Meaning;
  }

  lemma StructsStayStructs(env: Env, coerce: bool, d: ArgType, input: Input)
    requires WfType(d) && WfInput(input) && input.StructArg? && Meaning(env, coerce, d, input).Some?
    ensures d.Struct? && Meaning(env, coerce, d, input).value == PassStruct(input.sv.bytes)
  {
  }

  /** Variables are borrowed by the two pushes that say so; a struct only where its address is declared. */
  lemma VariablesAreBorrowed(env: Env, coerce: bool, d: ArgType, input: Input)
    requires WfType(d) && WfInput(input)
    ensures var p := Meaning(env, coerce, d, input);
      p.Some? ==> (p.value.PassBorrow? <==> input.MutPrim? || input.MutStruct?) && (input.MutStruct? ==> PointerLike(d))
  {
    MeaningBorrows(env, coerce, d, input);
    hide NumberMeaning, ValueMeaning, TextMeaning, ScriptMeaning, ScriptStructMeaning, SameLayout, WfType;
  }

  /** A push borrows what its input says and nothing else. */
  lemma MeaningBorrows(env: Env, coerce: bool, d: ArgType, input: Input)
    requires WfType(d) && WfInput(input)
    ensures var p := Meaning(env, coerce, d, input);
      p.Some? ==> Borrowee(p.value) == BorrowedBy(input)
  {
    MeaningIsShaped(env, coerce, d, input);
    if input.Prim? || input.Value? || input.Text? {
      PlainInputs(env, coerce, d, input);
    }
    if input.Script? {
      ScriptBorrowsNothing(env, coerce, d, input.val);
    }
    hide NumberMeaning, ValueMeaning, TextMeaning, ScriptMeaning, FromScriptVals, Spaced, WfStruct;
  }

  lemma ScriptBorrowsNothing(env: Env, coerce: bool, d: ArgType, v: ScriptVal)
    ensures var p := ScriptMeaning(env, coerce, d, v); p.Some? ==> Borrowee(p.value).None?
  {
    CoercedKinds(env, d, if v.Integer? then v.n else 0, if v.Number? then v.bits else 0);
    if v.Str? {
      TextKinds(env, coerce, d, v.text);
    }
    hide CoerceInt, CoerceFloat, TextMeaning, Encode, EncodeInt;
  }

  /** Only a variable passed by address can stand for an integer argument as anything but that integer. */
  lemma IntegersArriveAsIntegers(env: Env, coerce: bool, ty: IntType, input: Input)
    requires WfInput(input)
    ensures var p := Meaning(env, coerce, Int(ty), input);
      p.Some? ==>
        if input.MutPrim? then p.value == PassBorrow(input.obj, input.size)
        else p.value.PassNum? && p.value.v.IntVal? && p.value.v.ty == ty
  {
    MeaningIsShaped(env, coerce, Int(ty), input);
    hide NumberMeaning, ValueMeaning, TextMeaning, ScriptMeaning;
  }

  /**
   The three ways an integer can reach an integer slot agree: as a scalar argument, as the initial
   value of an output variable read back, and as a struct field written and read.
   */
  lemma CoercionPathsAgree(env: Env, coerce: bool, ty: IntType, n: i64)
    ensures ScriptMeaning(env, coerce, Int(ty), Integer(n)) == Some(PassNum(IntVal(ty, Wrap(ty, n))))
    ensures CoerceInt(env, Int(ty), n) == Some(PassNum(IntVal(ty, Wrap(ty, n))))
    ensures var out := ScriptMeaning(env, coerce, Pointer(Int(ty)), Integer(n));
      && out.Some? && out.value.PassOut? && out.value.kind == OutInt(ty)
      && |out.value.bytes| == Width(ty)
      && OutValue(env, OutInt(ty), Obj(0, out.value.bytes, Width(ty))) == Integer(Wrap(I64, Wrap(ty, n)))
    ensures var field := FieldBytes(env.fl, Int(ty), ScriptPush(Integer(n)));
      && field.Some?
      && FieldValue(env.fl, env.follow, Int(ty), field.value) == Integer(Wrap(I64, Wrap(ty, n)))
  {
    I64WrapsToItself(Integer(n));
    IntRoundTrip(ty, n);
    FieldEcho(env.fl, env.follow, Int(ty), Integer(n));
    hide Wrap, Decode, Encode, FieldBytes, FieldValue;
  }

  /** The environment decodes plain ASCII as itself. */
  ghost predicate DecodesAscii(env: Env) {
    forall s: string :: (forall i :: 0 <= i < |s| ==> s[i] as int < 0x80) ==> env.decode(AsciiBytes(s)) == Some(s)
  }

  /** Formatting an integer into a text slot and parsing that text into an `i64` slot gives its 64-bit
      value: the integer itself exactly when it fits in an `i64`. */
  lemma DecimalTextRoundTrip(env: Env, n: int)
    requires DecodesAscii(env)
    ensures CoerceInt(env, CString, n).Some? && CoerceInt(env, CString, n).value.PassText?
    ensures CoerceText(env, Int(I64), CoerceInt(env, CString, n).value.bytes)
      == Some(PassNum(IntVal(I64, Wrap(I64, n))))
    ensures Wrap(I64, n) == n <==> InRange(I64, n)
  {
    hide Wrap, IntText, NatText, ParseSigned, Trim, DecimalBytes;
    var m := Wrap(I64, n);
    DecimalIsDecoded(env, m);
    IntTextIsTrimmed(m);
    ParseSignedOfText(m);
    I64WrapsToItself(Integer(m));
    FitsIfUnchanged(n);
  }

  lemma DecimalIsDecoded(env: Env, n: int)
    requires DecodesAscii(env)
    ensures env.decode(DecimalBytes(n)) == Some(IntText(n))
  {
    assert AllDigits(NatText(if n < 0 then -n else n));
  }

  lemma FitsIfUnchanged(n: int)
    ensures Wrap(I64, n) == n <==> InRange(I64, n)
  {
  }

  /** A byte slot takes the first character of a text, not its number: among the decimal texts of
      0..255 the documented value comes out for 53 alone. */
  lemma ByteSlotTakesFirstCharacter(env: Env, n: byte)
    ensures CoerceText(env, Int(Char), DecimalBytes(n)) == Some(PassNum(IntVal(Char, n))) <==> n == 53
  {
    FirstDigit(n);
    hide NatText;
  }

  lemma FirstDigit(n: byte)
    ensures NatText(n)[0] as int == 48 + (if n < 10 then n else if n < 100 then n / 10 else n / 100)
  {
    if n >= 10 {
      assert NatText(n)[0] == NatText(n / 10)[0];
      if n >= 100 {
        assert NatText(n / 10)[0] == NatText(n / 100)[0];
      }
    }
  }
}
