/**
 Struct values (`StructValue`): a byte image written one field at a time at the laid-out offsets,
 and read back field by field. Encodings are little-endian two's complement.
 */
module StructBytes {
  import opened Wrappers
  import opened Numbers
  import opened Types
  import opened Layout

  // -- one field ----------------------------------------------------------------------------------------

  /** The argument of one `push_field` (exact) or `push_field_coerced` call. */
  datatype FieldPush =
    | ExactInt(ty: IntType, n: int)
    | ExactF32(bits32: u32)
    | ExactF64(bits64: u64)
    | ExactPointer(address: u64)
    | CoercedInt(n: int)
    | CoercedF32(bits32: u32)
    | CoercedF64(bits64: u64)

  /** `write_i64_into_any_numeric`: pointer and text fields are not numeric. */
  function NumericBytes(fl: FloatOps, t: ArgType, n: i64): (r: Option<seq<byte>>)
    ensures r.Some? ==> IsScalar(t) && |r.value| == SizeOf(t)
  {
    match t
    case Int(ty) => Some(EncodeInt(ty, n))
    case F32 => Some(Encode(fl.intToF32(n), 4))
    case F64 => Some(Encode(fl.intToF64(n), 8))
    case _ => None
  }

  /** The bytes a push leaves in a field of type `t`, or None when the field rejects it. */
  function FieldBytes(fl: FloatOps, t: ArgType, p: FieldPush): (r: Option<seq<byte>>)
    ensures r.Some? ==> IsScalar(t) && |r.value| == SizeOf(t)
  {
    match p
    case ExactInt(ty, n) => if t == Int(ty) then Some(EncodeInt(ty, n)) else None
    case ExactF32(b) => if t.F32? then Some(Encode(b, 4)) else None
    case ExactF64(b) => if t.F64? then Some(Encode(b, 8)) else None
    case ExactPointer(a) => if t.OpaquePointer? || t.CString? then Some(Encode(a, 8)) else None
    case CoercedInt(n) => NumericBytes(fl, t, Wrap(I64, n))
    case CoercedF32(b) => NumericBytes(fl, t, Clamp(I64, fl.trunc(fl.widen(b))))
    case CoercedF64(b) =>
      if t.F64? then Some(Encode(b, 8))
      else if t.F32? then Some(Encode(fl.narrow(b), 4))
      else NumericBytes(fl, t, Clamp(I64, fl.trunc(b)))
  }

  /** `script_read` of one field's bytes; `follow` stands for the text a non-null `char *` leads to. */
  function FieldValue(fl: FloatOps, follow: u64 -> seq<byte>, t: ArgType, bs: seq<byte>): ScriptVal
    requires IsScalar(t) && |bs| == SizeOf(t)
  {
    Pow256Small(|bs|);
    match t
    case Int(ty) => Integer(Wrap(I64, DecodeInt(ty, bs)))
    case F32 => Number(fl.widen(Decode(bs)))
    case F64 => Number(Decode(bs))
    case CString => if Decode(bs) == 0 then Null else Str(follow(Decode(bs)))
    case OpaquePointer => FromPointer(Decode(bs))
  }

  lemma Pow256Small(w: nat)
    requires IsUnit(w)
    ensures w == 4 ==> Pow256(w) == 0x1_0000_0000
    ensures w == 8 ==> Pow256(w) == 0x1_0000_0000_0000_0000
  {
    ModulusIsPow256(I32);
    ModulusIsPow256(I64);
  }

  // -- the byte image -----------------------------------------------------------------------------------

  datatype StructState = StructState(layout: StructType, bytes: seq<byte>, next: nat)

  function Zeros(n: nat): (bs: seq<byte>)
    ensures |bs| == n
  {
    seq(n, _ => 0)
  }

  function Fresh(layout: StructType): StructState {
    StructState(layout, Zeros(layout.size), 0)
  }

  function Overwrite(bytes: seq<byte>, start: nat, part: seq<byte>): (r: seq<byte>)
    requires start + |part| <= |bytes|
    ensures |r| == |bytes|
    ensures forall b :: 0 <= b < |bytes| ==>
      r[b] == if start <= b < start + |part| then part[b - start] else bytes[b]
  {
    bytes[..start] + part + bytes[start + |part|..]
  }

  /** What every layout of the source gives: scalar fields, in bounds, in order, apart. */
  ghost predicate Spaced(layout: StructType) {
    && (forall i :: 0 <= i < |layout.fields| ==>
      && IsScalar(layout.fields[i].argType)
      && layout.fields[i].size == SizeOf(layout.fields[i].argType)
      && layout.fields[i].offset + layout.fields[i].size <= layout.size)
    && (forall i, j :: 0 <= i < j < |layout.fields| ==>
      layout.fields[i].offset + layout.fields[i].size <= layout.fields[j].offset)
  }

  lemma WfIsSpaced(layout: StructType)
    requires WfStruct(layout)
    ensures Spaced(layout) && |layout.fields| > 0
  {
    hide AlignUp, Aligned, NewStruct, LayoutOf;
    LayoutIsSound(layout);
    forall i | 0 <= i < |layout.fields|
      ensures
        && IsScalar(layout.fields[i].argType)
        && layout.fields[i].size == SizeOf(layout.fields[i].argType)
        && layout.fields[i].offset + layout.fields[i].size <= layout.size
    {
      assert SoundField(layout, i);
    }
  }

  ghost predicate ValidState(st: StructState) {
    && Spaced(st.layout)
    && |st.bytes| == st.layout.size
    && st.next <= |st.layout.fields|
  }

  /** The bytes a push would write into the next field; None when it must fail. */
  function NextBytes(fl: FloatOps, st: StructState, p: FieldPush): Option<seq<byte>> {
    if st.next < |st.layout.fields| then FieldBytes(fl, st.layout.fields[st.next].argType, p) else None
  }

  /** The value after one push: a failed push changes nothing. */
  function Pushed(fl: FloatOps, st: StructState, p: FieldPush): (r: StructState)
    requires ValidState(st)
    ensures ValidState(r) && r.layout == st.layout
  {
    var part := NextBytes(fl, st, p);
    if part.None? then st
    else st.(bytes := Overwrite(st.bytes, st.layout.fields[st.next].offset, part.value), next := st.next + 1)
  }

  function FieldSlice(layout: StructType, bytes: seq<byte>, i: nat): (s: seq<byte>)
    requires Spaced(layout) && |bytes| == layout.size && i < |layout.fields|
    ensures |s| == SizeOf(layout.fields[i].argType)
  {
    bytes[layout.fields[i].offset..layout.fields[i].offset + layout.fields[i].size]
  }

  predicate InField(layout: StructType, i: nat, b: nat)
    requires i < |layout.fields|
  {
    layout.fields[i].offset <= b < layout.fields[i].offset + layout.fields[i].size
  }

  /** The first fields hold exactly `encoded`; every other byte, padding included, is zero. */
  ghost predicate IsImage(layout: StructType, encoded: seq<seq<byte>>, bytes: seq<byte>) {
    && Spaced(layout)
    && |bytes| == layout.size
    && |encoded| <= |layout.fields|
    && (forall i :: 0 <= i < |encoded| ==> FieldSlice(layout, bytes, i) == encoded[i])
    && (forall b :: 0 <= b < |bytes| && (forall i :: 0 <= i < |encoded| ==> !InField(layout, i, b)) ==> bytes[b] == 0)
  }

  lemma FreshIsImage(layout: StructType)
    requires Spaced(layout)
    ensures IsImage(layout, [], Fresh(layout).bytes)
  {
  }

  lemma PushExtendsImage(fl: FloatOps, st: StructState, p: FieldPush, encoded: seq<seq<byte>>)
    requires ValidState(st) && IsImage(st.layout, encoded, st.bytes) && st.next == |encoded|
    requires NextBytes(fl, st, p).Some?
    ensures IsImage(st.layout, encoded + [NextBytes(fl, st, p).value], Pushed(fl, st, p).bytes)
  {
    var layout, n := st.layout, st.next;
    var part, after := NextBytes(fl, st, p).value, Pushed(fl, st, p).bytes;
    var more := encoded + [part];
    forall i | 0 <= i < |more|
      ensures FieldSlice(layout, after, i) == more[i]
    {
      if i < n {
        assert layout.fields[i].offset + layout.fields[i].size <= layout.fields[n].offset;
        assert FieldSlice(layout, after, i) == FieldSlice(layout, st.bytes, i);
      }
    }
    forall b | 0 <= b < |after| && forall i :: 0 <= i < |more| ==> !InField(layout, i, b)
      ensures after[b] == 0
    {
      assert !InField(layout, n, b);
      assert forall i :: 0 <= i < |encoded| ==> !InField(layout, i, b);
    }
  }

  /** Fields never written hold zeros. */
  lemma UnpushedFieldIsZero(layout: StructType, encoded: seq<seq<byte>>, bytes: seq<byte>, i: nat)
    requires IsImage(layout, encoded, bytes) && |encoded| <= i < |layout.fields|
    ensures FieldSlice(layout, bytes, i) == Zeros(layout.fields[i].size)
  {
    var f := layout.fields[i];
    forall b | f.offset <= b < f.offset + f.size
      ensures bytes[b] == 0
    {
      forall j | 0 <= j < |encoded|
        ensures !InField(layout, j, b)
      {
        assert layout.fields[j].offset + layout.fields[j].size <= f.offset;
      }
    }
  }

  // -- whole runs -----------------------------------------------------------------------------------------

  datatype Op = Push(p: FieldPush) | Reset

  /** Any sequence of pushes, successful or not, and resets. */
  function Run(fl: FloatOps, st: StructState, ops: seq<Op>): (r: StructState)
    requires ValidState(st)
    ensures ValidState(r) && r.layout == st.layout
  {
    if ops == [] then st
    else
      var before := Run(fl, st, ops[..|ops| - 1]);
      match ops[|ops| - 1]
      case Push(p) => Pushed(fl, before, p)
      case Reset => Fresh(st.layout)
  }

  /** What was encoded for each field since the last reset, failed pushes left out. */
  function Log(fl: FloatOps, layout: StructType, ops: seq<Op>): seq<seq<byte>> {
    if ops == [] then []
    else
      var before := Log(fl, layout, ops[..|ops| - 1]);
      match ops[|ops| - 1]
      case Reset => []
      case Push(p) =>
        if |before| >= |layout.fields| then before
        else
          match FieldBytes(fl, layout.fields[|before|].argType, p)
          case None => before
          case Some(part) => before + [part]
  }

  /** After every run each pushed field holds what was encoded for it and all other bytes are zero. */
  lemma {:induction false} RunLeavesImage(fl: FloatOps, layout: StructType, ops: seq<Op>)
    requires Spaced(layout)
    ensures Run(fl, Fresh(layout), ops).next == |Log(fl, layout, ops)|
    ensures IsImage(layout, Log(fl, layout, ops), Run(fl, Fresh(layout), ops).bytes)
  {
    if ops == [] {
      FreshIsImage(layout);
    } else {
      RunLeavesImage(fl, layout, ops[..|ops| - 1]);
      var before := Run(fl, Fresh(layout), ops[..|ops| - 1]);
      match ops[|ops| - 1] {
        case Reset =>
          FreshIsImage(layout);
        case Push(p) =>
          if NextBytes(fl, before, p).Some? {
            PushExtendsImage(fl, before, p, Log(fl, layout, ops[..|ops| - 1]));
          }
      }
    }
  }

  // -- what the bytes stand for ---------------------------------------------------------------------------

  /** Exact pushes go into fields of their own type, a pointer into `ptr` and `cstr`; coerced ones into
      any number. */
  predicate Takes(t: ArgType, p: FieldPush) {
    match p
    case ExactInt(ty, _) => t == Int(ty)
    case ExactF32(_) => t == F32
    case ExactF64(_) => t == F64
    case ExactPointer(_) => t == OpaquePointer || t == CString
    case _ => t.Int? || t == F32 || t == F64
  }

  /** The bytes are those of a number as the field's type has it: wrapped, or the nearest float. */
  predicate HoldsNumber(fl: FloatOps, t: ArgType, bs: seq<byte>, n: i64) {
    match t
    case Int(ty) => DecodeInt(ty, bs) == Wrap(ty, n)
    case F32 => Decode(bs) == fl.intToF32(n)
    case F64 => Decode(bs) == fl.intToF64(n)
    case _ => false
  }

  /** What a field that took a push decodes to. A `f32` coerced into any field loses its fraction on the
      way through `i64`. */
  lemma FieldHolds(fl: FloatOps, t: ArgType, p: FieldPush)
    ensures FieldBytes(fl, t, p).Some? <==> Takes(t, p)
    ensures Takes(t, p) ==>
      var bs := FieldBytes(fl, t, p).value;
      match p
      case ExactInt(ty, n) => DecodeInt(ty, bs) == Wrap(ty, n)
      case ExactF32(b) => Decode(bs) == b
      case ExactF64(b) => Decode(bs) == b
      case ExactPointer(a) => Decode(bs) == a
      case CoercedInt(n) => HoldsNumber(fl, t, bs, Wrap(I64, n))
      case CoercedF32(b) => HoldsNumber(fl, t, bs, Clamp(I64, fl.trunc(fl.widen(b))))
      case CoercedF64(b) =>
        if t == F64 then Decode(bs) == b
        else if t == F32 then Decode(bs) == fl.narrow(b)
        else HoldsNumber(fl, t, bs, Clamp(I64, fl.trunc(b)))
  {
    hide Encode, Decode, Wrap, Clamp, Pow256, DecodeInt, EncodeInt;
    Pow256Small(4);
    Pow256Small(8);
    match p {
      case ExactInt(ty, n) => IntRoundTrip(ty, n);
      case ExactF32(b) => DecodeEncode(b, 4);
      case ExactF64(b) => DecodeEncode(b, 8);
      case ExactPointer(a) => DecodeEncode(a, 8);
      case CoercedInt(n) => NumberHolds(fl, t, Wrap(I64, n));
      case CoercedF32(b) => NumberHolds(fl, t, Clamp(I64, fl.trunc(fl.widen(b))));
      case CoercedF64(b) =>
        NumberHolds(fl, t, Clamp(I64, fl.trunc(b)));
        DecodeEncode(b, 8);
        DecodeEncode(fl.narrow(b), 4);
    }
  }

  lemma NumberHolds(fl: FloatOps, t: ArgType, n: i64)
    ensures NumericBytes(fl, t, n).Some? <==> t.Int? || t == F32 || t == F64
    ensures NumericBytes(fl, t, n).Some? ==> HoldsNumber(fl, t, NumericBytes(fl, t, n).value, n)
  {
    hide Encode, Decode, Wrap, Pow256, DecodeInt, EncodeInt;
    Pow256Small(4);
    Pow256Small(8);
    match t {
      case Int(ty) => IntRoundTrip(ty, n);
      case F32 => DecodeEncode(fl.intToF32(n), 4);
      case F64 => DecodeEncode(fl.intToF64(n), 8);
      case _ =>
    }
  }

  /** A script value is what the bytes of a `t` stand for: an integer in the range of its type (`u64`: of
      `i64`) congruent to them, a float, the text they lead to, an address or null. */
  predicate ReadsAs(fl: FloatOps, follow: u64 -> seq<byte>, t: ArgType, bs: seq<byte>, v: ScriptVal) {
    match v
    case Integer(n) =>
      t.Int? && InRange(if t.ty == U64 then I64 else t.ty, n) && (n - Decode(bs)) % Modulus(t.ty) == 0
    case Number(b) =>
      || (t == F32 && Decode(bs) < 0x1_0000_0000 && b == fl.widen(Decode(bs)))
      || (t == F64 && b == Decode(bs))
    case Str(text) =>
      t == CString && 0 < Decode(bs) < 0x1_0000_0000_0000_0000 && text == follow(Decode(bs))
    case Address(a) => t == OpaquePointer && Decode(bs) != 0 && a == Decode(bs)
    case Null => (t == CString || t == OpaquePointer) && Decode(bs) == 0
    case Nil => false
  }

  lemma FieldReads(fl: FloatOps, follow: u64 -> seq<byte>, t: ArgType, bs: seq<byte>)
    requires IsScalar(t) && |bs| == SizeOf(t)
    ensures ReadsAs(fl, follow, t, bs, FieldValue(fl, follow, t, bs))
  {
    hide Decode, Wrap, Pow256;
    Pow256Small(4);
    Pow256Small(8);
    Pow256Bound(t);
    if t.Int? {
      ShownIsRepresentative(t.ty, Decode(bs));
    }
  }

  lemma Pow256Bound(t: ArgType)
    requires IsScalar(t)
    ensures Pow256(SizeOf(t)) <= 0x1_0000_0000_0000_0000
  {
    Pow256Small(4);
    Pow256Small(8);
    ModulusIsPow256(Char);
    ModulusIsPow256(I16);
  }

  /** Shown as an `i64`, a number read as `ty` is still congruent to its bytes, and in the range of `ty`
      unless that is `u64`. */
  lemma ShownIsRepresentative(ty: IntType, n: nat)
    ensures var shown := Wrap(I64, Wrap(ty, n));
      InRange(if ty == U64 then I64 else ty, shown) && (shown - n) % Modulus(ty) == 0
  {
    WrapIsTheRepresentative(ty, n, Wrap(ty, n));
    if ty == U64 {
      WrapIsTheRepresentative(I64, Wrap(U64, n), Wrap(I64, Wrap(U64, n)));
      WrapThrough64(I64, n);
      WrapIsTheRepresentative(I64, n, Wrap(I64, n));
    } else {
      I64WrapsToItself(Integer(Wrap(ty, n)));
    }
    hide Wrap;
  }

  /** The pushes a struct has taken since the last reset. */
  function Taken(layout: StructType, ops: seq<Op>): (r: seq<FieldPush>)
    ensures |r| <= |layout.fields|
    ensures forall i :: 0 <= i < |r| ==> Takes(layout.fields[i].argType, r[i])
  {
    if ops == [] then []
    else
      var before := Taken(layout, ops[..|ops| - 1]);
      match ops[|ops| - 1]
      case Reset => []
      case Push(p) =>
        if |before| < |layout.fields| && Takes(layout.fields[|before|].argType, p) then before + [p] else before
  }

  lemma {:induction false} LogIsTaken(fl: FloatOps, layout: StructType, ops: seq<Op>)
    ensures |Log(fl, layout, ops)| == |Taken(layout, ops)|
    ensures forall i :: 0 <= i < |Taken(layout, ops)| ==>
      FieldBytes(fl, layout.fields[i].argType, Taken(layout, ops)[i]) == Some(Log(fl, layout, ops)[i])
  {
    hide FieldBytes, Takes;
    if ops != [] {
      LogIsTaken(fl, layout, ops[..|ops| - 1]);
      var n := |Taken(layout, ops[..|ops| - 1])|;
      if ops[|ops| - 1].Push? && n < |layout.fields| {
        FieldHolds(fl, layout.fields[n].argType, ops[|ops| - 1].p);
      }
    }
  }

  /** After any run the next push goes to the field after those taken, and each of these decodes to what
      was pushed: an exact number or address to the very value. */
  lemma RunHolds(fl: FloatOps, layout: StructType, ops: seq<Op>, i: nat)
    requires Spaced(layout) && i < |Taken(layout, ops)|
    ensures Run(fl, Fresh(layout), ops).next == |Taken(layout, ops)|
    ensures var slice := FieldSlice(layout, Run(fl, Fresh(layout), ops).bytes, i);
      && (match Taken(layout, ops)[i]
        case ExactInt(ty, n) => layout.fields[i].argType == Int(ty) && DecodeInt(ty, slice) == Wrap(ty, n)
        case ExactF32(b) => layout.fields[i].argType == F32 && Decode(slice) == b
        case ExactF64(b) => layout.fields[i].argType == F64 && Decode(slice) == b
        case ExactPointer(a) => Decode(slice) == a
        case CoercedInt(n) => HoldsNumber(fl, layout.fields[i].argType, slice, Wrap(I64, n))
        case CoercedF32(b) =>
          HoldsNumber(fl, layout.fields[i].argType, slice, Clamp(I64, fl.trunc(fl.widen(b))))
        case CoercedF64(b) =>
          if layout.fields[i].argType == F64 then Decode(slice) == b
          else if layout.fields[i].argType == F32 then Decode(slice) == fl.narrow(b)
          else HoldsNumber(fl, layout.fields[i].argType, slice, Clamp(I64, fl.trunc(b))))
  {
    RunLeavesImage(fl, layout, ops);
    LogIsTaken(fl, layout, ops);
    FieldHolds(fl, layout.fields[i].argType, Taken(layout, ops)[i]);
    hide FieldBytes, Run, Log, DecodeInt, Decode, Spaced, Taken, HoldsNumber, Wrap, Clamp;
  }

  // -- the scripted round trip -----------------------------------------------------------------------------

  /** How `from_script_vals` pushes one value. A string becomes a zero. */
  function ScriptPush(v: ScriptVal): FieldPush {
    match v
    case Number(b) => CoercedF64(b)
    case Integer(n) => CoercedInt(n)
    case Str(_) => CoercedF64(0)
    case Address(p) => ExactPointer(p)
    case Nil => CoercedInt(0)
    case Null => ExactPointer(0)
  }

  /** Addresses and null go into address fields, everything else into numbers. */
  predicate ScriptTakes(t: ArgType, v: ScriptVal) {
    if v.Address? || v.Null? then t == OpaquePointer || t == CString else t.Int? || t == F32 || t == F64
  }

  /** What a script value leaves in a field: text and nothing count as zero. */
  lemma ScriptFieldHolds(fl: FloatOps, t: ArgType, v: ScriptVal)
    ensures FieldBytes(fl, t, ScriptPush(v)).Some? <==> ScriptTakes(t, v)
    ensures ScriptTakes(t, v) ==>
      var bs := FieldBytes(fl, t, ScriptPush(v)).value;
      match v
      case Integer(n) => HoldsNumber(fl, t, bs, n)
      case Nil => HoldsNumber(fl, t, bs, 0)
      case Address(a) => Decode(bs) == a
      case Null => Decode(bs) == 0
      case Number(b) =>
        if t == F64 then Decode(bs) == b
        else if t == F32 then Decode(bs) == fl.narrow(b)
        else HoldsNumber(fl, t, bs, Clamp(I64, fl.trunc(b)))
      case Str(_) =>
        if t == F64 then Decode(bs) == 0
        else if t == F32 then Decode(bs) == fl.narrow(0)
        else HoldsNumber(fl, t, bs, Clamp(I64, fl.trunc(0)))
  {
    FieldHolds(fl, t, ScriptPush(v));
    I64WrapsToItself(v);
    hide FieldBytes, HoldsNumber, Wrap, Clamp, Decode;
  }

  /** How the adapter guide's rebuild recipe pushes one value: addresses go through the numeric path. */
  function GuidePush(v: ScriptVal): FieldPush {
    if v.Address? then CoercedInt(v.bits) else ScriptPush(v)
  }

  predicate AllAccepted(fl: FloatOps, layout: StructType, ps: seq<FieldPush>) {
    && |ps| <= |layout.fields|
    && forall i :: 0 <= i < |ps| ==> FieldBytes(fl, layout.fields[i].argType, ps[i]).Some?
  }

  function EncodeAll(fl: FloatOps, layout: StructType, ps: seq<FieldPush>): (r: seq<seq<byte>>)
    requires AllAccepted(fl, layout, ps)
    ensures |r| == |ps|
  {
    seq(|ps|, i requires 0 <= i < |ps| => FieldBytes(fl, layout.fields[i].argType, ps[i]).value)
  }

  /** Push values one after the other, stopping at the first that is rejected. */
  function PushAll(fl: FloatOps, st: StructState, ps: seq<FieldPush>): (r: Option<StructState>)
    requires ValidState(st)
    ensures r.Some? ==> ValidState(r.value) && r.value.layout == st.layout
  {
    if ps == [] then Some(st)
    else
      match PushAll(fl, st, ps[..|ps| - 1])
      case None => None
      case Some(before) =>
        if NextBytes(fl, before, ps[|ps| - 1]).None? then None else Some(Pushed(fl, before, ps[|ps| - 1]))
  }

  /** A list of pushes goes through exactly when every field accepts its own, and leaves their image. */
  lemma {:induction false} PushAllImage(fl: FloatOps, layout: StructType, ps: seq<FieldPush>)
    requires Spaced(layout)
    ensures PushAll(fl, Fresh(layout), ps).Some? <==> AllAccepted(fl, layout, ps)
    ensures AllAccepted(fl, layout, ps) ==>
      && PushAll(fl, Fresh(layout), ps).value.next == |ps|
      && IsImage(layout, EncodeAll(fl, layout, ps), PushAll(fl, Fresh(layout), ps).value.bytes)
  {
    hide FieldBytes, Overwrite, IsImage, Spaced;
    if ps == [] {
      FreshIsImage(layout);
    } else {
      var front, last := ps[..|ps| - 1], ps[|ps| - 1];
      PushAllImage(fl, layout, front);
      AcceptedSplit(fl, layout, ps);
      if AllAccepted(fl, layout, ps) {
        PushExtendsImage(fl, PushAll(fl, Fresh(layout), front).value, last, EncodeAll(fl, layout, front));
      }
    }
  }

  lemma AcceptedSplit(fl: FloatOps, layout: StructType, ps: seq<FieldPush>)
    requires ps != []
    ensures AllAccepted(fl, layout, ps) <==>
      && AllAccepted(fl, layout, ps[..|ps| - 1])
      && |ps| <= |layout.fields|
      && FieldBytes(fl, layout.fields[|ps| - 1].argType, ps[|ps| - 1]).Some?
    ensures AllAccepted(fl, layout, ps) ==>
      EncodeAll(fl, layout, ps) == EncodeAll(fl, layout, ps[..|ps| - 1])
        + [FieldBytes(fl, layout.fields[|ps| - 1].argType, ps[|ps| - 1]).value]
  {
    hide FieldBytes;
    assert ps == ps[..|ps| - 1] + [ps[|ps| - 1]];
  }

  function ScriptPushes(vals: seq<ScriptVal>): seq<FieldPush> {
    seq(|vals|, i requires 0 <= i < |vals| => ScriptPush(vals[i]))
  }

  function GuidePushes(vals: seq<ScriptVal>): seq<FieldPush> {
    seq(|vals|, i requires 0 <= i < |vals| => GuidePush(vals[i]))
  }

  /** `from_script_vals` on a struct type. */
  function FromScriptVals(fl: FloatOps, layout: StructType, vals: seq<ScriptVal>): (r: Option<StructState>)
    requires Spaced(layout)
    ensures r.Some? ==> ValidState(r.value) && r.value.layout == layout
  {
    PushAll(fl, Fresh(layout), ScriptPushes(vals))
  }

  /** `script_read` of every field in order. */
  function ReadAll(fl: FloatOps, follow: u64 -> seq<byte>, layout: StructType, bytes: seq<byte>): seq<ScriptVal>
    requires Spaced(layout) && |bytes| == layout.size
  {
    seq(|layout.fields|, i requires 0 <= i < |layout.fields| =>
      FieldValue(fl, follow, layout.fields[i].argType, FieldSlice(layout, bytes, i)))
  }

  /** What one field holds after it was read and pushed back: itself, except that a 32-bit float
      has passed through a 64-bit one. */
  function Rewritten(fl: FloatOps, t: ArgType, bs: seq<byte>): seq<byte>
    requires IsScalar(t) && |bs| == SizeOf(t)
  {
    Pow256Small(|bs|);
    if t.F32? then Encode(fl.narrow(fl.widen(Decode(bs))), 4) else bs
  }

  lemma {:induction false} DecodeZeros(n: nat)
    ensures Decode(Zeros(n)) == 0
  {
    if n > 0 {
      DecodeZeros(n - 1);
      assert Zeros(n)[1..] == Zeros(n - 1);
    }
  }

  lemma FieldRebuild(fl: FloatOps, follow: u64 -> seq<byte>, t: ArgType, bs: seq<byte>)
    requires IsScalar(t) && |bs| == SizeOf(t)
    ensures var v := FieldValue(fl, follow, t, bs);
      && (FieldBytes(fl, t, ScriptPush(v)).Some? <==> !v.Str?)
      && (!v.Str? ==> FieldBytes(fl, t, ScriptPush(v)) == Some(Rewritten(fl, t, bs)))
      && (FieldBytes(fl, t, GuidePush(v)).Some? <==> !v.Str? && !v.Address?)
      && (!v.Str? && !v.Address? ==> FieldBytes(fl, t, GuidePush(v)) == Some(Rewritten(fl, t, bs)))
  {
    hide Encode, Decode, Pow256, DecodeInt, EncodeInt, Wrap;
    Pow256Small(|bs|);
    EncodeDecode(bs);
    if t.Int? {
      BytesRoundTrip(t.ty, bs);
      I64WrapsToItself(FieldValue(fl, follow, t, bs));
    }
  }

  /**
   Rebuild identity, for arbitrary bytes: reading every field and pushing the values back succeeds
   exactly when no text field holds a non-null pointer, and then restores every field and clears padding.
   */
  lemma RebuildIdentity(fl: FloatOps, follow: u64 -> seq<byte>, layout: StructType, bytes: seq<byte>)
    requires Spaced(layout) && |bytes| == layout.size
    ensures var rebuilt := FromScriptVals(fl, layout, ReadAll(fl, follow, layout, bytes));
      && (rebuilt.Some? <==> forall i :: 0 <= i < |layout.fields| && layout.fields[i].argType.CString? ==>
        Decode(FieldSlice(layout, bytes, i)) == 0)
      && (rebuilt.Some? ==> IsImage(layout,
        seq(|layout.fields|, i requires 0 <= i < |layout.fields| =>
          Rewritten(fl, layout.fields[i].argType, FieldSlice(layout, bytes, i))),
        rebuilt.value.bytes))
  {
    hide FieldBytes, FieldValue, IsImage, Rewritten, SizeOf;
    var vals := ReadAll(fl, follow, layout, bytes);
    var ps := ScriptPushes(vals);
    PushAllImage(fl, layout, ps);
    forall i | 0 <= i < |layout.fields|
      ensures FieldBytes(fl, layout.fields[i].argType, ps[i]).Some? <==>
        !(layout.fields[i].argType.CString? && Decode(FieldSlice(layout, bytes, i)) != 0)
      ensures FieldBytes(fl, layout.fields[i].argType, ps[i]).Some? ==>
        FieldBytes(fl, layout.fields[i].argType, ps[i]).value
          == Rewritten(fl, layout.fields[i].argType, FieldSlice(layout, bytes, i))
    {
      ScriptField(fl, follow, layout.fields[i].argType, FieldSlice(layout, bytes, i));
    }
    if AllAccepted(fl, layout, ps) {
      assert EncodeAll(fl, layout, ps) == seq(|layout.fields|, i requires 0 <= i < |layout.fields| =>
        Rewritten(fl, layout.fields[i].argType, FieldSlice(layout, bytes, i)));
    }
  }

  /** The adapter guide's recipe for replacing field `idx` works exactly when the new value fits its
      field and every other pointer field, text or not, is null: `from_script_vals` needs only the texts
      to be. Where it works, that field is replaced and the others are restored. */
  lemma GuideRebuildNeedsNulls(fl: FloatOps, follow: u64 -> seq<byte>, layout: StructType, bytes: seq<byte>,
                               idx: nat, v: ScriptVal)
    requires Spaced(layout) && |bytes| == layout.size && idx < |layout.fields|
    ensures var rebuilt := PushAll(fl, Fresh(layout), GuidePushes(ReadAll(fl, follow, layout, bytes)[idx := v]));
      var part := FieldBytes(fl, layout.fields[idx].argType, GuidePush(v));
      && (rebuilt.Some? <==>
        && part.Some?
        && forall i :: 0 <= i < |layout.fields| && i != idx && IsAddress(layout.fields[i].argType) ==>
          Decode(FieldSlice(layout, bytes, i)) == 0)
      && (rebuilt.Some? ==> IsImage(layout,
        seq(|layout.fields|, i requires 0 <= i < |layout.fields| =>
          if i == idx then part.value else Rewritten(fl, layout.fields[i].argType, FieldSlice(layout, bytes, i))),
        rebuilt.value.bytes))
  {
    var ps := GuidePushes(ReadAll(fl, follow, layout, bytes)[idx := v]);
    PushAllImage(fl, layout, ps);
    forall i | 0 <= i < |layout.fields| && i != idx
      ensures FieldBytes(fl, layout.fields[i].argType, ps[i]).Some? <==>
        !(IsAddress(layout.fields[i].argType) && Decode(FieldSlice(layout, bytes, i)) != 0)
      ensures FieldBytes(fl, layout.fields[i].argType, ps[i]).Some? ==>
        FieldBytes(fl, layout.fields[i].argType, ps[i]).value
          == Rewritten(fl, layout.fields[i].argType, FieldSlice(layout, bytes, i))
    {
      GuideField(fl, follow, layout.fields[i].argType, FieldSlice(layout, bytes, i));
    }
    if AllAccepted(fl, layout, ps) {
      assert EncodeAll(fl, layout, ps) == seq(|layout.fields|, i requires 0 <= i < |layout.fields| =>
        if i == idx then FieldBytes(fl, layout.fields[idx].argType, GuidePush(v)).value
        else Rewritten(fl, layout.fields[i].argType, FieldSlice(layout, bytes, i)));
    }
    hide FieldBytes, FieldValue, IsImage, Rewritten, Spaced;
  }

  lemma ScriptField(fl: FloatOps, follow: u64 -> seq<byte>, t: ArgType, bs: seq<byte>)
    requires IsScalar(t) && |bs| == SizeOf(t)
    ensures var part := FieldBytes(fl, t, ScriptPush(FieldValue(fl, follow, t, bs)));
      && (part.Some? <==> !(t.CString? && Decode(bs) != 0))
      && (part.Some? ==> part.value == Rewritten(fl, t, bs))
  {
    FieldRebuild(fl, follow, t, bs);
    Pow256Small(|bs|);
    hide FieldBytes, Rewritten, Wrap;
  }

  predicate IsAddress(t: ArgType) {
    t.CString? || t.OpaquePointer?
  }

  lemma GuideField(fl: FloatOps, follow: u64 -> seq<byte>, t: ArgType, bs: seq<byte>)
    requires IsScalar(t) && |bs| == SizeOf(t)
    ensures var part := FieldBytes(fl, t, GuidePush(FieldValue(fl, follow, t, bs)));
      && (part.Some? <==> !(IsAddress(t) && Decode(bs) != 0))
      && (part.Some? ==> part.value == Rewritten(fl, t, bs))
  {
    FieldRebuild(fl, follow, t, bs);
    Pow256Small(|bs|);
    hide FieldBytes, Rewritten, Wrap;
  }

  /** The integer a script value counts as in an integer field. */
  function Truncated(fl: FloatOps, v: ScriptVal): i64 {
    match v
    case Integer(n) => n
    case Number(b) => Clamp(I64, fl.trunc(b))
    case Str(_) => Clamp(I64, fl.trunc(0))
    case _ => 0
  }

  /** The bits a script value puts in a 32-bit float field. */
  function SingleBits(fl: FloatOps, v: ScriptVal): u32 {
    match v
    case Number(b) => fl.narrow(b)
    case Integer(n) => fl.intToF32(n)
    case Nil => fl.intToF32(0)
    case _ => fl.narrow(0)
  }

  /** The bits a script value puts in a 64-bit float field. */
  function DoubleBits(fl: FloatOps, v: ScriptVal): u64 {
    match v
    case Number(b) => b
    case Integer(n) => fl.intToF64(n)
    case Nil => fl.intToF64(0)
    case _ => 0
  }

  /** What a script reads from a field it has just written with `v`. */
  function Echo(fl: FloatOps, follow: u64 -> seq<byte>, t: ArgType, v: ScriptVal): ScriptVal
    requires IsScalar(t)
  {
    match t
    case Int(ty) => Integer(Wrap(I64, Wrap(ty, Truncated(fl, v))))
    case F64 => Number(DoubleBits(fl, v))
    case F32 => Number(fl.widen(SingleBits(fl, v)))
    case _ =>
      if !v.Address? || v.bits == 0 then Null
      else if t.CString? then Str(follow(v.bits))
      else Address(v.bits)
  }

  /** What a script reads from a field nobody wrote. */
  function ZeroValue(fl: FloatOps, t: ArgType): ScriptVal
    requires IsScalar(t)
  {
    match t
    case Int(_) => Integer(0)
    case F64 => Number(0)
    case F32 => Number(fl.widen(0))
    case _ => Null
  }

  lemma FieldEcho(fl: FloatOps, follow: u64 -> seq<byte>, t: ArgType, v: ScriptVal)
    requires FieldBytes(fl, t, ScriptPush(v)).Some?
    ensures FieldValue(fl, follow, t, FieldBytes(fl, t, ScriptPush(v)).value) == Echo(fl, follow, t, v)
  {
    hide Encode, Decode, Pow256, DecodeInt, EncodeInt, Wrap, Clamp;
    Pow256Small(SizeOf(t));
    I64WrapsToItself(v);
    if t.Int? {
      IntRoundTrip(t.ty, Truncated(fl, v));
    } else if t.F64? {
      DecodeEncode(DoubleBits(fl, v), 8);
    } else if t.F32? {
      DecodeEncode(SingleBits(fl, v), 4);
    } else {
      DecodeEncode(if v.Address? then v.bits else 0, 8);
    }
  }

  lemma I64WrapsToItself(v: ScriptVal)
    ensures v.Integer? ==> Wrap(I64, v.n) == v.n
    ensures Wrap(I64, 0) == 0
  {
  }

  lemma ZeroFieldValue(fl: FloatOps, follow: u64 -> seq<byte>, t: ArgType)
    requires IsScalar(t)
    ensures FieldValue(fl, follow, t, Zeros(SizeOf(t))) == ZeroValue(fl, t)
  {
    DecodeZeros(SizeOf(t));
  }

  /** A struct built from script values and left alone by the callee reads back as the values given,
      wrapped to the field types, followed by zeros and nulls for the fields left out. */
  lemma UntouchedStructReadsBack(fl: FloatOps, follow: u64 -> seq<byte>, layout: StructType, vals: seq<ScriptVal>)
    requires Spaced(layout) && FromScriptVals(fl, layout, vals).Some?
    ensures |vals| <= |layout.fields|
    ensures ReadAll(fl, follow, layout, FromScriptVals(fl, layout, vals).value.bytes)
      == seq(|layout.fields|, i requires 0 <= i < |layout.fields| =>
        if i < |vals| then Echo(fl, follow, layout.fields[i].argType, vals[i])
        else ZeroValue(fl, layout.fields[i].argType))
  {
    var ps := ScriptPushes(vals);
    PushAllImage(fl, layout, ps);
    var bytes := FromScriptVals(fl, layout, vals).value.bytes;
    forall i | 0 <= i < |layout.fields|
      ensures ReadAll(fl, follow, layout, bytes)[i]
        == if i < |vals| then Echo(fl, follow, layout.fields[i].argType, vals[i])
          else ZeroValue(fl, layout.fields[i].argType)
    {
      var t := layout.fields[i].argType;
      if i < |vals| {
        assert EncodeAll(fl, layout, ps)[i] == FieldSlice(layout, bytes, i);
        FieldEcho(fl, follow, t, vals[i]);
      } else {
        UnpushedFieldIsZero(layout, EncodeAll(fl, layout, ps), bytes, i);
        ZeroFieldValue(fl, follow, t);
      }
    }
  }
}
