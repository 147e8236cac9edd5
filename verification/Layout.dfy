/**
 C struct layout (`StructType::new`): in-order, aligned placement of scalar fields, as section
 3.1.2 of the System V AMD64 ABI supplement and section 6.7.2.1 of ISO C11 ask for.
 */
module Layout {
  import opened Wrappers
  import opened Numbers
  import opened Types

  datatype LayoutError = NoFields | UnsupportedField(t: ArgType)

  /** Size of a type that may be a struct field; its alignment is the same number. */
  function ScalarSize(t: ArgType): (s: Option<nat>)
    ensures s.Some? ==> IsUnit(s.value)
  {
    match t
    case Int(ty) => Some(Width(ty))
    case F32 => Some(4)
    case F64 => Some(8)
    case OpaquePointer | CString => Some(8)
    case _ => None
  }

  predicate IsScalar(t: ArgType) {
    ScalarSize(t).Some?
  }

  predicate AllScalar(ts: seq<ArgType>) {
    forall i :: 0 <= i < |ts| ==> IsScalar(ts[i])
  }

  function SizeOf(t: ArgType): (s: nat)
    requires IsScalar(t)
    ensures IsUnit(s)
  {
    ScalarSize(t).value
  }

  function Times(k: nat, x: nat): nat {
    k * x
  }

  /** `x` is a multiple of `alignment`. */
  ghost predicate Aligned(x: nat, alignment: nat) {
    exists q: nat :: x == Times(q, alignment)
  }

  lemma AlignedMeansNoRemainder(x: nat, alignment: nat)
    requires alignment > 0
    ensures Aligned(x, alignment) <==> x % alignment == 0
  {
    if q: nat :| x == Times(q, alignment) {
      ModShift(0, q, alignment);
    }
    assert x == Times(x / alignment, alignment) + x % alignment;
  }

  function AlignUp(value: nat, alignment: nat): (r: nat)
    requires alignment > 0
    ensures value <= r < value + alignment
  {
    var remainder := value % alignment;
    if remainder == 0 then value else value + (alignment - remainder)
  }

  /** `AlignUp` gives the least multiple of `alignment` that is not below `value`. */
  lemma AlignUpLeast(value: nat, alignment: nat)
    requires alignment > 0
    ensures Aligned(AlignUp(value, alignment), alignment)
    ensures forall x: nat :: x >= value && Aligned(x, alignment) ==> AlignUp(value, alignment) <= x
  {
    var q := value / alignment;
    assert value == q * alignment + value % alignment;
    var p := if value % alignment == 0 then q else q + 1;
    assert (q + 1) * alignment == q * alignment + alignment;
    assert AlignUp(value, alignment) == Times(p, alignment);
    forall x: nat | x >= value && Aligned(x, alignment)
      ensures AlignUp(value, alignment) <= x
    {
      var k: nat :| x == Times(k, alignment);
      MultipleNotBelow(k, value, q, alignment);
    }
  }

  /** No multiple of `a` lies strictly between two consecutive ones. */
  lemma MultipleNotBelow(k: nat, value: nat, q: nat, a: nat)
    requires a > 0 && k * a >= value >= q * a
    ensures value > q * a ==> k * a >= (q + 1) * a
  {
    if k <= q {
      MulMonotone(k, q, a);
    } else {
      MulMonotone(q + 1, k, a);
    }
  }

  // -- the layout as a function of the field types ---------------------------------------------------

  /** First free byte after the fields `ts` have been placed in order. */
  function EndOf(ts: seq<ArgType>): nat
    requires AllScalar(ts)
  {
    if ts == [] then 0 else OffsetOf(ts, |ts| - 1) + SizeOf(ts[|ts| - 1])
  }

  /** Where field `i` goes: the first aligned byte after its predecessors. */
  function OffsetOf(ts: seq<ArgType>, i: nat): nat
    requires AllScalar(ts) && i < |ts|
    decreases i, 0
  {
    if i == 0 then 0 else AlignUp(OffsetOf(ts, i - 1) + SizeOf(ts[i - 1]), SizeOf(ts[i]))
  }

  /** The strictest field alignment. */
  function MaxAlign(ts: seq<ArgType>): (a: nat)
    requires AllScalar(ts)
    ensures IsUnit(a)
    ensures forall i :: 0 <= i < |ts| ==> SizeOf(ts[i]) <= a
    ensures a == 1 || exists i :: 0 <= i < |ts| && a == SizeOf(ts[i])
  {
    if ts == [] then 1
    else
      var a := MaxAlign(ts[..|ts| - 1]);
      var s := SizeOf(ts[|ts| - 1]);
      if s > a then s else a
  }

  function FieldsOf(ts: seq<ArgType>): (fs: seq<StructField>)
    requires AllScalar(ts)
    ensures |fs| == |ts|
  {
    seq(|ts|, i requires 0 <= i < |ts| => StructField(ts[i], OffsetOf(ts, i), SizeOf(ts[i])))
  }

  function LayoutOf(ts: seq<ArgType>): StructType
    requires AllScalar(ts)
  {
    StructType(FieldsOf(ts), AlignUp(EndOf(ts), MaxAlign(ts)), MaxAlign(ts))
  }

  /** The first type that cannot be a field. */
  function FirstUnsupported(ts: seq<ArgType>): (i: nat)
    requires !AllScalar(ts)
    ensures i < |ts| && !IsScalar(ts[i]) && AllScalar(ts[..i])
  {
    if !IsScalar(ts[0]) then 0
    else
      assert ts == [ts[0]] + ts[1..];
      1 + FirstUnsupported(ts[1..])
  }

  function NewStruct(ts: seq<ArgType>): Result<StructType, LayoutError> {
    if ts == [] then Err(NoFields)
    else if !AllScalar(ts) then Err(UnsupportedField(ts[FirstUnsupported(ts)]))
    else Ok(LayoutOf(ts))
  }

  lemma {:induction false} OffsetOfPrefix(ts: seq<ArgType>, n: nat, i: nat)
    requires AllScalar(ts) && i < n <= |ts|
    ensures OffsetOf(ts[..n], i) == OffsetOf(ts, i)
  {
    hide AlignUp, ScalarSize;
    if i > 0 {
      OffsetOfPrefix(ts, n, i - 1);
    }
  }

  lemma FirstUnsupportedUnique(ts: seq<ArgType>, i: nat)
    requires i < |ts| && AllScalar(ts[..i]) && !IsScalar(ts[i])
    ensures !AllScalar(ts) && FirstUnsupported(ts) == i
  {
    var j := FirstUnsupported(ts);
    assert forall k :: 0 <= k < i ==> IsScalar(ts[k]) by {
      assert forall k :: 0 <= k < i ==> ts[..i][k] == ts[k];
    }
    assert forall k :: 0 <= k < j ==> IsScalar(ts[k]) by {
      assert forall k :: 0 <= k < j ==> ts[..j][k] == ts[k];
    }
  }

  /** Laying out one more field leaves the earlier ones where they are. */
  lemma OneMoreField(ts: seq<ArgType>)
    requires ts != [] && AllScalar(ts)
    ensures var front, t := ts[..|ts| - 1], ts[|ts| - 1];
      && OffsetOf(ts, |ts| - 1) == AlignUp(EndOf(front), SizeOf(t))
      && FieldsOf(ts) == FieldsOf(front) + [StructField(t, AlignUp(EndOf(front), SizeOf(t)), SizeOf(t))]
      && EndOf(ts) == AlignUp(EndOf(front), SizeOf(t)) + SizeOf(t)
  {
    var n := |ts| - 1;
    var front := ts[..n];
    forall j | 0 <= j < n
      ensures OffsetOf(front, j) == OffsetOf(ts, j)
    {
      OffsetOfPrefix(ts, n, j);
    }
    ZeroAligned(SizeOf(ts[n]));
    hide AlignUp, ScalarSize;
  }

  lemma ZeroAligned(a: nat)
    requires a > 0
    ensures AlignUp(0, a) == 0
  {
  }

  /** The same for the next field of a longer list, with the strictest alignment so far. */
  lemma PlaceNext(ts: seq<ArgType>, i: nat)
    requires i < |ts| && AllScalar(ts[..i]) && ScalarSize(ts[i]).Some?
    ensures AllScalar(ts[..i + 1])
    ensures var size := ScalarSize(ts[i]).value;
      var offset := AlignUp(EndOf(ts[..i]), size);
      && FieldsOf(ts[..i + 1]) == FieldsOf(ts[..i]) + [StructField(ts[i], offset, size)]
      && EndOf(ts[..i + 1]) == offset + size
      && MaxAlign(ts[..i + 1]) == if size > MaxAlign(ts[..i]) then size else MaxAlign(ts[..i])
  {
    hide AlignUp, FieldsOf, EndOf, OffsetOf, MaxAlign, ScalarSize;
    var more := ts[..i + 1];
    assert more[..i] == ts[..i] && more[i] == ts[i];
    OneMoreField(more);
    AlignmentStep(more);
  }

  /** `StructType::new`, field by field. */
  method New(fieldTypes: seq<ArgType>) returns (r: Result<StructType, LayoutError>)
    ensures r == NewStruct(fieldTypes)
  {
    if fieldTypes == [] {
      return Err(NoFields);
    }
    hide AlignUp, FieldsOf, EndOf, OffsetOf, MaxAlign, ScalarSize, SizeOf, FirstUnsupported;
    var fields: seq<StructField> := [];
    var offset: nat := 0;
    var alignment: nat := 1;
    NothingPlaced();
    for i := 0 to |fieldTypes|
      invariant AllScalar(fieldTypes[..i])
      invariant fields == FieldsOf(fieldTypes[..i])
      invariant offset == EndOf(fieldTypes[..i])
      invariant alignment == MaxAlign(fieldTypes[..i])
    {
      var fieldType := fieldTypes[i];
      var layout := ScalarSize(fieldType);
      if layout.None? {
        FirstUnsupportedUnique(fieldTypes, i);
        return Err(UnsupportedField(fieldType));
      }
      PlaceNext(fieldTypes, i);
      offset := AlignUp(offset, layout.value);
      fields := fields + [StructField(fieldType, offset, layout.value)];
      offset := offset + layout.value;
      alignment := if layout.value > alignment then layout.value else alignment;
    }
    assert fieldTypes[..|fieldTypes|] == fieldTypes;
    return Ok(StructType(fields, AlignUp(offset, alignment), alignment));
  }

  lemma NothingPlaced()
    ensures FieldsOf([]) == [] && EndOf([]) == 0 && MaxAlign([]) == 1
  {
  }

  lemma AlignmentStep(ts: seq<ArgType>)
    requires ts != [] && AllScalar(ts)
    ensures var a, s := MaxAlign(ts[..|ts| - 1]), SizeOf(ts[|ts| - 1]); MaxAlign(ts) == if s > a then s else a
  {
  }

  // -- soundness --------------------------------------------------------------------------------------

  /** The source builds every `StructType` with `StructType::new`. */
  predicate WfStruct(st: StructType) {
    NewStruct(FieldTypes(st)) == Ok(st)
  }

  /** Every struct inside was laid out by `StructType::new`. */
  predicate WfType(t: ArgType) {
    match t
    case Struct(st) => WfStruct(st)
    case Pointer(target) => WfType(target)
    case _ => true
  }

  function FieldTypes(st: StructType): seq<ArgType> {
    seq(|st.fields|, i requires 0 <= i < |st.fields| => st.fields[i].argType)
  }

  lemma NewStructIsWf(ts: seq<ArgType>)
    requires NewStruct(ts).Ok?
    ensures WfStruct(NewStruct(ts).value) && FieldTypes(NewStruct(ts).value) == ts
  {
    assert FieldTypes(NewStruct(ts).value) == ts;
  }

  lemma {:induction false} OffsetsGrow(ts: seq<ArgType>, i: nat, j: nat)
    requires AllScalar(ts) && i < j < |ts|
    ensures OffsetOf(ts, i) + SizeOf(ts[i]) <= OffsetOf(ts, j)
    decreases j
  {
    hide AlignUp;
    if i < j - 1 {
      OffsetsGrow(ts, i, j - 1);
    }
  }

  lemma ZeroIsAligned(a: nat)
    ensures Aligned(0, a)
  {
    assert 0 == Times(0, a);
  }

  lemma SelfIsAligned(a: nat)
    ensures Aligned(a, a)
  {
    assert a == Times(1, a);
  }

  lemma {:induction false} OffsetIsAligned(ts: seq<ArgType>, i: nat)
    requires AllScalar(ts) && i < |ts|
    ensures Aligned(OffsetOf(ts, i), SizeOf(ts[i]))
  {
    hide AlignUp, Aligned;
    if i == 0 {
      ZeroIsAligned(SizeOf(ts[0]));
    } else {
      AlignUpLeast(OffsetOf(ts, i - 1) + SizeOf(ts[i - 1]), SizeOf(ts[i]));
    }
  }

  /** Powers of two: a multiple of the strictest alignment is a multiple of every one. */
  lemma StrictestAlignmentSuffices(big: nat, small: nat, x: nat)
    requires IsUnit(big) && IsUnit(small) && small <= big
    requires Aligned(x, big)
    ensures Aligned(x, small)
  {
    var k: nat :| x == Times(k, big);
    var c := big / small;
    assert big == c * small;
    assert k * (c * small) == (k * c) * small;
    assert x == Times(k * c, small);
  }

  /** One laid-out field: typed, in bounds, aligned, and its alignment divides the whole size. */
  ghost predicate SoundField(st: StructType, i: nat)
    requires i < |st.fields|
  {
    var f := st.fields[i];
    && IsScalar(f.argType)
    && f.size == SizeOf(f.argType)
    && f.offset + f.size <= st.size
    && f.size <= st.alignment
    && Aligned(f.offset, f.size)
    && Aligned(st.size, f.size)
  }

  lemma FieldEndsInside(ts: seq<ArgType>, i: nat)
    requires AllScalar(ts) && i < |ts|
    ensures OffsetOf(ts, i) + SizeOf(ts[i]) <= EndOf(ts) <= LayoutOf(ts).size
  {
    hide ScalarSize, SizeOf, MaxAlign, AlignUp, OffsetOf;
    if i < |ts| - 1 {
      OffsetsGrow(ts, i, |ts| - 1);
    }
  }

  lemma SizeIsAligned(ts: seq<ArgType>, i: nat)
    requires AllScalar(ts) && i < |ts|
    ensures Aligned(LayoutOf(ts).size, SizeOf(ts[i]))
  {
    hide ScalarSize, SizeOf, MaxAlign, AlignUp, OffsetOf, EndOf, Aligned;
    AlignUpLeast(EndOf(ts), MaxAlign(ts));
    StrictestAlignmentSuffices(MaxAlign(ts), SizeOf(ts[i]), LayoutOf(ts).size);
  }

  lemma FieldIsSound(st: StructType, i: nat)
    requires WfStruct(st) && i < |st.fields|
    ensures SoundField(st, i)
  {
    var ts := FieldTypes(st);
    assert FieldsOf(ts)[i] == st.fields[i];
    FieldEndsInside(ts, i);
    OffsetIsAligned(ts, i);
    SizeIsAligned(ts, i);
    hide ScalarSize, SizeOf, MaxAlign, AlignUp, OffsetOf, EndOf, Aligned;
  }

  /** Soundness of the layout: every field is sound, and fields lie in order without overlap. */
  lemma LayoutIsSound(st: StructType)
    requires WfStruct(st)
    ensures |st.fields| > 0 && IsUnit(st.alignment) && Aligned(st.size, st.alignment)
    ensures forall i :: 0 <= i < |st.fields| ==> SoundField(st, i)
    ensures forall i, j :: 0 <= i < j < |st.fields| ==>
      st.fields[i].offset + st.fields[i].size <= st.fields[j].offset
  {
    hide AlignUp, Aligned;
    var ts := FieldTypes(st);
    AlignUpLeast(EndOf(ts), MaxAlign(ts));
    forall i | 0 <= i < |st.fields|
      ensures SoundField(st, i)
    {
      FieldIsSound(st, i);
    }
    forall i, j | 0 <= i < j < |st.fields|
      ensures st.fields[i].offset + st.fields[i].size <= st.fields[j].offset
    {
      OffsetsGrow(ts, i, j);
      assert FieldsOf(ts)[i] == st.fields[i] && FieldsOf(ts)[j] == st.fields[j];
    }
  }

  lemma MultiplePlusAligned(k: nat, x: nat, off: nat, a: nat)
    requires Aligned(x, a) && Aligned(off, a)
    ensures Aligned(k * x + off, a)
    ensures off + a <= x ==> k * x + off + a <= (k + 1) * x
  {
    assert (k + 1) * x == k * x + x;
    var i: nat :| x == Times(i, a);
    var j: nat :| off == Times(j, a);
    assert k * (i * a) == (k * i) * a;
    assert k * x + off == Times(k * i + j, a) by {
      assert (k * i + j) * a == (k * i) * a + j * a;
    }
  }

  /** Where field `i` of the `k`-th of several copies laid side by side starts. */
  function ElementFieldAt(ts: seq<ArgType>, k: nat, i: nat): nat
    requires AllScalar(ts) && i < |ts|
  {
    Times(k, LayoutOf(ts).size) + OffsetOf(ts, i)
  }

  /** At stride `size` every field of every copy is aligned and stays inside its copy. */
  lemma ArrayElementsStayAligned(ts: seq<ArgType>, k: nat, i: nat)
    requires AllScalar(ts) && i < |ts|
    ensures Aligned(ElementFieldAt(ts, k, i), SizeOf(ts[i]))
    ensures ElementFieldAt(ts, k, i) + SizeOf(ts[i]) <= Times(k + 1, LayoutOf(ts).size)
  {
    OffsetIsAligned(ts, i);
    FieldEndsInside(ts, i);
    SizeIsAligned(ts, i);
    hide ScalarSize, SizeOf, MaxAlign, AlignUp, OffsetOf, EndOf, LayoutOf, Aligned;
    MultiplePlusAligned(k, LayoutOf(ts).size, OffsetOf(ts, i), SizeOf(ts[i]));
  }

  // -- minimality -------------------------------------------------------------------------------------

  /** Any way to put the fields in order at aligned, non-overlapping places of an array element. */
  ghost predicate IsPlacement(ts: seq<ArgType>, offsets: seq<nat>, size: nat)
    requires AllScalar(ts)
  {
    && |offsets| == |ts|
    && (forall i :: 0 <= i < |ts| ==> Aligned(offsets[i], SizeOf(ts[i])) && Aligned(size, SizeOf(ts[i])))
    && (forall i, j :: 0 <= i < j < |ts| ==> offsets[i] + SizeOf(ts[i]) <= offsets[j])
    && (forall i :: 0 <= i < |ts| ==> offsets[i] + SizeOf(ts[i]) <= size)
  }

  lemma {:induction false} LeastOffset(ts: seq<ArgType>, offsets: seq<nat>, size: nat, i: nat)
    requires AllScalar(ts) && IsPlacement(ts, offsets, size) && i < |ts|
    ensures OffsetOf(ts, i) <= offsets[i]
  {
    hide AlignUp, Aligned;
    if i > 0 {
      LeastOffset(ts, offsets, size, i - 1);
      AlignUpLeast(OffsetOf(ts, i - 1) + SizeOf(ts[i - 1]), SizeOf(ts[i]));
    }
  }

  function Offsets(st: StructType): seq<nat> {
    seq(|st.fields|, i requires 0 <= i < |st.fields| => st.fields[i].offset)
  }

  lemma OffsetsOfLayout(ts: seq<ArgType>)
    requires AllScalar(ts)
    ensures |Offsets(LayoutOf(ts))| == |ts|
    ensures forall i :: 0 <= i < |ts| ==> Offsets(LayoutOf(ts))[i] == OffsetOf(ts, i)
  {
    hide AlignUp, MaxAlign, ScalarSize, EndOf, OffsetOf;
  }

  lemma LayoutIsPlacement(ts: seq<ArgType>)
    requires ts != [] && AllScalar(ts)
    ensures IsPlacement(ts, Offsets(LayoutOf(ts)), LayoutOf(ts).size)
  {
    OffsetsOfLayout(ts);
    hide AlignUp, Aligned, MaxAlign, ScalarSize, SizeOf, EndOf, OffsetOf, LayoutOf, Offsets;
    forall i | 0 <= i < |ts|
      ensures Aligned(OffsetOf(ts, i), SizeOf(ts[i])) && Aligned(LayoutOf(ts).size, SizeOf(ts[i]))
      ensures OffsetOf(ts, i) + SizeOf(ts[i]) <= LayoutOf(ts).size
    {
      OffsetIsAligned(ts, i);
      SizeIsAligned(ts, i);
      FieldEndsInside(ts, i);
    }
    forall i, j | 0 <= i < j < |ts|
      ensures OffsetOf(ts, i) + SizeOf(ts[i]) <= OffsetOf(ts, j)
    {
      OffsetsGrow(ts, i, j);
    }
  }

  /** The computed layout is such a placement, and the pointwise least of all of them. */
  lemma LayoutIsLeast(ts: seq<ArgType>, offsets: seq<nat>, size: nat)
    requires ts != [] && AllScalar(ts) && IsPlacement(ts, offsets, size)
    ensures IsPlacement(ts, Offsets(LayoutOf(ts)), LayoutOf(ts).size)
    ensures forall i :: 0 <= i < |ts| ==> Offsets(LayoutOf(ts))[i] <= offsets[i]
    ensures LayoutOf(ts).size <= size
  {
    hide AlignUp, Aligned;
    LayoutIsPlacement(ts);
    forall i | 0 <= i < |ts|
      ensures OffsetOf(ts, i) <= offsets[i]
    {
      LeastOffset(ts, offsets, size, i);
    }
    EveryNumberIsAlignedToOne(size);
    AlignUpLeast(EndOf(ts), MaxAlign(ts));
  }

  lemma EveryNumberIsAlignedToOne(x: nat)
    ensures Aligned(x, 1)
  {
    assert x == Times(x, 1);
  }

  function SumOfSizes(ts: seq<ArgType>): nat
    requires AllScalar(ts)
  {
    if ts == [] then 0 else SumOfSizes(ts[..|ts| - 1]) + SizeOf(ts[|ts| - 1])
  }

  lemma {:induction false} SumFitsBeforeEnd(ts: seq<ArgType>)
    requires AllScalar(ts)
    ensures SumOfSizes(ts) <= EndOf(ts)
  {
    if |ts| > 1 {
      var front := ts[..|ts| - 1];
      SumFitsBeforeEnd(front);
      OffsetOfPrefix(ts, |ts| - 1, |ts| - 2);
    }
  }

  /** Padding is bounded on both sides: giving every field a full alignment unit is a rival placement. */
  lemma SizeBounds(ts: seq<ArgType>)
    requires ts != [] && AllScalar(ts)
    ensures SumOfSizes(ts) <= LayoutOf(ts).size <= MaxAlign(ts) * |ts|
  {
    hide AlignUp, Aligned, LayoutOf, ScalarSize, SizeOf, OffsetOf, Offsets;
    SumFitsBeforeEnd(ts);
    EndFits(ts);
    var a := MaxAlign(ts);
    var offsets := seq(|ts|, i requires 0 <= i < |ts| => a * i);
    forall i | 0 <= i < |ts|
      ensures Aligned(offsets[i], SizeOf(ts[i])) && Aligned(a * |ts|, SizeOf(ts[i]))
      ensures offsets[i] + SizeOf(ts[i]) <= a * |ts|
    {
      MulMonotone(i + 1, |ts|, a);
      ZeroIsAligned(SizeOf(ts[i]));
      SelfIsAligned(a);
      StrictestAlignmentSuffices(a, SizeOf(ts[i]), a);
      MultiplePlusAligned(i, a, 0, SizeOf(ts[i]));
      MultiplePlusAligned(|ts|, a, 0, SizeOf(ts[i]));
    }
    forall i, j | 0 <= i < j < |ts|
      ensures offsets[i] + SizeOf(ts[i]) <= offsets[j]
    {
      MulMonotone(i + 1, j, a);
    }
    LayoutIsLeast(ts, offsets, a * |ts|);
  }

  lemma EndFits(ts: seq<ArgType>)
    requires ts != [] && AllScalar(ts)
    ensures EndOf(ts) <= LayoutOf(ts).size
  {
  }

  // -- what is laid out ---------------------------------------------------------------------------------

  /** The sizes in plain numbers; nothing else may be a field. */
  lemma ScalarSizes(t: ArgType)
    ensures ScalarSize(t) ==
      match t
      case Int(Char) | Int(I8) => Some(1)
      case Int(I16) | Int(U16) => Some(2)
      case Int(I32) | Int(U32) | F32 => Some(4)
      case Int(I64) | Int(U64) | F64 | OpaquePointer | CString => Some(8)
      case _ => None
  {
  }

  /** A struct is laid out exactly when it has fields and all of them are scalars, and has those fields;
      otherwise the error names the first that is not. */
  lemma NewIsExact(ts: seq<ArgType>)
    ensures NewStruct(ts).Ok? <==> ts != [] && forall i :: 0 <= i < |ts| ==> ScalarSize(ts[i]).Some?
    ensures NewStruct(ts).Ok? ==> FieldTypes(NewStruct(ts).value) == ts
    ensures ts == [] ==> NewStruct(ts) == Err(NoFields)
    ensures ts != [] && NewStruct(ts).Err? ==>
      exists i :: 0 <= i < |ts| && NewStruct(ts) == Err(UnsupportedField(ts[i])) && ScalarSize(ts[i]).None?
        && forall j :: 0 <= j < i ==> ScalarSize(ts[j]).Some?
  {
    if ts != [] && !AllScalar(ts) {
      var i := FirstUnsupported(ts);
      assert forall j :: 0 <= j < i ==> IsScalar(ts[..i][j]) && ts[..i][j] == ts[j];
    }
    hide ScalarSize, AlignUp, EndOf, OffsetOf, MaxAlign;
  }

  /** The alignment of a struct is the strictest of its fields' alignments, and some field has it. */
  lemma AlignmentIsStrictest(st: StructType)
    requires WfStruct(st)
    ensures forall i :: 0 <= i < |st.fields| ==> st.fields[i].size <= st.alignment
    ensures exists i :: 0 <= i < |st.fields| && st.fields[i].size == st.alignment
  {
    var ts := FieldTypes(st);
    assert st.alignment == MaxAlign(ts);
    assert SizeOf(ts[0]) <= MaxAlign(ts);
    var i :| 0 <= i < |ts| && (MaxAlign(ts) == SizeOf(ts[i]) || (MaxAlign(ts) == 1 && i == 0));
    assert st.fields[i].size == st.alignment;
    hide ScalarSize, AlignUp, EndOf, OffsetOf;
  }

  // -- comparing layouts ------------------------------------------------------------------------------

  /** `same_layout` compares field types by their variant only. */
  predicate SameVariant(s: ArgType, t: ArgType) {
    match (s, t)
    case (Int(a), Int(b)) => a == b
    case (F32, F32) => true
    case (F64, F64) => true
    case (CString, CString) => true
    case (OCString(_), OCString(_)) => true
    case (ByteBuffer, ByteBuffer) => true
    case (OByteBuffer(_), OByteBuffer(_)) => true
    case (OpaquePointer, OpaquePointer) => true
    case (Struct(_), Struct(_)) => true
    case (Pointer(_), Pointer(_)) => true
    case (Void, Void) => true
    case _ => false
  }

  predicate SameLayout(s: StructType, t: StructType) {
    && s.size == t.size
    && s.alignment == t.alignment
    && |s.fields| == |t.fields|
    && forall i :: 0 <= i < |s.fields| ==>
      && s.fields[i].offset == t.fields[i].offset
      && s.fields[i].size == t.fields[i].size
      && SameVariant(s.fields[i].argType, t.fields[i].argType)
  }

  /** On structs the source can build, the comparison is exact, and the field types decide it. */
  lemma SameLayoutIsEquality(s: StructType, t: StructType)
    requires WfStruct(s) && WfStruct(t)
    ensures SameLayout(s, t) <==> s == t
    ensures SameLayout(s, t) <==> FieldTypes(s) == FieldTypes(t)
  {
    hide AlignUp, Aligned, NewStruct, LayoutOf;
    LayoutIsSound(s);
    LayoutIsSound(t);
    if SameLayout(s, t) {
      forall i | 0 <= i < |s.fields|
        ensures s.fields[i] == t.fields[i]
      {
        assert SoundField(s, i) && SoundField(t, i);
      }
      assert s.fields == t.fields;
      assert s == t;
    }
  }
}
