/** `StructValue` as the source has it: a byte buffer written in place, and a cursor to the next field. */
module StructObject {
  import opened Wrappers
  import opened Numbers
  import opened Types
  import opened Layout
  import opened StructBytes

  class StructValue {
    const layout: StructType
    var bytes: array<byte>
    var nextField: nat

    ghost predicate Valid()
      reads this, bytes
    {
      ValidState(View())
    }

    ghost function View(): StructState
      reads this, bytes
    {
      StructState(layout, bytes[..], nextField)
    }

    constructor FromStructType(structType: StructType)
      requires WfStruct(structType)
      ensures Valid() && fresh(bytes)
      ensures layout == structType && View() == Fresh(structType)
    {
      WfIsSpaced(structType);
      layout := structType;
      bytes := new byte[structType.size](_ => 0);
      nextField := 0;
      new;
      assert bytes[..] == Zeros(structType.size);
    }

    /** `push_field` and `push_field_coerced`: write the next field in place, or fail and write nothing. */
    method PushField(fl: FloatOps, value: FieldPush) returns (ok: bool)
      requires Valid()
      modifies this, bytes
      ensures Valid() && bytes == old(bytes)
      ensures View() == Pushed(fl, old(View()), value)
      ensures ok <==> NextBytes(fl, old(View()), value).Some?
    {
      hide FieldBytes, ScalarSize;
      ghost var before := bytes[..];
      if nextField >= |layout.fields| {
        return false;
      }
      var field := layout.fields[nextField];
      var encoded := FieldBytes(fl, field.argType, value);
      if encoded.None? {
        return false;
      }
      var part := encoded.value;
      for k := 0 to |part|
        invariant bytes == old(bytes) && nextField == old(nextField)
        invariant forall b :: 0 <= b < bytes.Length ==>
          bytes[b] == if field.offset <= b < field.offset + k then part[b - field.offset] else before[b]
      {
        bytes[field.offset + k] := part[k];
      }
      assert bytes[..] == Overwrite(before, field.offset, part);
      nextField := nextField + 1;
      return true;
    }

    method Reset()
      requires Valid()
      modifies this, bytes
      ensures Valid() && bytes == old(bytes)
      ensures View() == Fresh(layout)
    {
      for k := 0 to bytes.Length
        invariant bytes == old(bytes)
        invariant forall j :: 0 <= j < k ==> bytes[j] == 0
      {
        bytes[k] := 0;
      }
      nextField := 0;
      assert bytes[..] == Zeros(layout.size);
    }

    /** `script_read`: None for an index past the last field. */
    method ScriptRead(fl: FloatOps, follow: u64 -> seq<byte>, index: nat) returns (r: Option<ScriptVal>)
      requires Valid()
      ensures r.Some? <==> index < |layout.fields|
      ensures r.Some? ==> r.value == ReadAll(fl, follow, layout, View().bytes)[index]
    {
      if index >= |layout.fields| {
        return None;
      }
      var field := layout.fields[index];
      return Some(FieldValue(fl, follow, field.argType, bytes[field.offset..field.offset + field.size]));
    }
  }

  /** `from_script_vals`: a new struct with the values pushed in order, or nothing at the first rejection. */
  method BuildFromScript(fl: FloatOps, layout: StructType, vals: seq<ScriptVal>) returns (r: Option<StructValue>)
    requires WfStruct(layout)
    ensures Spaced(layout)
    ensures r.Some? <==> FromScriptVals(fl, layout, vals).Some?
    ensures r.Some? ==> fresh(r.value) && fresh(r.value.bytes) && r.value.Valid()
    ensures r.Some? ==> r.value.View() == FromScriptVals(fl, layout, vals).value
  {
    WfIsSpaced(layout);
    var sv := new StructValue.FromStructType(layout);
    ghost var pushes := ScriptPushes(vals);
    for i := 0 to |vals|
      invariant sv.Valid() && fresh(sv) && fresh(sv.bytes) && sv.layout == layout
      invariant PushAll(fl, Fresh(layout), pushes[..i]) == Some(sv.View())
    {
      PushAllStops(fl, Fresh(layout), pushes, i);
      var ok := sv.PushField(fl, ScriptPush(vals[i]));
      if !ok {
        return None;
      }
    }
    assert pushes[..|vals|] == pushes;
    return Some(sv);
  }

  /** A rejected push makes the whole list fail, whatever follows it. */
  lemma {:induction false} PushAllStops(fl: FloatOps, st: StructState, ps: seq<FieldPush>, i: nat)
    requires ValidState(st) && i < |ps|
    ensures PushAll(fl, st, ps[..i + 1]) == match PushAll(fl, st, ps[..i])
      case None => None
      case Some(before) => if NextBytes(fl, before, ps[i]).None? then None else Some(Pushed(fl, before, ps[i]))
    ensures PushAll(fl, st, ps[..i + 1]).None? ==> PushAll(fl, st, ps).None?
    decreases |ps| - i
  {
    assert ps[..i + 1][..i] == ps[..i];
    if i + 1 < |ps| {
      PushAllStops(fl, st, ps, i + 1);
    } else {
      assert ps[..i + 1] == ps;
    }
  }
}
