/**
 Which arguments a script is owed a value for, and that the slots an invocation keeps name exactly
 those, each once and in argument order.
 */
module Owed {
  import opened Numbers
  import opened Types
  import opened Layout
  import opened StructBytes
  import opened Memory
  import opened Coercion
  import opened Signature
  import opened Marshal

  /** `*T` or `ocstr`, pushed by `push_script_val`. */
  predicate IsScriptOutput(d: ArgType, input: Input) {
    input.Script? && (d.OCString? || (d.Pointer? && !d.target.Struct?))
  }

  /** `*{...}`, pushed by `push_script_struct`. */
  predicate IsStructOutput(d: ArgType, input: Input) {
    input.ScriptStruct? && d.Pointer? && d.target.Struct?
  }

  function OwedValues(c: Ctx, inputs: seq<Input>, k: nat): (owed: set<nat>)
    requires k <= |inputs| <= Arity(c)
    ensures forall i :: i in owed <==> 0 <= i < k && IsScriptOutput(c.def.argTypes[i], inputs[i])
  {
    set i: nat | 0 <= i < k && IsScriptOutput(c.def.argTypes[i], inputs[i])
  }

  function OwedStructs(c: Ctx, inputs: seq<Input>, k: nat): (owed: set<nat>)
    requires k <= |inputs| <= Arity(c)
    ensures forall i :: i in owed <==> 0 <= i < k && IsStructOutput(c.def.argTypes[i], inputs[i])
  {
    set i: nat | 0 <= i < k && IsStructOutput(c.def.argTypes[i], inputs[i])
  }

  // -- exact lists of indices -------------------------------------------------------------------------------

  /** The indices are strictly ascending and are those of `owed`: each once, none missing, none extra. */
  predicate Exactly(indices: seq<nat>, owed: set<nat>) {
    && (forall a, b :: 0 <= a < b < |indices| ==> indices[a] < indices[b])
    && (forall i :: i in indices ==> i in owed)
    && (forall i :: i in owed ==> i in indices)
  }

  function IfDue(due: bool, i: nat): seq<nat> {
    if due then [i] else []
  }

  lemma ExactlyAppend(indices: seq<nat>, owed: set<nat>, owed': set<nat>, k: nat, due: bool)
    requires Exactly(indices, owed) && forall i :: i in owed ==> i < k
    requires owed' == if due then owed + {k} else owed
    ensures Exactly(indices + IfDue(due, k), owed')
  {
    var all := indices + IfDue(due, k);
    forall a, b | 0 <= a < b < |all|
      ensures all[a] < all[b]
    {
      assert all[a] in indices;
    }
    forall i | i in owed'
      ensures i in all
    {
      assert due ==> all[|indices|] == k;
      assert i in owed ==> i in indices;
    }
  }

  /** An exact list with anything before it is not exact. */
  lemma StaleIndicesSpoil(stale: seq<nat>, current: seq<nat>, owed: set<nat>)
    requires Exactly(current, owed)
    ensures Exactly(stale + current, owed) <==> stale == []
  {
    var all := stale + current;
    if stale == [] {
      assert all == current;
    } else {
      assert all[0] in all;
      if b :| 0 <= b < |current| && current[b] == all[0] {
        assert all[|stale| + b] == all[0];
      }
    }
  }

  // -- the slots of a frame ---------------------------------------------------------------------------------

  function OutIndices(outs: seq<OutSlot>): (r: seq<nat>)
    ensures |r| == |outs|
  {
    seq(|outs|, a requires 0 <= a < |outs| => outs[a].index)
  }

  function StructIndices(structs: seq<StructSlot>): (r: seq<nat>)
    ensures |r| == |structs|
  {
    seq(|structs|, a requires 0 <= a < |structs| => structs[a].index)
  }

  /** Owed values are passed as output variables and strings, owed structs by address; nothing else is. */
  lemma OwedArePassedOut(c: Ctx, inputs: seq<Input>, i: nat)
    requires SoundDef(c.def) && i < |inputs| <= Arity(c) && MeaningAt(c, inputs, i).Some?
    ensures var p := MeaningAt(c, inputs, i).value;
      && (IsScriptOutput(c.def.argTypes[i], inputs[i]) <==> p.PassOut? || p.PassOutText?)
      && (IsStructOutput(c.def.argTypes[i], inputs[i]) <==> p.PassOutStruct?)
  {
    var d, input := c.def.argTypes[i], inputs[i];
    ArgIsShaped(c, inputs, i);
    if input.Prim? || input.Value? || input.Text? {
      PlainInputs(c.env, c.def.coerce, d, input);
    }
    if input.Script? {
      ScriptKinds(c.env, c.def.coerce, d, input.val);
    }
    hide NumberMeaning, ValueMeaning, TextMeaning, ScriptMeaning, FromScriptVals, SameLayout, WfStruct, Spaced;
  }

  lemma ScriptKinds(env: Env, coerce: bool, d: ArgType, v: ScriptVal)
    ensures var p := ScriptMeaning(env, coerce, d, v);
      p.Some? ==>
        && !p.value.PassOutStruct?
        && (IsScriptOutput(d, Script(v)) <==> p.value.PassOut? || p.value.PassOutText?)
  {
    CoercedKinds(env, d, if v.Integer? then v.n else 0, if v.Number? then v.bits else 0);
    TextKinds(env, coerce, d, if v.Str? then v.text else []);
    if d.Pointer? {
      OutInitIsOut(env, d.target, v);
    }
    hide CoerceInt, CoerceFloat, TextMeaning, OutInit;
  }

  lemma OutInitIsOut(env: Env, target: ArgType, v: ScriptVal)
    ensures OutInit(env, target, v).Some? ==> OutInit(env, target, v).value.PassOut? && !target.Struct?
  {
    hide Encode, EncodeInt;
  }

  lemma OutHasObject(c: Ctx, inputs: seq<Input>, base: nat, taken: set<nat>, f: Frame, i: nat)
    requires FrameOk(c, inputs, base, taken, f) && i < |inputs|
    ensures MeaningAt(c, inputs, i).Some?
    ensures var p := MeaningAt(c, inputs, i).value;
      p.PassOut? || p.PassOutText? || p.PassOutStruct? ==> ObjAt(f, i).Some?
  {
    assert ArgOk(c, inputs, base, f, i);
    hide MeaningAt, FrameOk;
  }

  /** The slots argument `i` adds: one, for `i`, if something is owed for it, else none. */
  lemma SlotStep(c: Ctx, inputs: seq<Input>, base: nat, taken: set<nat>, f: Frame, i: nat)
    requires FrameOk(c, inputs, base, taken, f) && i < |inputs|
    ensures OutIndices(OutsOf(c, inputs, f, i + 1))
      == OutIndices(OutsOf(c, inputs, f, i)) + IfDue(IsScriptOutput(c.def.argTypes[i], inputs[i]), i)
    ensures StructIndices(StructsOf(c, inputs, f, i + 1))
      == StructIndices(StructsOf(c, inputs, f, i)) + IfDue(IsStructOutput(c.def.argTypes[i], inputs[i]), i)
  {
    OutHasObject(c, inputs, base, taken, f, i);
    OwedArePassedOut(c, inputs, i);
    FrameShape(c, inputs, base, taken, f);
    hide MeaningAt, IsScriptOutput, IsStructOutput, FrameOk, ObjAt, SoundDef;
    var p, o := MeaningAt(c, inputs, i).value, ObjAt(f, i);
    assert OutsOf(c, inputs, f, i + 1) == OutsOf(c, inputs, f, i) + OutFor(p, i, o);
    assert StructsOf(c, inputs, f, i + 1) == StructsOf(c, inputs, f, i) + StructFor(p, i, o);
  }

  lemma OwedStep(c: Ctx, inputs: seq<Input>, i: nat)
    requires i < |inputs| <= Arity(c)
    ensures OwedValues(c, inputs, i + 1)
      == if IsScriptOutput(c.def.argTypes[i], inputs[i]) then OwedValues(c, inputs, i) + {i}
        else OwedValues(c, inputs, i)
    ensures OwedStructs(c, inputs, i + 1)
      == if IsStructOutput(c.def.argTypes[i], inputs[i]) then OwedStructs(c, inputs, i) + {i}
        else OwedStructs(c, inputs, i)
  {
    hide IsScriptOutput, IsStructOutput;
  }

  /** The slots name exactly the arguments something is owed for. */
  lemma {:induction false} SlotsAreExact(c: Ctx, inputs: seq<Input>, base: nat, taken: set<nat>, f: Frame, k: nat)
    requires FrameOk(c, inputs, base, taken, f) && k <= |inputs|
    ensures SoundDef(c.def) && |inputs| <= Arity(c) && |f.vals| == 2 * |inputs|
    ensures Exactly(OutIndices(OutsOf(c, inputs, f, k)), OwedValues(c, inputs, k))
    ensures Exactly(StructIndices(StructsOf(c, inputs, f, k)), OwedStructs(c, inputs, k))
  {
    FrameShape(c, inputs, base, taken, f);
    hide FrameOk, MeaningAt, ObjAt, IsScriptOutput, IsStructOutput, OutFor, StructFor, SoundDef, Exactly;
    if k == 0 {
      NothingIsExact();
    } else {
      var i := k - 1;
      SlotsAreExact(c, inputs, base, taken, f, i);
      SlotStep(c, inputs, base, taken, f, i);
      OwedStep(c, inputs, i);
      ExactlyAppend(OutIndices(OutsOf(c, inputs, f, i)), OwedValues(c, inputs, i), OwedValues(c, inputs, k), i,
        IsScriptOutput(c.def.argTypes[i], inputs[i]));
      ExactlyAppend(StructIndices(StructsOf(c, inputs, f, i)), OwedStructs(c, inputs, i), OwedStructs(c, inputs, k), i,
        IsStructOutput(c.def.argTypes[i], inputs[i]));
    }
  }

  lemma NothingIsExact()
    ensures Exactly([], {})
  {
  }
}
