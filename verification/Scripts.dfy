/**
 The scripted side of a call: the values read back from output slots and from structs passed by
 address, and the script value of the return register.
 */
module Scripts {
  import opened Wrappers
  import opened Numbers
  import opened Types
  import opened Layout
  import opened StructBytes
  import opened Memory
  import opened Coercion
  import opened Signature
  import opened Marshal
  import opened Exchange
  import opened Delivery
  import opened Effects
  import opened Owed

  ghost predicate OutsReadable(m: Mem, outs: seq<OutSlot>) {
    MemOk(m) && forall s :: s in outs ==> OutReadable(m, s)
  }

  ghost predicate StructsReadable(m: Mem, structs: seq<StructSlot>) {
    MemOk(m) && forall s :: s in structs ==> StructReadable(m, s)
  }

  /** The slots' objects are among those the invocation accounts for. */
  ghost predicate SlotsOwned(taken: set<nat>, outs: seq<OutSlot>, structs: seq<StructSlot>) {
    (forall s :: s in outs ==> s.obj in taken) && (forall s :: s in structs ==> s.obj in taken)
  }

  /** The entries of `outputs`. */
  function ReadOuts(env: Env, m: Mem, outs: seq<OutSlot>): (r: seq<(nat, ScriptVal)>)
    requires OutsReadable(m, outs)
    ensures |r| == |outs|
  {
    if outs == [] then []
    else
      var last := outs[|outs| - 1];
      assert last in outs;
      ReadOuts(env, m, outs[..|outs| - 1]) + [(last.index, OutValue(env, last.kind, m.objs[last.obj]))]
  }

  /** The entries of `struct_outputs`. */
  function ReadStructs(env: Env, m: Mem, structs: seq<StructSlot>): (r: seq<(nat, seq<ScriptVal>)>)
    requires StructsReadable(m, structs)
    ensures |r| == |structs|
  {
    if structs == [] then []
    else
      var last := structs[|structs| - 1];
      assert last in structs;
      ReadStructs(env, m, structs[..|structs| - 1])
        + [(last.index, ReadAll(env.fl, env.follow, last.layout, m.objs[last.obj].data))]
  }

  /** What the script must get back for argument `i`: the value its output variable or string holds. */
  ghost function OutputOf(c: Ctx, inputs: seq<Input>, seen: Snapshot, m: Mem, i: nat): seq<(nat, ScriptVal)>
    requires SoundDef(c.def) && i < |inputs| == |seen.cells| == Arity(c) && MemOk(m)
  {
    var p, target := MeaningAt(c, inputs, i), TargetAt(seen, i);
    if p.None? || target.None? || target.value !in m.objs then []
    else
      var o := m.objs[target.value];
      match p.value
      case PassOut(kind, _) =>
        if kind != OutText && |o.data| == KindSize(kind) then [(i, OutValue(c.env, kind, o))] else []
      case PassOutText(_) => [(i, OutValue(c.env, OutText, o))]
      case _ => []
  }

  ghost function OutputsUpTo(c: Ctx, inputs: seq<Input>, seen: Snapshot, m: Mem, k: nat): seq<(nat, ScriptVal)>
    requires SoundDef(c.def) && k <= |inputs| == |seen.cells| == Arity(c) && MemOk(m)
  {
    if k == 0 then [] else OutputsUpTo(c, inputs, seen, m, k - 1) + OutputOf(c, inputs, seen, m, k - 1)
  }

  /** What the script must get back for a struct passed by address: the declared fields of the bytes. */
  ghost function StructOutputOf(c: Ctx, inputs: seq<Input>, seen: Snapshot, m: Mem, i: nat): seq<(nat, seq<ScriptVal>)>
    requires SoundDef(c.def) && i < |inputs| == |seen.cells| == Arity(c)
  {
    var p, target := MeaningAt(c, inputs, i), TargetAt(seen, i);
    if p.None? || target.None? || target.value !in m.objs || !p.value.PassOutStruct? then []
    else
      var layout, bytes := p.value.layout, m.objs[target.value].data;
      if Spaced(layout) && |bytes| == layout.size then [(i, ReadAll(c.env.fl, c.env.follow, layout, bytes))] else []
  }

  ghost function StructOutputsUpTo(c: Ctx, inputs: seq<Input>, seen: Snapshot, m: Mem, k: nat)
    : seq<(nat, seq<ScriptVal>)>
    requires SoundDef(c.def) && k <= |inputs| == |seen.cells| == Arity(c)
  {
    if k == 0 then [] else StructOutputsUpTo(c, inputs, seen, m, k - 1) + StructOutputOf(c, inputs, seen, m, k - 1)
  }

  // -- readability -------------------------------------------------------------------------------------------------

  /** After the call the output variable of an argument is there and has its size. */
  ghost predicate OutputReadable(c: Ctx, inputs: seq<Input>, taken: set<nat>, f: Frame, seen: Snapshot, m: Mem, i: nat)
    requires SoundDef(c.def) && i < |inputs| == |seen.cells| == Arity(c) && |f.vals| == 2 * Arity(c)
  {
    && MeaningAt(c, inputs, i).Some?
    && var p, o := MeaningAt(c, inputs, i).value, ObjAt(f, i);
      && (p.PassOut? || p.PassOutText? || p.PassOutStruct? ==>
        && o.Some? && o.value in taken && o.value in m.objs && TargetAt(seen, i) == o)
      && (p.PassOut? ==> p.kind != OutText && |m.objs[o.value].data| == KindSize(p.kind))
      && (p.PassOutStruct? ==> Spaced(p.layout) && |m.objs[o.value].data| == p.layout.size)
  }

  lemma OutputStillReadable(c: Ctx, inputs: seq<Input>, base: nat, taken: set<nat>, f: Frame, e: Effect, m: Mem, i: nat)
    requires FrameOk(c, inputs, base, taken, f) && |inputs| == Arity(c) && AllFetchable(base, f) && i < Arity(c)
    requires Returned(c, inputs, SeenBy(base, f), e, m)
    ensures OutputReadable(c, inputs, taken, f, SeenBy(base, f), m, i)
  {
    var seen := SeenBy(base, f);
    TargetIsOwn(c, inputs, base, taken, f, i);
    OutputHasSize(c, inputs, base, taken, f, i);
    if TargetAt(seen, i).Some? {
      SizeKept(c, inputs, seen, e, m, i);
    }
    hide FrameOk, Returned, AllFetchable, MeaningAt, ObjAt, TargetAt, Spaced, LeftIn, Cut, Part, OutputString,
      IsOutputString;
  }

  lemma SizeKept(c: Ctx, inputs: seq<Input>, seen: Snapshot, e: Effect, m: Mem, i: nat)
    requires SoundDef(c.def) && i < |inputs| == |seen.cells| == Arity(c) && Returned(c, inputs, seen, e, m)
    requires TargetAt(seen, i).Some?
    ensures var o := TargetAt(seen, i).value;
      o in m.objs && (!IsOutputString(c, inputs, i) ==> |m.objs[o].data| == |seen.mem.objs[o].data|)
  {
    hide MeaningAt, Part, TargetAt;
  }

  lemma OutputHasSize(c: Ctx, inputs: seq<Input>, base: nat, taken: set<nat>, f: Frame, i: nat)
    requires FrameOk(c, inputs, base, taken, f) && i < |inputs|
    ensures MeaningAt(c, inputs, i).Some?
    ensures var p, o := MeaningAt(c, inputs, i).value, ObjAt(f, i);
      && (p.PassOut? || p.PassOutText? || p.PassOutStruct? ==> o.Some? && o.value in taken && o.value in f.mem.objs)
      && (p.PassOut? ==> p.kind != OutText && |f.mem.objs[o.value].data| == KindSize(p.kind))
      && (p.PassOutStruct? ==> Spaced(p.layout) && |f.mem.objs[o.value].data| == p.layout.size)
      && (p.PassOut? || p.PassOutStruct? ==> !IsOutputString(c, inputs, i))
  {
    assert ArgOk(c, inputs, base, f, i);
    assert ObjAt(f, i).Some? ==> ObjAt(f, i).value in taken;
    hide MeaningAt, FrameOk, Spaced;
  }

  lemma ReadOutsAppend(env: Env, m: Mem, outs: seq<OutSlot>, more: seq<OutSlot>)
    requires OutsReadable(m, outs) && OutsReadable(m, more) && |more| <= 1
    ensures OutsReadable(m, outs + more)
    ensures ReadOuts(env, m, outs + more) == ReadOuts(env, m, outs) + ReadOuts(env, m, more)
  {
    hide OutValue, OutReadable;
    if more == [] {
      assert outs + more == outs;
    } else {
      assert (outs + more)[..|outs|] == outs && more[..0] == [];
    }
  }

  lemma ReadStructsAppend(env: Env, m: Mem, structs: seq<StructSlot>, more: seq<StructSlot>)
    requires StructsReadable(m, structs) && StructsReadable(m, more) && |more| <= 1
    ensures StructsReadable(m, structs + more)
    ensures ReadStructs(env, m, structs + more) == ReadStructs(env, m, structs) + ReadStructs(env, m, more)
  {
    hide ReadAll, StructReadable;
    if more == [] {
      assert structs + more == structs;
    } else {
      assert (structs + more)[..|structs|] == structs && more[..0] == [];
    }
  }

  /** What one argument adds to the slots reads back as what it is owed. */
  ghost predicate SlotReads(c: Ctx, inputs: seq<Input>, taken: set<nat>, f: Frame, seen: Snapshot, m: Mem, i: nat)
    requires SoundDef(c.def) && i < |inputs| == |seen.cells| == Arity(c) && |f.vals| == 2 * Arity(c) && MemOk(m)
  {
    && MeaningAt(c, inputs, i).Some?
    && var p := MeaningAt(c, inputs, i).value;
      var outs, structs := OutFor(p, i, ObjAt(f, i)), StructFor(p, i, ObjAt(f, i));
      && OutsReadable(m, outs) && StructsReadable(m, structs) && SlotsOwned(taken, outs, structs)
      && ReadOuts(c.env, m, outs) == OutputOf(c, inputs, seen, m, i)
      && ReadStructs(c.env, m, structs) == StructOutputOf(c, inputs, seen, m, i)
  }

  lemma SlotReadsBack(c: Ctx, inputs: seq<Input>, base: nat, taken: set<nat>, f: Frame, e: Effect, m: Mem, i: nat)
    requires FrameOk(c, inputs, base, taken, f) && |inputs| == Arity(c) && AllFetchable(base, f) && i < Arity(c)
    requires Returned(c, inputs, SeenBy(base, f), e, m) && MemOk(m)
    ensures SlotReads(c, inputs, taken, f, SeenBy(base, f), m, i)
  {
    OutputStillReadable(c, inputs, base, taken, f, e, m, i);
    hide *;
    SlotReadsFrom(c, inputs, taken, f, SeenBy(base, f), m, i);
  }

  lemma SlotReadsFrom(c: Ctx, inputs: seq<Input>, taken: set<nat>, f: Frame, seen: Snapshot, m: Mem, i: nat)
    requires SoundDef(c.def) && i < |inputs| == |seen.cells| == Arity(c) && |f.vals| == 2 * Arity(c) && MemOk(m)
    requires OutputReadable(c, inputs, taken, f, seen, m, i)
    ensures SlotReads(c, inputs, taken, f, seen, m, i)
  {
    hide MeaningAt, OutValue, ReadAll, Spaced, ObjAt, TargetAt, SoundDef;
    var p, o := MeaningAt(c, inputs, i).value, ObjAt(f, i);
    var outs, structs := OutFor(p, i, o), StructFor(p, i, o);
    assert outs != [] ==> outs[..0] == [];
    assert structs != [] ==> structs[..0] == [];
  }

  /** The slots of the first `k` arguments read back as what the callee left. */
  lemma {:induction false} SlotsReadBack(c: Ctx, inputs: seq<Input>, taken: set<nat>, f: Frame, seen: Snapshot,
                                        m: Mem, k: nat)
    requires SoundDef(c.def) && k <= |inputs| == |seen.cells| == Arity(c) && |f.vals| == 2 * Arity(c) && MemOk(m)
    requires forall i :: 0 <= i < k ==> SlotReads(c, inputs, taken, f, seen, m, i)
    ensures var outs, structs := OutsOf(c, inputs, f, k), StructsOf(c, inputs, f, k);
      && OutsReadable(m, outs) && StructsReadable(m, structs) && SlotsOwned(taken, outs, structs)
      && ReadOuts(c.env, m, outs) == OutputsUpTo(c, inputs, seen, m, k)
      && ReadStructs(c.env, m, structs) == StructOutputsUpTo(c, inputs, seen, m, k)
  {
    hide MeaningAt, ObjAt, OutFor, StructFor, OutputOf, StructOutputOf, OutReadable, StructReadable, ReadOuts,
      ReadStructs, SoundDef, MemOk;
    if k == 0 {
      NothingToRead(c.env, m);
    } else {
      SlotsReadBack(c, inputs, taken, f, seen, m, k - 1);
      assert SlotReads(c, inputs, taken, f, seen, m, k - 1);
      var p, o := MeaningAt(c, inputs, k - 1).value, ObjAt(f, k - 1);
      OutForIsShort(p, k - 1, o);
      ReadOutsAppend(c.env, m, OutsOf(c, inputs, f, k - 1), OutFor(p, k - 1, o));
      ReadStructsAppend(c.env, m, StructsOf(c, inputs, f, k - 1), StructFor(p, k - 1, o));
    }
  }

  lemma NothingToRead(env: Env, m: Mem)
    requires MemOk(m)
    ensures OutsReadable(m, []) && ReadOuts(env, m, []) == []
    ensures StructsReadable(m, []) && ReadStructs(env, m, []) == []
  {
  }

  lemma OutForIsShort(p: Passed, i: nat, o: Option<nat>)
    ensures |OutFor(p, i, o)| <= 1 && |StructFor(p, i, o)| <= 1
  {
  }

  // -- one entry per argument something is owed for ---------------------------------------------------------

  function Indices<T>(entries: seq<(nat, T)>): (r: seq<nat>)
    ensures |r| == |entries|
  {
    seq(|entries|, a requires 0 <= a < |entries| => entries[a].0)
  }

  /** One entry per `*T` and `ocstr` argument pushed as a script value, in argument order. */
  ghost predicate ExactlyTheOutputs(c: Ctx, inputs: seq<Input>, outputs: seq<(nat, ScriptVal)>)
    requires |inputs| == Arity(c)
  {
    Exactly(Indices(outputs), OwedValues(c, inputs, Arity(c)))
  }

  /** One entry per `*{...}` argument pushed as field values, in argument order. */
  ghost predicate ExactlyTheStructs(c: Ctx, inputs: seq<Input>, structs: seq<(nat, seq<ScriptVal>)>)
    requires |inputs| == Arity(c)
  {
    Exactly(Indices(structs), OwedStructs(c, inputs, Arity(c)))
  }

  lemma {:induction false} ReadOutsKeepsIndices(env: Env, m: Mem, outs: seq<OutSlot>)
    requires OutsReadable(m, outs)
    ensures Indices(ReadOuts(env, m, outs)) == OutIndices(outs)
  {
    hide OutValue, OutReadable;
    if outs != [] {
      ReadOutsKeepsIndices(env, m, outs[..|outs| - 1]);
      assert OutIndices(outs) == OutIndices(outs[..|outs| - 1]) + [outs[|outs| - 1].index];
      assert Indices(ReadOuts(env, m, outs))
        == Indices(ReadOuts(env, m, outs[..|outs| - 1])) + [outs[|outs| - 1].index];
    }
  }

  lemma {:induction false} ReadStructsKeepsIndices(env: Env, m: Mem, structs: seq<StructSlot>)
    requires StructsReadable(m, structs)
    ensures Indices(ReadStructs(env, m, structs)) == StructIndices(structs)
  {
    hide ReadAll, StructReadable;
    if structs != [] {
      var front, last := structs[..|structs| - 1], structs[|structs| - 1];
      ReadStructsKeepsIndices(env, m, front);
      assert StructIndices(structs) == StructIndices(front) + [last.index];
      assert Indices(ReadStructs(env, m, structs)) == Indices(ReadStructs(env, m, front)) + [last.index];
    }
  }

  lemma {:induction false} ReadOutsConcat(env: Env, m: Mem, a: seq<OutSlot>, b: seq<OutSlot>)
    requires OutsReadable(m, a) && OutsReadable(m, b)
    ensures OutsReadable(m, a + b) && ReadOuts(env, m, a + b) == ReadOuts(env, m, a) + ReadOuts(env, m, b)
  {
    hide OutValue, OutReadable;
    if b == [] {
      assert a + b == a;
    } else {
      ReadOutsConcat(env, m, a, b[..|b| - 1]);
      assert (a + b)[..|a + b| - 1] == a + b[..|b| - 1];
    }
  }

  lemma {:induction false} ReadStructsConcat(env: Env, m: Mem, a: seq<StructSlot>, b: seq<StructSlot>)
    requires StructsReadable(m, a) && StructsReadable(m, b)
    ensures StructsReadable(m, a + b) && ReadStructs(env, m, a + b) == ReadStructs(env, m, a) + ReadStructs(env, m, b)
  {
    hide ReadAll, StructReadable;
    if b == [] {
      assert a + b == a;
    } else {
      ReadStructsConcat(env, m, a, b[..|b| - 1]);
      assert (a + b)[..|a + b| - 1] == a + b[..|b| - 1];
    }
  }

  // -- slots across a call ----------------------------------------------------------------------------------

  /** Every slot, old or new, can be read after the call. */
  lemma SlotsSurvive(c: Ctx, inputs: seq<Input>, base: nat, taken: set<nat>, f: Frame, e: Effect, m: Mem,
                     staleOuts: seq<OutSlot>, staleStructs: seq<StructSlot>)
    requires FrameOk(c, inputs, base, taken, f) && |inputs| == Arity(c) && AllFetchable(base, f)
    requires SlotsOk(c, inputs, f, taken, staleOuts, staleStructs)
    requires Returned(c, inputs, SeenBy(base, f), e, m) && MemOk(m)
    ensures OutsReadable(m, f.outs) && StructsReadable(m, f.structs) && SlotsOwned(taken, f.outs, f.structs)
    ensures OutsReadable(m, staleOuts) && StructsReadable(m, staleStructs)
    ensures ReadOuts(c.env, m, f.outs)
      == ReadOuts(c.env, m, staleOuts) + OutputsUpTo(c, inputs, SeenBy(base, f), m, Arity(c))
    ensures ReadStructs(c.env, m, f.structs)
      == ReadStructs(c.env, m, staleStructs) + StructOutputsUpTo(c, inputs, SeenBy(base, f), m, Arity(c))
  {
    hide FrameOk, Returned, AllFetchable, SlotReads, MeaningAt, OutsReadable, StructsReadable, ReadOuts, ReadStructs,
      StaleOk, ExactlyTheOutputs, OutsOf, StructsOf, OutputsUpTo, StructOutputsUpTo, SeenBy, SoundDef, CtxOk, MemOk;
    FrameShape(c, inputs, base, taken, f);
    var n, seen := Arity(c), SeenBy(base, f);
    StaleUnchanged(c, inputs, base, taken, f, e, m, staleOuts, staleStructs);
    forall i | 0 <= i < n
      ensures SlotReads(c, inputs, taken, f, seen, m, i)
    {
      SlotReadsBack(c, inputs, base, taken, f, e, m, i);
    }
    SlotsReadBack(c, inputs, taken, f, seen, m, n);
    ReadOutsConcat(c.env, m, staleOuts, OutsOf(c, inputs, f, n));
    ReadStructsConcat(c.env, m, staleStructs, StructsOf(c, inputs, f, n));
  }

  lemma StaleUnchanged(c: Ctx, inputs: seq<Input>, base: nat, taken: set<nat>, f: Frame, e: Effect, m: Mem,
                       staleOuts: seq<OutSlot>, staleStructs: seq<StructSlot>)
    requires FrameOk(c, inputs, base, taken, f) && |inputs| == Arity(c) && AllFetchable(base, f)
    requires StaleOk(f, |inputs|, taken, staleOuts, staleStructs)
    requires Returned(c, inputs, SeenBy(base, f), e, m) && MemOk(m)
    ensures OutsReadable(m, staleOuts) && StructsReadable(m, staleStructs) && SlotsOwned(taken, staleOuts, staleStructs)
  {
    forall i | 0 <= i < |inputs|
      ensures TargetAt(SeenBy(base, f), i).Some? ==> TargetAt(SeenBy(base, f), i) == ObjAt(f, i)
    {
      TargetIsOwn(c, inputs, base, taken, f, i);
    }
    hide FrameOk, AllFetchable, ObjAt, TargetAt, LeftIn, Cut, IsOutputString, Spaced;
    forall o | o in f.mem.objs && forall i :: 0 <= i < |inputs| ==> ObjAt(f, i) != Some(o)
      ensures m.objs[o] == f.mem.objs[o]
    {
      assert forall i :: 0 <= i < |inputs| ==> TargetAt(SeenBy(base, f), i) != Some(o);
    }
    hide Returned;
  }

  /** The slot lists read back as what earlier calls left followed by what this callee left; each is
      exactly what is owed for this call if and only if no earlier call left any slot of its kind. */
  ghost predicate SlotsRead(c: Ctx, inputs: seq<Input>, seen: Snapshot, m: Mem,
                            outs: seq<OutSlot>, structs: seq<StructSlot>,
                            staleOuts: seq<OutSlot>, staleStructs: seq<StructSlot>)
    requires SoundDef(c.def) && |inputs| == |seen.cells| == Arity(c)
  {
    && OutsReadable(m, outs) && StructsReadable(m, structs)
    && OutsReadable(m, staleOuts) && StructsReadable(m, staleStructs)
    && ReadOuts(c.env, m, outs) == ReadOuts(c.env, m, staleOuts) + OutputsUpTo(c, inputs, seen, m, Arity(c))
    && ReadStructs(c.env, m, structs)
      == ReadStructs(c.env, m, staleStructs) + StructOutputsUpTo(c, inputs, seen, m, Arity(c))
    && (ExactlyTheOutputs(c, inputs, ReadOuts(c.env, m, outs)) <==> staleOuts == [])
    && (ExactlyTheStructs(c, inputs, ReadStructs(c.env, m, structs)) <==> staleStructs == [])
  }

  /** Slots left by an earlier call make what is reported wrong, always. */
  lemma StaleSlotsSpoil(c: Ctx, inputs: seq<Input>, base: nat, taken: set<nat>, f: Frame, m: Mem,
                        staleOuts: seq<OutSlot>, staleStructs: seq<StructSlot>)
    requires FrameOk(c, inputs, base, taken, f) && |inputs| == Arity(c)
    requires SoundDef(c.def) && |f.vals| == 2 * |inputs| && SlotsOk(c, inputs, f, taken, staleOuts, staleStructs)
    requires OutsReadable(m, f.outs) && StructsReadable(m, f.structs)
    ensures ExactlyTheOutputs(c, inputs, ReadOuts(c.env, m, f.outs)) <==> staleOuts == []
    ensures ExactlyTheStructs(c, inputs, ReadStructs(c.env, m, f.structs)) <==> staleStructs == []
  {
    hide FrameOk, OutsReadable, StructsReadable, ReadOuts, ReadStructs, StaleOk, OutsOf, StructsOf, Exactly, SoundDef;
    var n := Arity(c);
    SlotsAreExact(c, inputs, base, taken, f, n);
    ReadOutsKeepsIndices(c.env, m, f.outs);
    ReadStructsKeepsIndices(c.env, m, f.structs);
    var outs, structs := OutsOf(c, inputs, f, n), StructsOf(c, inputs, f, n);
    assert OutIndices(f.outs) == OutIndices(staleOuts) + OutIndices(outs);
    assert StructIndices(f.structs) == StructIndices(staleStructs) + StructIndices(structs);
    StaleIndicesSpoil(OutIndices(staleOuts), OutIndices(outs), OwedValues(c, inputs, n));
    StaleIndicesSpoil(StructIndices(staleStructs), StructIndices(structs), OwedStructs(c, inputs, n));
    assert |OutIndices(staleOuts)| == |staleOuts| && |StructIndices(staleStructs)| == |staleStructs|;
  }

  /** After a call every slot reads back, and with the cells cleared the invocation is as after `prep`
      but for the slots it still holds. */
  lemma CallCompletes(c: Ctx, inputs: seq<Input>, base: nat, taken: set<nat>, f: Frame, e: Effect,
                      staleOuts: seq<OutSlot>, staleStructs: seq<StructSlot>)
    requires FrameOk(c, inputs, base, taken, f) && |inputs| == Arity(c) && AllFetchable(base, f)
    requires SoundDef(c.def) && |f.vals| == 2 * |inputs| && SlotsOk(c, inputs, f, taken, staleOuts, staleStructs)
    requires PartsFit(c, SeenBy(base, f), e)
    ensures var seen := SeenBy(base, f);
      var m := Finish(c, f, Foreign(c, seen, e, Arity(c)), Arity(c));
      var cleared := Frame([], [], m, f.outs, f.structs);
      && |seen.cells| == Arity(c) && Returned(c, inputs, seen, e, m)
      && SlotsRead(c, inputs, seen, m, f.outs, f.structs, staleOuts, staleStructs)
      && FrameOk(c, [], base, taken, cleared) && SlotsOk(c, [], cleared, taken, f.outs, f.structs)
      && Spared(f.mem, m, taken)
  {
    hide FrameOk, Returned, AllFetchable, OutsReadable, StructsReadable, ReadOuts, ReadStructs, SlotsOk, PartsFit,
      Spared, ExactlyTheOutputs, ExactlyTheStructs, OutputsUpTo, StructOutputsUpTo, SeenBy, SoundDef, CtxOk, MemOk,
      Finish, Foreign;
    FrameShape(c, inputs, base, taken, f);
    var seen := SeenBy(base, f);
    var m := Finish(c, f, Foreign(c, seen, e, Arity(c)), Arity(c));
    CallReturns(c, inputs, base, taken, f, e);
    ReturnedMemOk(c, inputs, base, taken, f, e);
    SlotsSurvive(c, inputs, base, taken, f, e, m, staleOuts, staleStructs);
    StaleSlotsSpoil(c, inputs, base, taken, f, m, staleOuts, staleStructs);
    TakenSurvives(c, inputs, base, taken, f, e, m);
    CallSpares(c, inputs, base, taken, f, e, m);
    ClearedIsOk(c, base, taken, Frame([], [], m, f.outs, f.structs));
  }

  lemma TakenSurvives(c: Ctx, inputs: seq<Input>, base: nat, taken: set<nat>, f: Frame, e: Effect, m: Mem)
    requires FrameOk(c, inputs, base, taken, f) && |inputs| == Arity(c) && AllFetchable(base, f)
    requires Returned(c, inputs, SeenBy(base, f), e, m)
    ensures taken <= m.objs.Keys
  {
    hide ArgOk, AllFetchable, CtxOk, MemOk;
  }

  lemma CallSpares(c: Ctx, inputs: seq<Input>, base: nat, taken: set<nat>, f: Frame, e: Effect, m: Mem)
    requires FrameOk(c, inputs, base, taken, f) && |inputs| == Arity(c) && AllFetchable(base, f)
    requires Returned(c, inputs, SeenBy(base, f), e, m)
    ensures Spared(f.mem, m, taken)
  {
    forall i | 0 <= i < |inputs|
      ensures TargetAt(SeenBy(base, f), i).Some? ==> TargetAt(SeenBy(base, f), i) == ObjAt(f, i)
    {
      TargetIsOwn(c, inputs, base, taken, f, i);
    }
    hide FrameOk, AllFetchable, ObjAt, TargetAt, LeftIn, Cut, IsOutputString;
    forall o | o in f.mem.objs && o !in taken
      ensures o in m.objs && m.objs[o] == f.mem.objs[o]
    {
      NotTakenMeansUnused(c, inputs, base, taken, f, o);
      assert forall i :: 0 <= i < |inputs| ==> TargetAt(SeenBy(base, f), i) != Some(o);
    }
  }

  lemma ClearedIsOk(c: Ctx, base: nat, taken: set<nat>, f: Frame)
    requires CtxOk(c) && MemOk(f.mem) && taken <= f.mem.objs.Keys && f.ptrs == [] && f.vals == []
    requires OutsReadable(f.mem, f.outs) && StructsReadable(f.mem, f.structs) && SlotsOwned(taken, f.outs, f.structs)
    ensures FrameOk(c, [], base, taken, f) && SlotsOk(c, [], f, taken, f.outs, f.structs)
  {
    hide OutReadable, StructReadable;
    assert f.outs + [] == f.outs && f.structs + [] == f.structs;
  }

  /** `ScriptResult`. */
  datatype ScriptResult = ScriptResult(
    returnVal: ScriptVal,
    returnStruct: Option<StructState>,
    outputs: seq<(nat, ScriptVal)>,
    structOutputs: seq<(nat, seq<ScriptVal>)>)

  /** What a script is told: the return register as a value of the declared type, the struct it points
      to, and the values the callee left for this call after those of the slots that were still there. */
  ghost predicate Reported(c: Ctx, inputs: seq<Input>, seen: Snapshot, m: Mem, ret: u64, r: ScriptResult,
                           staleOuts: seq<OutSlot>, staleStructs: seq<StructSlot>)
    requires SoundDef(c.def) && |inputs| == |seen.cells| == Arity(c)
  {
    && OutsReadable(m, staleOuts) && StructsReadable(m, staleStructs)
    && r.returnVal == ReturnValue(c.env, c.def.returnType, ret)
    && r.returnStruct == ReturnStruct(c.env, c.def.returnType, ret)
    && r.outputs == ReadOuts(c.env, m, staleOuts) + OutputsUpTo(c, inputs, seen, m, Arity(c))
    && r.structOutputs == ReadStructs(c.env, m, staleStructs) + StructOutputsUpTo(c, inputs, seen, m, Arity(c))
    && (ExactlyTheOutputs(c, inputs, r.outputs) <==> staleOuts == [])
    && (ExactlyTheStructs(c, inputs, r.structOutputs) <==> staleStructs == [])
  }

  lemma ReportedFrom(c: Ctx, inputs: seq<Input>, seen: Snapshot, m: Mem, ret: u64, outs: seq<OutSlot>,
                     structs: seq<StructSlot>, staleOuts: seq<OutSlot>, staleStructs: seq<StructSlot>)
    requires SoundDef(c.def) && |inputs| == |seen.cells| == Arity(c)
    requires SlotsRead(c, inputs, seen, m, outs, structs, staleOuts, staleStructs)
    ensures OutsReadable(m, outs) && StructsReadable(m, structs)
    ensures Reported(c, inputs, seen, m, ret,
      ScriptResult(ReturnValue(c.env, c.def.returnType, ret), ReturnStruct(c.env, c.def.returnType, ret),
        ReadOuts(c.env, m, outs), ReadStructs(c.env, m, structs)),
      staleOuts, staleStructs)
  {
    hide ExactlyTheOutputs, ExactlyTheStructs, ReadOuts, ReadStructs, OutputsUpTo, StructOutputsUpTo, OutsReadable,
      StructsReadable, SoundDef, ReturnValue, ReturnStruct;
  }

  /** With no slots left over, what is reported is what this callee left, and all that is owed. */
  lemma ReportedExactly(c: Ctx, inputs: seq<Input>, seen: Snapshot, m: Mem, ret: u64, r: ScriptResult)
    requires SoundDef(c.def) && |inputs| == |seen.cells| == Arity(c)
    requires Reported(c, inputs, seen, m, ret, r, [], [])
    ensures MemOk(m)
    ensures r.outputs == OutputsUpTo(c, inputs, seen, m, Arity(c)) && ExactlyTheOutputs(c, inputs, r.outputs)
    ensures r.structOutputs == StructOutputsUpTo(c, inputs, seen, m, Arity(c))
    ensures ExactlyTheStructs(c, inputs, r.structOutputs)
  {
    NothingToRead(c.env, m);
    hide ExactlyTheOutputs, ExactlyTheStructs, ReadOuts, ReadStructs, OutputsUpTo, StructOutputsUpTo, OutReadable,
      StructReadable, SoundDef, ReturnValue, ReturnStruct;
  }

  lemma DrainedIsOk(c: Ctx, base: nat, taken: set<nat>, f: Frame)
    requires FrameOk(c, [], base, taken, f)
    ensures var drained := f.(outs := [], structs := []);
      FrameOk(c, [], base, taken, drained) && SlotsOk(c, [], drained, taken, [], [])
  {
    hide CtxOk, MemOk;
  }

  // -- structs a callee leaves alone ------------------------------------------------------------------------

  /** A scripted struct passed by address that the callee leaves alone: the values given, wrapped to
      the field types, followed by zeros and nulls for the fields left out. */
  lemma UntouchedStructOutput(c: Ctx, inputs: seq<Input>, base: nat, taken: set<nat>, f: Frame, e: Effect, m: Mem,
                              i: nat, layout: StructType)
    requires FrameOk(c, inputs, base, taken, f) && |inputs| == Arity(c) && AllFetchable(base, f) && i < Arity(c)
    requires Returned(c, inputs, SeenBy(base, f), e, m)
    requires inputs[i].ScriptStruct? && c.def.argTypes[i] == Pointer(Struct(layout))
    requires Part(c, SeenBy(base, f), e, i) == []
    ensures Spaced(layout)
    ensures StructOutputOf(c, inputs, SeenBy(base, f), m, i) == [(i, WrappedFields(c.env, layout, inputs[i].vals))]
  {
    hide FrameOk, Returned, Spaced, ReadAll, FromScriptVals, MeaningAt, AllFetchable, SeenBy, TargetAt, Part, SoundDef,
      CtxOk;
    FrameShape(c, inputs, base, taken, f);
    ScriptedStruct(c, inputs, base, taken, f, i, layout);
    OutputStillReadable(c, inputs, base, taken, f, e, m, i);
    UntouchedVariable(c, inputs, base, taken, f, e, m, i);
    UntouchedStructReadsBack(c.env.fl, c.env.follow, layout, inputs[i].vals);
  }

  /** The fields of a struct built from `vals`, as a script reads them. */
  ghost function WrappedFields(env: Env, layout: StructType, vals: seq<ScriptVal>): seq<ScriptVal>
    requires Spaced(layout)
  {
    seq(|layout.fields|, j requires 0 <= j < |layout.fields| =>
      if j < |vals| then Echo(env.fl, env.follow, layout.fields[j].argType, vals[j])
      else ZeroValue(env.fl, layout.fields[j].argType))
  }

  lemma ScriptedStruct(c: Ctx, inputs: seq<Input>, base: nat, taken: set<nat>, f: Frame, i: nat, layout: StructType)
    requires FrameOk(c, inputs, base, taken, f) && i < |inputs|
    requires inputs[i].ScriptStruct? && c.def.argTypes[i] == Pointer(Struct(layout))
    ensures Spaced(layout) && FromScriptVals(c.env.fl, layout, inputs[i].vals).Some?
    ensures MeaningAt(c, inputs, i)
      == Some(PassOutStruct(layout, FromScriptVals(c.env.fl, layout, inputs[i].vals).value.bytes))
  {
    hide FrameOk, FromScriptVals, ScriptStructMeaning, CtxOk, ValidState, WfType;
    FrameShape(c, inputs, base, taken, f);
    OutHasObject(c, inputs, base, taken, f, i);
    ScriptStructByAddressCases(c.env, layout, inputs[i].vals);
  }

  // -- output variables a callee leaves alone ---------------------------------------------------------------

  /** The value a scripted `*T` argument starts with, as the script reads it back. */
  function InitialOutput(env: Env, target: ArgType, v: ScriptVal): ScriptVal {
    match target
    case Int(ty) => Integer(Wrap(I64, Wrap(ty, ScriptInt(env, v))))
    case F32 => Number(env.fl.widen(env.fl.narrow(ScriptFloat(env, v))))
    case F64 => Number(ScriptFloat(env, v))
    case _ => if v.Address? then FromPointer(v.bits) else Null
  }

  lemma OutEcho(env: Env, target: ArgType, v: ScriptVal, o: Obj)
    requires OutInit(env, target, v).Some? && OutInit(env, target, v).value.PassOut?
    requires o.data == OutInit(env, target, v).value.bytes && o.used <= |o.data|
    ensures var kind := OutInit(env, target, v).value.kind;
      kind != OutText && |o.data| == KindSize(kind) && OutValue(env, kind, o) == InitialOutput(env, target, v)
  {
    hide Encode, Decode, Wrap, Pow256, EncodeInt, DecodeInt, ScriptInt, ScriptFloat;
    Pow256Small(8);
    Pow256Small(4);
    match target {
      case Int(ty) => IntRoundTrip(ty, ScriptInt(env, v));
      case F32 => DecodeEncode(env.fl.narrow(ScriptFloat(env, v)), 4);
      case F64 => DecodeEncode(ScriptFloat(env, v), 8);
      case OpaquePointer => DecodeEncode(if v.Address? then v.bits else 0, 8);
    }
  }

  lemma UntouchedVariable(c: Ctx, inputs: seq<Input>, base: nat, taken: set<nat>, f: Frame, e: Effect, m: Mem, i: nat)
    requires FrameOk(c, inputs, base, taken, f) && |inputs| == Arity(c) && AllFetchable(base, f) && i < Arity(c)
    requires Returned(c, inputs, SeenBy(base, f), e, m) && Part(c, SeenBy(base, f), e, i) == []
    requires MeaningAt(c, inputs, i).Some?
    requires MeaningAt(c, inputs, i).value.PassOut? || MeaningAt(c, inputs, i).value.PassOutStruct?
    ensures TargetAt(SeenBy(base, f), i).Some? && TargetAt(SeenBy(base, f), i).value in m.objs
    ensures m.objs[TargetAt(SeenBy(base, f), i).value].data == MeaningAt(c, inputs, i).value.bytes
  {
    assert ArgOk(c, inputs, base, f, i);
    TargetIsOwn(c, inputs, base, taken, f, i);
    FetchedEntry(c, inputs, base, taken, f, i);
    hide FrameOk, MeaningAt, Part;
  }

  /** A scripted output variable that the callee leaves alone reports the value given, in the range of
      the declared type. */
  lemma UntouchedOutput(c: Ctx, inputs: seq<Input>, base: nat, taken: set<nat>, f: Frame, e: Effect, m: Mem, i: nat)
    requires FrameOk(c, inputs, base, taken, f) && |inputs| == Arity(c) && AllFetchable(base, f) && i < Arity(c)
    requires Returned(c, inputs, SeenBy(base, f), e, m) && MemOk(m) && Part(c, SeenBy(base, f), e, i) == []
    requires inputs[i].Script? && c.def.argTypes[i].Pointer?
    ensures OutputOf(c, inputs, SeenBy(base, f), m, i)
      == [(i, InitialOutput(c.env, c.def.argTypes[i].target, inputs[i].val))]
  {
    hide FrameOk, Returned, AllFetchable, MeaningAt, OutValue, InitialOutput, TargetAt, Part, OutInit, SeenBy, SoundDef,
      CtxOk, KindSize;
    FrameShape(c, inputs, base, taken, f);
    var target, v := c.def.argTypes[i].target, inputs[i].val;
    ScriptedVariable(c, inputs, base, taken, f, i);
    UntouchedVariable(c, inputs, base, taken, f, e, m, i);
    OutEcho(c.env, target, v, m.objs[TargetAt(SeenBy(base, f), i).value]);
  }

  lemma ScriptedVariable(c: Ctx, inputs: seq<Input>, base: nat, taken: set<nat>, f: Frame, i: nat)
    requires FrameOk(c, inputs, base, taken, f) && i < |inputs|
    requires inputs[i].Script? && c.def.argTypes[i].Pointer?
    ensures MeaningAt(c, inputs, i) == OutInit(c.env, c.def.argTypes[i].target, inputs[i].val)
    ensures MeaningAt(c, inputs, i).Some? && MeaningAt(c, inputs, i).value.PassOut?
  {
    assert ArgOk(c, inputs, base, f, i);
    OutInitIsOut(c.env, c.def.argTypes[i].target, inputs[i].val);
    hide OutInit, FrameOk;
  }

  // -- the return value -------------------------------------------------------------------------------------

  /** `call_scripted` on the return register. */
  function ReturnValue(env: Env, d: ArgType, ret: u64): ScriptVal {
    match d
    case Int(ty) => Integer(Wrap(I64, Wrap(ty, ret)))
    case F32 => Number(env.fl.widen(ret % 0x1_0000_0000))
    case F64 => Number(ret)
    case CString => if ret == 0 then Null else Str(env.follow(ret))
    case Pointer(Struct(_)) => if ret == 0 then Null else Nil
    case OpaquePointer | Pointer(_) => FromPointer(ret)
    case _ => Nil
  }

  /** For a `*{...}` result: a copy of the struct returned by address, read field by field like any other. */
  function ReturnStruct(env: Env, d: ArgType, ret: u64): Option<StructState> {
    match d
    case Pointer(Struct(st)) => if ret == 0 then None else Some(StructState(st, env.peek(ret, st.size), 0))
    case _ => None
  }

  lemma ReturnStructIsReadable(env: Env, d: ArgType, ret: u64)
    requires EnvOk(env) && WfType(d)
    ensures ReturnStruct(env, d, ret).Some? ==> ValidState(ReturnStruct(env, d, ret).value)
  {
    if d.Pointer? && d.target.Struct? {
      assert WfType(d.target);
      WfIsSpaced(d.target.layout);
    }
    hide Spaced, WfStruct;
  }

  /** A note on the table above: a null pointer is told apart from "no value" exactly when the declared
      type is not one of the buffer types, which return nothing to a script. */
  lemma NullMeansNullPointer(env: Env, d: ArgType, ret: u64)
    requires PointerLike(d)
    ensures ReturnValue(env, d, ret) == Null <==> ret == 0 && !(d.OCString? || d.ByteBuffer? || d.OByteBuffer?)
    ensures ReturnValue(env, d, ret) == Nil <==>
      d.OCString? || d.ByteBuffer? || d.OByteBuffer? || (d.Pointer? && d.target.Struct? && ret != 0)
  {
  }

  /** An integer result is the one number congruent to the return register modulo the declared width
      that lies in the declared range, or for `u64` in that of `i64`. */
  lemma ReturnIsRepresentative(env: Env, ty: IntType, ret: u64)
    ensures ReturnValue(env, Int(ty), ret).Integer?
    ensures var n := ReturnValue(env, Int(ty), ret).n;
      InRange(if ty.U64? then I64 else ty, n) && (n - ret) % Modulus(ty) == 0
  {
    var shown := if ty.U64? then I64 else ty;
    WrapIsTheRepresentative(shown, ret, Wrap(shown, ret));
    I64WrapsToItself(Integer(if ty.U64? then 0 else Wrap(ty, ret)));
    WrapThrough64(I64, ret);
    hide Wrap;
  }
}
