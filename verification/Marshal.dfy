/**
 The argument stack of an invocation as a value: which cell every argument pointer addresses, what
 the cells and the memory behind them hold, and what pre-processing, the callee and post-processing
 may change.
 */
module Marshal {
  import opened Wrappers
  import opened Types
  import opened StructBytes
  import opened Memory
  import opened Coercion
  import opened Signature

  /** An argument pointer: into the cell buffer at address `base`, or to the bytes of a struct copy. */
  datatype ArgPtr = Cell(base: nat, index: nat) | Data(p: Ptr)

  datatype OutSlot = OutSlot(index: nat, kind: OutKind, obj: nat)

  datatype StructSlot = StructSlot(index: nat, layout: StructType, obj: nat)

  datatype Frame = Frame(
    ptrs: seq<ArgPtr>,
    vals: seq<ArgVal>,
    mem: Mem,
    outs: seq<OutSlot>,
    structs: seq<StructSlot>)

  /** What stays fixed over the life of an invocation. */
  datatype Ctx = Ctx(env: Env, def: FuncDef)

  ghost predicate CtxOk(c: Ctx) {
    EnvOk(c.env) && SoundDef(c.def)
  }

  function Arity(c: Ctx): nat {
    |c.def.argTypes|
  }

  /** The first entry of argument `i`. */
  function Lo(f: Frame, i: nat): ArgVal
    requires 2 * i + 1 < |f.vals|
  {
    f.vals[2 * i]
  }

  /** The second entry of argument `i`. */
  function Hi(f: Frame, i: nat): ArgVal
    requires 2 * i + 1 < |f.vals|
  {
    f.vals[2 * i + 1]
  }

  /** The object an argument's entries own or point to. */
  function ObjOf(hi: ArgVal): Option<nat> {
    match hi
    case CStringVal(o) => Some(o)
    case RustString(o) => Some(o)
    case ByteVec(o) => Some(o)
    case StructVal(o) => Some(o)
    case PointerVal(At(o, _)) => Some(o)
    case _ => None
  }

  // -- the invariant ----------------------------------------------------------------------------------------------

  /** A borrowed or owned buffer whose current storage is what the first entry points to. */
  predicate PointsToOwn(lo: ArgVal, o: nat, mem: Mem) {
    o in mem.objs && lo == PointerVal(AddressOf(mem, o))
  }

  /** The two entries of an argument carry what it means. */
  ghost predicate Holds(p: Passed, lo: ArgVal, hi: ArgVal, mem: Mem) {
    match p
    case PassNum(v) => lo == v && hi == v && IsNumber(v)
    case PassRaw(bits) => lo == PointerVal(Raw(bits)) && hi == lo
    case PassText(bytes) => hi.CStringVal? && PointsToOwn(lo, hi.obj, mem) && mem.objs[hi.obj].data == bytes + [0]
    case PassStruct(bytes) => hi.StructVal? && hi.obj in mem.objs && mem.objs[hi.obj].data == bytes
    case PassString(h) => hi == RustString(h) && PointsToOwn(lo, h, mem)
    case PassBytes(h) => hi == ByteVec(h) && PointsToOwn(lo, h, mem)
    case PassBorrow(h, size) => hi == lo && PointsToOwn(lo, h, mem) && |mem.objs[h].data| == size
    case PassOutText(init) =>
      && hi.RustString? && PointsToOwn(lo, hi.obj, mem)
      && mem.objs[hi.obj].used == |init| <= |mem.objs[hi.obj].data|
      && mem.objs[hi.obj].data[..|init|] == init
    case PassOut(kind, bytes) =>
      && hi == lo && hi.PointerVal? && hi.p.At? && PointsToOwn(lo, hi.p.obj, mem)
      && mem.objs[hi.p.obj].data == bytes && |bytes| == KindSize(kind) && kind != OutText
    case PassOutStruct(layout, bytes) =>
      && hi == lo && hi.PointerVal? && hi.p.At? && PointsToOwn(lo, hi.p.obj, mem)
      && mem.objs[hi.p.obj].data == bytes && |bytes| == layout.size && Spaced(layout)
  }

  /** Where libffi finds the argument: buffers and texts in the first entry, the rest in the second,
      a struct by value at its bytes. */
  ghost predicate PtrOk(p: Passed, ptr: ArgPtr, base: nat, i: nat, hi: ArgVal, mem: Mem) {
    match p
    case PassStruct(_) => hi.StructVal? && hi.obj in mem.objs && ptr == Data(AddressOf(mem, hi.obj))
    case PassText(_) => ptr == Cell(base, 2 * i)
    case PassString(_) => ptr == Cell(base, 2 * i)
    case PassBytes(_) => ptr == Cell(base, 2 * i)
    case PassOutText(_) => ptr == Cell(base, 2 * i)
    case _ => ptr == Cell(base, 2 * i + 1)
  }

  ghost function MeaningAt(c: Ctx, inputs: seq<Input>, i: nat): Option<Passed>
    requires SoundDef(c.def) && i < |inputs| && i < Arity(c)
  {
    if !WfInput(inputs[i]) then None else Meaning(c.env, c.def.coerce, c.def.argTypes[i], inputs[i])
  }

  lemma ArgIsShaped(c: Ctx, inputs: seq<Input>, i: nat)
    requires SoundDef(c.def) && i < |inputs| && i < Arity(c)
    ensures ShapedIfAny(c.def.argTypes[i], MeaningAt(c, inputs, i))
  {
    if WfInput(inputs[i]) {
      MeaningIsShaped(c.env, c.def.coerce, c.def.argTypes[i], inputs[i]);
    }
    hide Meaning;
  }

  ghost predicate ArgOk(c: Ctx, inputs: seq<Input>, base: nat, f: Frame, i: nat)
    requires SoundDef(c.def) && i < |inputs| <= Arity(c) && |f.ptrs| == |inputs| && |f.vals| == 2 * |inputs|
  {
    var p := MeaningAt(c, inputs, i);
    && p.Some?
    && Holds(p.value, Lo(f, i), Hi(f, i), f.mem)
    && PtrOk(p.value, f.ptrs[i], base, i, Hi(f, i), f.mem)
  }

  function ObjAt(f: Frame, i: nat): Option<nat>
    requires 2 * i + 1 < |f.vals|
  {
    ObjOf(Hi(f, i))
  }

  /** No two arguments share an object, and all of them are accounted for in `taken`. */
  ghost predicate Apart(f: Frame, n: nat, taken: set<nat>)
    requires |f.vals| == 2 * n
  {
    && (forall i, j :: 0 <= i < j < n && ObjAt(f, i).Some? ==> ObjAt(f, i) != ObjAt(f, j))
    && (forall i :: 0 <= i < n && ObjAt(f, i).Some? ==> ObjAt(f, i).value in taken)
    && taken <= f.mem.objs.Keys
  }

  /** Every argument pushed so far is in place. */
  ghost predicate FrameOk(c: Ctx, inputs: seq<Input>, base: nat, taken: set<nat>, f: Frame) {
    var ctxOk, memOk := CtxOk(c), MemOk(f.mem);
    && ctxOk && memOk
    && |inputs| <= Arity(c)
    && |f.ptrs| == |inputs|
    && |f.vals| == 2 * |inputs|
    && (forall i :: 0 <= i < |inputs| ==> ArgOk(c, inputs, base, f, i))
    && var apart := Apart(f, |inputs|, taken);
    apart
  }

  lemma FrameShape(c: Ctx, inputs: seq<Input>, base: nat, taken: set<nat>, f: Frame)
    requires FrameOk(c, inputs, base, taken, f)
    ensures CtxOk(c) && SoundDef(c.def) && MemOk(f.mem)
    ensures |f.ptrs| == |inputs| <= Arity(c) && |f.vals| == 2 * |inputs|
  {
    hide ArgOk, Apart;
  }

  // -- slots ------------------------------------------------------------------------------------------------------

  /** The output slot an argument creates, if any. */
  function OutFor(p: Passed, i: nat, o: Option<nat>): seq<OutSlot> {
    match (p, o)
    case (PassOut(kind, _), Some(obj)) => [OutSlot(i, kind, obj)]
    case (PassOutText(_), Some(obj)) => [OutSlot(i, OutText, obj)]
    case _ => []
  }

  function StructFor(p: Passed, i: nat, o: Option<nat>): seq<StructSlot> {
    match (p, o)
    case (PassOutStruct(layout, _), Some(obj)) => [StructSlot(i, layout, obj)]
    case _ => []
  }

  /** The output slots of the first `k` arguments, in argument order. */
  ghost function OutsOf(c: Ctx, inputs: seq<Input>, f: Frame, k: nat): seq<OutSlot>
    requires SoundDef(c.def) && k <= |inputs| <= Arity(c) && |f.vals| == 2 * |inputs|
  {
    if k == 0 then []
    else
      var p := MeaningAt(c, inputs, k - 1);
      OutsOf(c, inputs, f, k - 1) + if p.Some? then OutFor(p.value, k - 1, ObjAt(f, k - 1)) else []
  }

  ghost function StructsOf(c: Ctx, inputs: seq<Input>, f: Frame, k: nat): seq<StructSlot>
    requires SoundDef(c.def) && k <= |inputs| <= Arity(c) && |f.vals| == 2 * |inputs|
  {
    if k == 0 then []
    else
      var p := MeaningAt(c, inputs, k - 1);
      StructsOf(c, inputs, f, k - 1) + if p.Some? then StructFor(p.value, k - 1, ObjAt(f, k - 1)) else []
  }

  /** A slot can still be read: its object is there and has the size of its kind. */
  ghost predicate OutReadable(mem: Mem, s: OutSlot) {
    s.obj in mem.objs && (s.kind != OutText ==> |mem.objs[s.obj].data| == KindSize(s.kind))
  }

  ghost predicate StructReadable(mem: Mem, s: StructSlot) {
    s.obj in mem.objs && Spaced(s.layout) && |mem.objs[s.obj].data| == s.layout.size
  }

  /** Slots left over from earlier calls, whose objects no current argument uses. */
  ghost predicate StaleOk(f: Frame, n: nat, taken: set<nat>, staleOuts: seq<OutSlot>, staleStructs: seq<StructSlot>)
    requires |f.vals| == 2 * n
  {
    && (forall s :: s in staleOuts ==> OutReadable(f.mem, s) && s.obj in taken)
    && (forall s :: s in staleStructs ==> StructReadable(f.mem, s) && s.obj in taken)
    && (forall s, i :: s in staleOuts && 0 <= i < n ==> ObjAt(f, i) != Some(s.obj))
    && (forall s, i :: s in staleStructs && 0 <= i < n ==> ObjAt(f, i) != Some(s.obj))
  }

  /** The slot lists are what earlier calls left plus one entry per output argument, in order. */
  ghost predicate SlotsOk(c: Ctx, inputs: seq<Input>, f: Frame, taken: set<nat>,
                          staleOuts: seq<OutSlot>, staleStructs: seq<StructSlot>)
    requires SoundDef(c.def) && |inputs| <= Arity(c) && |f.vals| == 2 * |inputs|
  {
    && f.outs == staleOuts + OutsOf(c, inputs, f, |inputs|)
    && f.structs == staleStructs + StructsOf(c, inputs, f, |inputs|)
    && var staleOk := StaleOk(f, |inputs|, taken, staleOuts, staleStructs);
    staleOk
  }

  // -- pushing ----------------------------------------------------------------------------------------------------

  /** Nothing that existed before has changed. */
  ghost predicate Grows(m: Mem, m': Mem) {
    MemOk(m') && forall o :: o in m.objs ==> o in m'.objs && m'.objs[o] == m.objs[o]
  }

  /** What one push does to the frame. */
  ghost predicate Extended(f: Frame, f': Frame, p: Passed, ptr: ArgPtr, lo: ArgVal, hi: ArgVal) {
    && f'.ptrs == f.ptrs + [ptr]
    && f'.vals == f.vals + [lo, hi]
    && var grows := Grows(f.mem, f'.mem);
    && grows
    && f'.outs == f.outs + OutFor(p, |f.ptrs|, ObjOf(hi))
    && f'.structs == f.structs + StructFor(p, |f.ptrs|, ObjOf(hi))
  }

  lemma HoldsGrows(p: Passed, lo: ArgVal, hi: ArgVal, m: Mem, m': Mem)
    requires Holds(p, lo, hi, m) && Grows(m, m')
    ensures Holds(p, lo, hi, m')
  {
  }

  lemma OldArgsKept(c: Ctx, inputs: seq<Input>, base: nat, taken: set<nat>, f: Frame, f': Frame,
                    input: Input, p: Passed, ptr: ArgPtr, lo: ArgVal, hi: ArgVal, i: nat)
    requires FrameOk(c, inputs, base, taken, f) && |inputs| < Arity(c) && i < |inputs|
    requires Extended(f, f', p, ptr, lo, hi)
    ensures ArgOk(c, inputs + [input], base, f', i)
    ensures ObjAt(f', i) == ObjAt(f, i)
    ensures MeaningAt(c, inputs + [input], i) == MeaningAt(c, inputs, i)
  {
    assert (inputs + [input])[i] == inputs[i];
    assert ArgOk(c, inputs, base, f, i);
    HoldsGrows(MeaningAt(c, inputs, i).value, Lo(f, i), Hi(f, i), f.mem, f'.mem);
  }

  /** A push whose entries carry the input's meaning keeps every invariant. */
  lemma PushKeeps(c: Ctx, inputs: seq<Input>, base: nat, taken: set<nat>, f: Frame, f': Frame,
                  input: Input, p: Passed, ptr: ArgPtr, lo: ArgVal, hi: ArgVal)
    requires FrameOk(c, inputs, base, taken, f) && |inputs| < Arity(c)
    requires Extended(f, f', p, ptr, lo, hi)
    requires MeaningAt(c, inputs + [input], |inputs|) == Some(p)
    requires Holds(p, lo, hi, f'.mem) && PtrOk(p, ptr, base, |inputs|, hi, f'.mem)
    requires ObjOf(hi).Some? ==> ObjOf(hi).value !in taken && ObjOf(hi).value in f'.mem.objs
    ensures FrameOk(c, inputs + [input], base,
      taken + (if ObjOf(hi).Some? then {ObjOf(hi).value} else {}), f')
  {
    hide MeaningAt, Holds, PtrOk;
    var n, inputs' := |inputs|, inputs + [input];
    forall i | 0 <= i < n
      ensures ArgOk(c, inputs', base, f', i) && ObjAt(f', i) == ObjAt(f, i)
    {
      OldArgsKept(c, inputs, base, taken, f, f', input, p, ptr, lo, hi, i);
    }
    assert Lo(f', n) == lo && Hi(f', n) == hi && f'.ptrs[n] == ptr;
    assert ArgOk(c, inputs', base, f', n);
  }

  lemma {:induction false} SlotsOfPrefix(c: Ctx, inputs: seq<Input>, base: nat, taken: set<nat>, f: Frame, f': Frame,
                                         input: Input, p: Passed, ptr: ArgPtr, lo: ArgVal, hi: ArgVal, k: nat)
    requires FrameOk(c, inputs, base, taken, f) && |inputs| < Arity(c) && k <= |inputs|
    requires Extended(f, f', p, ptr, lo, hi)
    ensures OutsOf(c, inputs + [input], f', k) == OutsOf(c, inputs, f, k)
    ensures StructsOf(c, inputs + [input], f', k) == StructsOf(c, inputs, f, k)
  {
    hide MeaningAt, ArgOk, ObjAt, OutFor, StructFor;
    if k > 0 {
      SlotsOfPrefix(c, inputs, base, taken, f, f', input, p, ptr, lo, hi, k - 1);
      OldArgsKept(c, inputs, base, taken, f, f', input, p, ptr, lo, hi, k - 1);
    }
  }

  lemma PushKeepsSlots(c: Ctx, inputs: seq<Input>, base: nat, taken: set<nat>, f: Frame, f': Frame,
                       input: Input, p: Passed, ptr: ArgPtr, lo: ArgVal, hi: ArgVal,
                       staleOuts: seq<OutSlot>, staleStructs: seq<StructSlot>)
    requires FrameOk(c, inputs, base, taken, f) && |inputs| < Arity(c)
    requires SlotsOk(c, inputs, f, taken, staleOuts, staleStructs)
    requires Extended(f, f', p, ptr, lo, hi)
    requires MeaningAt(c, inputs + [input], |inputs|) == Some(p)
    requires ObjOf(hi).Some? ==> ObjOf(hi).value !in taken
    ensures SlotsOk(c, inputs + [input], f', taken + (if ObjOf(hi).Some? then {ObjOf(hi).value} else {}),
      staleOuts, staleStructs)
  {
    hide MeaningAt, ArgOk, OutFor, StructFor;
    var n := |inputs|;
    SlotsOfPrefix(c, inputs, base, taken, f, f', input, p, ptr, lo, hi, n);
    assert Lo(f', n) == lo && Hi(f', n) == hi;
    assert (f.outs + OutFor(p, n, ObjOf(hi))) == staleOuts + (OutsOf(c, inputs, f, n) + OutFor(p, n, ObjOf(hi)));
    assert (f.structs + StructFor(p, n, ObjOf(hi)))
      == staleStructs + (StructsOf(c, inputs, f, n) + StructFor(p, n, ObjOf(hi)));
    forall i | 0 <= i < n
      ensures ObjAt(f', i) == ObjAt(f, i)
    {
      OldArgsKept(c, inputs, base, taken, f, f', input, p, ptr, lo, hi, i);
    }
  }

  function WithObject(taken: set<nat>, hi: ArgVal): set<nat> {
    if ObjOf(hi).Some? then taken + {ObjOf(hi).value} else taken
  }

  lemma PushKeepsAll(c: Ctx, inputs: seq<Input>, base: nat, taken: set<nat>, f: Frame, f': Frame,
                     input: Input, p: Passed, ptr: ArgPtr, lo: ArgVal, hi: ArgVal,
                     staleOuts: seq<OutSlot>, staleStructs: seq<StructSlot>)
    requires FrameOk(c, inputs, base, taken, f) && |inputs| < Arity(c)
    requires SlotsOk(c, inputs, f, taken, staleOuts, staleStructs)
    requires Extended(f, f', p, ptr, lo, hi)
    requires MeaningAt(c, inputs + [input], |inputs|) == Some(p)
    requires Holds(p, lo, hi, f'.mem) && PtrOk(p, ptr, base, |f.ptrs|, hi, f'.mem)
    requires ObjOf(hi).Some? ==> ObjOf(hi).value !in taken && ObjOf(hi).value in f'.mem.objs
    ensures FrameOk(c, inputs + [input], base, WithObject(taken, hi), f')
    ensures SlotsOk(c, inputs + [input], f', WithObject(taken, hi), staleOuts, staleStructs)
  {
    assert taken + {} == taken;
    PushKeeps(c, inputs, base, taken, f, f', input, p, ptr, lo, hi);
    PushKeepsSlots(c, inputs, base, taken, f, f', input, p, ptr, lo, hi, staleOuts, staleStructs);
    hide FrameOk, SlotsOk, Extended, Holds, PtrOk;
  }
}
