/**
 What the callee finds, what it may leave behind, and what the caller gets back.
 */
module Delivery {
  import opened Wrappers
  import opened Numbers
  import opened Types
  import opened Memory
  import opened Coercion
  import opened Signature
  import opened Marshal
  import opened Exchange

  /** What libffi reads through the argument pointers, and memory at that moment. */
  datatype Snapshot = Snapshot(cells: seq<ArgVal>, mem: Mem)

  /** The pointer designates a cell of the live buffer, or a live object. */
  predicate Fetchable(base: nat, f: Frame, ptr: ArgPtr) {
    match ptr
    case Cell(b, index) => b == base && index < |f.vals|
    case Data(p) => Live(f.mem, p)
  }

  function Fetch(base: nat, f: Frame, ptr: ArgPtr): ArgVal
    requires Fetchable(base, f, ptr)
  {
    match ptr
    case Cell(_, index) => f.vals[index]
    case Data(p) => StructVal(p.obj)
  }

  predicate AllFetchable(base: nat, f: Frame) {
    forall i :: 0 <= i < |f.ptrs| ==> Fetchable(base, f, f.ptrs[i])
  }

  function SeenBy(base: nat, f: Frame): (s: Snapshot)
    requires AllFetchable(base, f)
    ensures |s.cells| == |f.ptrs| && s.mem == f.mem
  {
    Snapshot(seq(|f.ptrs|, i requires 0 <= i < |f.ptrs| => Fetch(base, f, f.ptrs[i])), f.mem)
  }

  /** The object a cell points to, if its pointer is live. */
  function Target(cell: ArgVal, mem: Mem): (o: Option<nat>)
    ensures o.Some? ==> o.value in mem.objs
  {
    if cell.PointerVal? && Live(mem, cell.p) then Some(cell.p.obj) else None
  }

  /** The buffer length the callee goes by: a constant, or the argument it receives as number K. */
  function SeenLength(d: ArgType, cells: seq<ArgVal>): Option<nat> {
    if !d.OCString? && !d.OByteBuffer? then None
    else
      match d.length
      case NoLength => None
      case Fixed(n) => Some(n)
      case FromArg(k) =>
        if k < |cells| && cells[k].IntVal? && cells[k].n >= 0 then Some(cells[k].n) else None
  }

  /** An output string buffer: its text, then zeros, with room for `len` bytes and a NUL. */
  ghost predicate StringReady(o: Obj, init: seq<byte>, len: nat) {
    && o.used == |init| && |o.data| >= |init| + len + 1
    && o.data[..|init|] == init
    && forall b :: |init| <= b < |o.data| ==> o.data[b] == 0
  }

  /** A raw buffer behind a string: its text is kept and there is room for `len` more bytes. */
  ghost predicate RoomFor(o: Obj, init: seq<byte>, len: nat) {
    && o.used == |init| && |o.data| >= |init| + len
    && o.data[..|init|] == init
  }

  /** A byte vector of exactly `len` bytes: the old ones, then zeros. */
  ghost predicate SizedTo(o: Obj, init: seq<byte>, len: nat) {
    && o.used == len <= |o.data|
    && forall b :: 0 <= b < len ==> o.data[b] == if b < |init| then init[b] else 0
  }

  function Contents(o: Obj): seq<byte>
    requires o.used <= |o.data|
  {
    o.data[..o.used]
  }

  /** The caller's buffer or the invocation's own, ready for the callee. */
  ghost predicate BufferReady(d: ArgType, vector: bool, o: Obj, init: seq<byte>, len: Option<nat>) {
    if d.OCString? then len.Some? && StringReady(o, init, len.value)
    else if len.None? then o.used <= |o.data| && Contents(o) == init
    else if vector then SizedTo(o, init, len.value)
    else RoomFor(o, init, len.value)
  }

  /** Argument `i` reaches the callee with the meaning `p`; `before` is memory when `call` started. */
  ghost predicate Receives(d: ArgType, p: Passed, cells: seq<ArgVal>, i: nat, before: Mem, mem: Mem)
    requires i < |cells|
  {
    var cell, target := cells[i], Target(cells[i], mem);
    match p
    case PassNum(v) => cell == v
    case PassRaw(bits) => cell == PointerVal(Raw(bits))
    case PassText(bytes) => target.Some? && mem.objs[target.value].data == bytes + [0]
    case PassStruct(bytes) => cell.StructVal? && cell.obj in mem.objs && mem.objs[cell.obj].data == bytes
    case PassBorrow(h, size) =>
      && target == Some(h) && h in before.objs && mem.objs[h] == before.objs[h]
      && mem.objs[h].used <= |mem.objs[h].data| == size
    case PassOut(kind, bytes) => target.Some? && mem.objs[target.value].data == bytes
    case PassOutStruct(layout, bytes) => target.Some? && mem.objs[target.value].data == bytes
    case PassOutText(init) => target.Some? && BufferReady(d, false, mem.objs[target.value], init, SeenLength(d, cells))
    case PassString(h) =>
      && target == Some(h) && h in before.objs && before.objs[h].used <= |before.objs[h].data|
      && BufferReady(d, false, mem.objs[h], Contents(before.objs[h]), SeenLength(d, cells))
    case PassBytes(h) =>
      && target == Some(h) && h in before.objs && before.objs[h].used <= |before.objs[h].data|
      && BufferReady(d, true, mem.objs[h], Contents(before.objs[h]), SeenLength(d, cells))
  }

  /** Every argument reaches the callee with its meaning. */
  ghost predicate Delivered(c: Ctx, inputs: seq<Input>, before: Mem, seen: Snapshot)
    requires SoundDef(c.def)
  {
    && |inputs| == |seen.cells| == Arity(c)
    && forall i :: 0 <= i < Arity(c) ==>
      && MeaningAt(c, inputs, i).Some?
      && Receives(c.def.argTypes[i], MeaningAt(c, inputs, i).value, seen.cells, i, before, seen.mem)
  }

  lemma DeliveredShape(c: Ctx, inputs: seq<Input>, before: Mem, seen: Snapshot)
    requires SoundDef(c.def) && Delivered(c, inputs, before, seen)
    ensures |inputs| == |seen.cells| == Arity(c)
  {
  }

  // -- what libffi reads ------------------------------------------------------------------------------------------

  /** What libffi reads for the declared type is what is there: a number of that type, the whole bytes of
      a struct, an address. */
  predicate ReadFits(d: ArgType, cell: ArgVal, mem: Mem) {
    match d
    case Int(_) => Matches(d, cell)
    case F32 => Matches(d, cell)
    case F64 => Matches(d, cell)
    case Struct(st) => cell.StructVal? && cell.obj in mem.objs && |mem.objs[cell.obj].data| == st.size
    case Void => true
    case _ => cell.PointerVal?
  }

  predicate ReadsFit(c: Ctx, seen: Snapshot)
    requires |seen.cells| == Arity(c)
  {
    forall i :: 0 <= i < |seen.cells| ==> ReadFits(c.def.argTypes[i], seen.cells[i], seen.mem)
  }

  /** The pushed input is neither a dynamic struct of another size nor a variable read as a value. */
  predicate IsAsDeclared(d: ArgType, input: Input) {
    !IsOtherStruct(d, input) && (IsStrayVariable(d, input) ==> d.Void?)
  }

  predicate AllAsDeclared(c: Ctx, inputs: seq<Input>)
    requires |inputs| == Arity(c)
  {
    forall i :: 0 <= i < Arity(c) ==> IsAsDeclared(c.def.argTypes[i], inputs[i])
  }

  lemma ReadIsExact(c: Ctx, inputs: seq<Input>, before: Mem, seen: Snapshot, i: nat)
    requires SoundDef(c.def) && Delivered(c, inputs, before, seen) && i < Arity(c)
    ensures |inputs| == |seen.cells| == Arity(c)
    ensures ReadFits(c.def.argTypes[i], seen.cells[i], seen.mem) <==> IsAsDeclared(c.def.argTypes[i], inputs[i])
  {
    var d, p := c.def.argTypes[i], MeaningAt(c, inputs, i).value;
    assert Receives(d, p, seen.cells, i, before, seen.mem);
    MeaningIsWellShaped(c.env, c.def.coerce, d, inputs[i]);
    MeaningIsShaped(c.env, c.def.coerce, d, inputs[i]);
    StructsAreSized(c.env, c.def.coerce, d, inputs[i]);
    VariablesAreBorrowed(c.env, c.def.coerce, d, inputs[i]);
    if inputs[i].StructArg? {
      StructsStayStructs(c.env, c.def.coerce, d, inputs[i]);
    }
    hide Meaning, Delivered, BufferReady, SeenLength;
  }

  /** For every call that reaches libffi: it reads each argument as declared if and only if none is a
      dynamic struct of another size or a variable for a type that is no address. */
  lemma ReadsFitExactly(c: Ctx, inputs: seq<Input>, before: Mem, seen: Snapshot)
    requires SoundDef(c.def) && Delivered(c, inputs, before, seen)
    ensures |inputs| == |seen.cells| == Arity(c)
    ensures ReadsFit(c, seen) <==> AllAsDeclared(c, inputs)
  {
    DeliveredShape(c, inputs, before, seen);
    hide Delivered, ReadFits, IsAsDeclared, SoundDef;
    forall i | 0 <= i < Arity(c)
      ensures ReadFits(c.def.argTypes[i], seen.cells[i], seen.mem) <==> IsAsDeclared(c.def.argTypes[i], inputs[i])
    {
      ReadIsExact(c, inputs, before, seen, i);
    }
  }

  // -- delivery ---------------------------------------------------------------------------------------------------

  lemma FramePointersAreLive(c: Ctx, inputs: seq<Input>, base: nat, taken: set<nat>, f: Frame)
    requires FrameOk(c, inputs, base, taken, f)
    ensures AllFetchable(base, f)
  {
    hide MeaningAt, Holds;
    forall i | 0 <= i < |f.ptrs|
      ensures Fetchable(base, f, f.ptrs[i])
    {
      assert ArgOk(c, inputs, base, f, i);
    }
  }

  /** What is read through an argument pointer: the entry the meaning says. */
  lemma FetchedEntry(c: Ctx, inputs: seq<Input>, base: nat, taken: set<nat>, f: Frame, i: nat)
    requires FrameOk(c, inputs, base, taken, f) && i < |inputs|
    requires AllFetchable(base, f)
    ensures MeaningAt(c, inputs, i).Some?
    ensures var p, cell := MeaningAt(c, inputs, i).value, SeenBy(base, f).cells[i];
      && Holds(p, Lo(f, i), Hi(f, i), f.mem)
      && cell == (match p
        case PassStruct(_) => StructVal(Hi(f, i).obj)
        case PassText(_) => Lo(f, i)
        case PassString(_) => Lo(f, i)
        case PassBytes(_) => Lo(f, i)
        case PassOutText(_) => Lo(f, i)
        case _ => Hi(f, i))
  {
    hide MeaningAt;
    assert ArgOk(c, inputs, base, f, i);
  }

  /** The length a buffer was prepared for is the value the callee receives for its length argument. */
  lemma LengthAgreement(c: Ctx, inputs: seq<Input>, base: nat, taken: set<nat>, f0: Frame, f: Frame, i: nat)
    requires FrameOk(c, inputs, base, taken, f0) && FrameOk(c, inputs, base, taken, f)
    requires |inputs| == Arity(c) && i < Arity(c)
    requires PreparedUpTo(c, f0, f, Arity(c), Arity(c)) && AllFetchable(base, f)
    requires Problem(c.def.argTypes[i], f0.vals, i).None?
    ensures LengthOf(c.def.argTypes[i], f0.vals) == SeenLength(c.def.argTypes[i], SeenBy(base, f).cells)
  {
    assert |f.ptrs| == Arity(c);
    hide MeaningAt, PreparedUpTo, FrameOk, Holds;
    var d := c.def.argTypes[i];
    if (d.OCString? || d.OByteBuffer?) && d.length.FromArg? {
      var k := d.length.k;
      LengthArgAgrees(c, inputs, base, taken, f0, f, k);
    }
  }

  lemma LengthArgAgrees(c: Ctx, inputs: seq<Input>, base: nat, taken: set<nat>, f0: Frame, f: Frame, k: nat)
    requires FrameOk(c, inputs, base, taken, f0) && FrameOk(c, inputs, base, taken, f)
    requires |inputs| == Arity(c)
    requires PreparedUpTo(c, f0, f, Arity(c), Arity(c)) && AllFetchable(base, f)
    requires 2 * k + 1 < |f0.vals| && f0.vals[2 * k + 1].IntVal?
    ensures k < Arity(c) && SeenBy(base, f).cells[k] == f0.vals[2 * k + 1]
  {
    hide MeaningAt;
    assert ArgPrepared(c, f0, f, Arity(c), k);
    assert Hi(f0, k) == f0.vals[2 * k + 1];
    FetchedEntry(c, inputs, base, taken, f, k);
    assert ArgOk(c, inputs, base, f0, k);
  }

  lemma PreparedIsReady(env: Env, d: ArgType, hi: ArgVal, o: Obj, len: nat)
    requires EnvOk(env) && o.used <= |o.data| && Managed(d, hi).Some?
    ensures BufferReady(d, hi.ByteVec?, Prepared(env, d, hi, o, len), Contents(o), Some(len))
  {
    if d.OCString? {
      var grown := Reserve(env, o, len + 1);
      assert grown.data[..grown.used] == o.data[..o.used];
    } else if hi.ByteVec? {
      var init := Contents(o);
      assert forall b :: 0 <= b < o.used ==> init[b] == o.data[b];
    }
  }

  /** Refinement: once the buffers are prepared, every argument reaches the callee with its meaning. */
  lemma PreparedIsDelivered(c: Ctx, inputs: seq<Input>, base: nat, taken: set<nat>, f0: Frame, f: Frame)
    requires FrameOk(c, inputs, base, taken, f0) && FrameOk(c, inputs, base, taken, f)
    requires |inputs| == Arity(c)
    requires PreparedUpTo(c, f0, f, Arity(c), Arity(c)) && AllFetchable(base, f)
    requires forall i :: 0 <= i < Arity(c) ==> Problem(c.def.argTypes[i], f0.vals, i).None?
    ensures Delivered(c, inputs, f0.mem, SeenBy(base, f))
  {
    hide MeaningAt, Receives, PreparedUpTo;
    forall i | 0 <= i < Arity(c)
      ensures MeaningAt(c, inputs, i).Some?
      ensures Receives(c.def.argTypes[i], MeaningAt(c, inputs, i).value, SeenBy(base, f).cells, i, f0.mem, f.mem)
    {
      assert ArgOk(c, inputs, base, f0, i);
      ArgIsDelivered(c, inputs, base, taken, f0, f, i);
    }
    hide FrameOk;
  }

  lemma ArgIsDelivered(c: Ctx, inputs: seq<Input>, base: nat, taken: set<nat>, f0: Frame, f: Frame, i: nat)
    requires FrameOk(c, inputs, base, taken, f0) && FrameOk(c, inputs, base, taken, f)
    requires |inputs| == Arity(c) && i < Arity(c)
    requires PreparedUpTo(c, f0, f, Arity(c), Arity(c)) && AllFetchable(base, f)
    requires Problem(c.def.argTypes[i], f0.vals, i).None?
    ensures MeaningAt(c, inputs, i).Some?
    ensures Receives(c.def.argTypes[i], MeaningAt(c, inputs, i).value, SeenBy(base, f).cells, i, f0.mem, f.mem)
  {
    FetchedEntry(c, inputs, base, taken, f, i);
    var d, p := c.def.argTypes[i], MeaningAt(c, inputs, i).value;
    if BufferAt(c, f0, i).Some? {
      BufferIsDelivered(c, inputs, base, taken, f0, f, i);
    } else {
      BufferMeaningsAreManaged(c, inputs, base, taken, f0, i);
      if p.PassBorrow? {
        assert ArgOk(c, inputs, base, f0, i);
        UnmanagedUnchanged(c, inputs, base, taken, f0, f, Arity(c), i);
      }
      hide MeaningAt, FrameOk, PreparedUpTo, SeenLength;
    }
  }

  lemma BufferMeaningsAreManaged(c: Ctx, inputs: seq<Input>, base: nat, taken: set<nat>, f0: Frame, i: nat)
    requires FrameOk(c, inputs, base, taken, f0) && i < |inputs|
    ensures MeaningAt(c, inputs, i).Some?
    ensures var p := MeaningAt(c, inputs, i).value;
      && (BufferAt(c, f0, i).None? ==> !p.PassString? && !p.PassBytes? && !p.PassOutText?)
      && (BufferAt(c, f0, i).Some? ==> p.PassString? || p.PassBytes? || p.PassOutText?)
  {
    assert ArgOk(c, inputs, base, f0, i);
    ArgIsShaped(c, inputs, i);
    hide MeaningAt;
  }

  lemma BufferIsDelivered(c: Ctx, inputs: seq<Input>, base: nat, taken: set<nat>, f0: Frame, f: Frame, i: nat)
    requires FrameOk(c, inputs, base, taken, f0) && FrameOk(c, inputs, base, taken, f)
    requires |inputs| == Arity(c) && i < Arity(c)
    requires PreparedUpTo(c, f0, f, Arity(c), Arity(c)) && AllFetchable(base, f)
    requires Problem(c.def.argTypes[i], f0.vals, i).None?
    requires BufferAt(c, f0, i).Some?
    ensures MeaningAt(c, inputs, i).Some?
    ensures Receives(c.def.argTypes[i], MeaningAt(c, inputs, i).value, SeenBy(base, f).cells, i, f0.mem, f.mem)
  {
    hide MeaningAt, BufferReady, SeenLength, FrameOk, PreparedUpTo, LengthOf, Problem, BufferAt, AllFetchable, SoundDef,
      CtxOk, KindSize;
    FrameShape(c, inputs, base, taken, f0);
    FrameShape(c, inputs, base, taken, f);
    FetchedEntry(c, inputs, base, taken, f, i);
    BufferMeaningsAreManaged(c, inputs, base, taken, f0, i);
    BufferIsReady(c, inputs, base, taken, f0, f, i);
    BufferEntries(c, inputs, base, taken, f0, f, i);
  }

  /** The entries of a prepared buffer are those of its object. */
  lemma BufferEntries(c: Ctx, inputs: seq<Input>, base: nat, taken: set<nat>, f0: Frame, f: Frame, i: nat)
    requires FrameOk(c, inputs, base, taken, f0) && FrameOk(c, inputs, base, taken, f)
    requires |inputs| == Arity(c) && i < Arity(c)
    requires PreparedUpTo(c, f0, f, Arity(c), Arity(c))
    requires BufferAt(c, f0, i).Some?
    ensures var o := BufferAt(c, f0, i).value;
      && ObjOf(Hi(f, i)) == Some(o) && Hi(f, i) == Hi(f0, i) && !Hi(f, i).CStringVal? && !Hi(f, i).StructVal?
      && o in f.mem.objs && Lo(f, i) == PointerVal(AddressOf(f.mem, o))
      && (MeaningAt(c, inputs, i).Some? && MeaningAt(c, inputs, i).value.PassOutText? ==>
        Contents(f0.mem.objs[o]) == MeaningAt(c, inputs, i).value.init)
  {
    assert ArgPrepared(c, f0, f, Arity(c), i) && ArgOk(c, inputs, base, f0, i);
    BufferExists(c, inputs, base, taken, f0, i);
    hide MeaningAt, PreparedUpTo, FrameOk, LengthOf, Prepared;
  }

  /** And the object is ready for as many bytes as the callee will be told. */
  lemma BufferIsReady(c: Ctx, inputs: seq<Input>, base: nat, taken: set<nat>, f0: Frame, f: Frame, i: nat)
    requires FrameOk(c, inputs, base, taken, f0) && FrameOk(c, inputs, base, taken, f)
    requires |inputs| == Arity(c) && i < Arity(c)
    requires PreparedUpTo(c, f0, f, Arity(c), Arity(c)) && AllFetchable(base, f)
    requires Problem(c.def.argTypes[i], f0.vals, i).None?
    requires BufferAt(c, f0, i).Some?
    ensures var d, o := c.def.argTypes[i], BufferAt(c, f0, i).value;
      && o in f0.mem.objs && o in f.mem.objs && f0.mem.objs[o].used <= |f0.mem.objs[o].data|
      && BufferReady(d, Hi(f0, i).ByteVec?, f.mem.objs[o], Contents(f0.mem.objs[o]),
        SeenLength(d, SeenBy(base, f).cells))
  {
    var d, o := c.def.argTypes[i], BufferAt(c, f0, i).value;
    BufferExists(c, inputs, base, taken, f0, i);
    LengthAgreement(c, inputs, base, taken, f0, f, i);
    assert ArgPrepared(c, f0, f, Arity(c), i);
    if LengthOf(d, f0.vals).Some? {
      PreparedIsReady(c.env, d, Hi(f0, i), f0.mem.objs[o], LengthOf(d, f0.vals).value);
    } else {
      NoLengthMeansKept(d, f0.vals, i, Hi(f0, i), f0.mem.objs[o]);
    }
    hide FrameOk, PreparedUpTo, LengthOf, BufferReady, Prepared, Problem, SeenLength;
  }

  lemma NoLengthMeansKept(d: ArgType, vals: seq<ArgVal>, i: nat, hi: ArgVal, o: Obj)
    requires Problem(d, vals, i).None? && LengthOf(d, vals).None? && Managed(d, hi).Some?
    requires o.used <= |o.data|
    ensures BufferReady(d, hi.ByteVec?, o, Contents(o), None)
  {
  }
}
