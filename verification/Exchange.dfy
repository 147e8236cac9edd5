/**
 One foreign call on a filled argument stack: output buffers are prepared, the callee reads every
 argument through its pointer and writes where it may, and output strings are cut at their NUL.
 */
module Exchange {
  import opened Wrappers
  import opened Types
  import opened StructBytes
  import opened Memory
  import opened Coercion
  import opened Signature
  import opened Marshal

  datatype CallError =
    | TooFewArguments
    | LengthArgNotInteger(k: nat)
    | LengthMissing(i: nat)
    | LengthNegative
    | LengthTooLarge

  const MAX_OUTPUT_BUFFER: nat := 256 * 1024 * 1024

  // -- lengths ----------------------------------------------------------------------------------------------------

  function CheckLength(n: int): Result<Option<nat>, CallError> {
    if n < 0 then Err(LengthNegative)
    else if n > MAX_OUTPUT_BUFFER then Err(LengthTooLarge)
    else Ok(Some(n))
  }

  /** `resolve_length`: read the second entry of the length argument. */
  function ResolveLength(vals: seq<ArgVal>, length: LengthDef): Result<Option<nat>, CallError> {
    match length
    case NoLength => Ok(None)
    case Fixed(n) => CheckLength(n)
    case FromArg(k) =>
      if 2 * k + 1 < |vals| && vals[2 * k + 1].IntVal? then CheckLength(vals[2 * k + 1].n)
      else Err(LengthArgNotInteger(k))
  }

  /** Why argument `i` of type `d` cannot be prepared, if so. */
  function Problem(d: ArgType, vals: seq<ArgVal>, i: nat): Option<CallError> {
    match d
    case OCString(length) =>
      (match ResolveLength(vals, length)
       case Err(e) => Some(e)
       case Ok(None) => Some(LengthMissing(i))
       case Ok(Some(_)) => None)
    case OByteBuffer(length) =>
      (match ResolveLength(vals, length)
       case Err(e) => Some(e)
       case Ok(_) => None)
    case _ => None
  }

  /** The failure pre-processing stops at, from argument `i` on. */
  function FirstProblem(c: Ctx, vals: seq<ArgVal>, i: nat): Option<CallError>
    requires i <= Arity(c)
    decreases Arity(c) - i
  {
    if i == Arity(c) then None
    else
      var e := Problem(c.def.argTypes[i], vals, i);
      if e.Some? then e else FirstProblem(c, vals, i + 1)
  }

  /** The argument it stops at, or the number of arguments. */
  function FailingAt(c: Ctx, vals: seq<ArgVal>, i: nat): (k: nat)
    requires i <= Arity(c)
    ensures i <= k <= Arity(c)
    ensures k < Arity(c) <==> FirstProblem(c, vals, i).Some?
    ensures k < Arity(c) ==> Problem(c.def.argTypes[k], vals, k) == FirstProblem(c, vals, i)
    decreases Arity(c) - i
  {
    if i == Arity(c) || Problem(c.def.argTypes[i], vals, i).Some? then i else FailingAt(c, vals, i + 1)
  }

  /** The resolved length of an output buffer. */
  function LengthOf(d: ArgType, vals: seq<ArgVal>): Option<nat> {
    match d
    case OCString(length) => ResolvedOr(ResolveLength(vals, length))
    case OByteBuffer(length) => ResolvedOr(ResolveLength(vals, length))
    case _ => None
  }

  function ResolvedOr(r: Result<Option<nat>, CallError>): Option<nat> {
    match r
    case Ok(n) => n
    case Err(_) => None
  }

  // -- preparing the output buffers ---------------------------------------------------------------------------------

  /** The buffer object pre-processing works on, if the argument is one it manages. */
  function Managed(d: ArgType, hi: ArgVal): Option<nat> {
    match (d, hi)
    case (OCString(_), RustString(o)) => Some(o)
    case (OByteBuffer(_), RustString(o)) => Some(o)
    case (OByteBuffer(_), ByteVec(o)) => Some(o)
    case _ => None
  }

  /** A buffer made ready for a callee that may write `len` bytes. */
  function Prepared(env: Env, d: ArgType, hi: ArgVal, o: Obj, len: nat): (r: Obj)
    requires EnvOk(env) && o.used <= |o.data|
    ensures r.used <= |r.data|
  {
    if d.OCString? then ZeroSpare(Reserve(env, o, len + 1))
    else if hi.RustString? then Reserve(env, o, len)
    else Resize(env, o, len)
  }

  /** Pre-processing of one argument: the buffer is made ready and its first entry re-pointed. */
  function PrepareArg(c: Ctx, f: Frame, i: nat): Frame
    requires CtxOk(c) && MemOk(f.mem) && i < Arity(c) && 2 * i + 1 < |f.vals|
  {
    var d := c.def.argTypes[i];
    match (Managed(d, Hi(f, i)), LengthOf(d, f.vals))
    case (Some(o), Some(len)) =>
      if o !in f.mem.objs then f
      else
        var ready := Prepared(c.env, d, Hi(f, i), f.mem.objs[o], len);
        f.(vals := f.vals[2 * i := PointerVal(At(o, ready.gen))], mem := f.mem.(objs := f.mem.objs[o := ready]))
    case _ => f
  }

  /** The managed buffer of argument `i`. */
  function BufferAt(c: Ctx, f: Frame, i: nat): Option<nat>
    requires i < Arity(c) && 2 * i + 1 < |f.vals|
  {
    Managed(c.def.argTypes[i], Hi(f, i))
  }

  /** What pre-processing has done to the frame `f0` once it got to argument `k`. */
  ghost predicate PreparedUpTo(c: Ctx, f0: Frame, f: Frame, n: nat, k: nat) {
    && CtxOk(c) && MemOk(f0.mem) && MemOk(f.mem)
    && k <= n <= Arity(c) && |f0.vals| == |f.vals| == 2 * n
    && f.ptrs == f0.ptrs && f.outs == f0.outs && f.structs == f0.structs
    && f.mem.objs.Keys == f0.mem.objs.Keys && f.mem.next == f0.mem.next
    && (forall i :: 0 <= i < n ==> ArgPrepared(c, f0, f, k, i))
    && (forall o :: o in f0.mem.objs && (forall i :: 0 <= i < k ==> BufferAt(c, f0, i) != Some(o)) ==>
      f.mem.objs[o] == f0.mem.objs[o])
  }

  ghost predicate ArgPrepared(c: Ctx, f0: Frame, f: Frame, k: nat, i: nat)
    requires CtxOk(c) && MemOk(f0.mem) && i < Arity(c) && 2 * i + 1 < |f0.vals| == |f.vals|
  {
    var d, o := c.def.argTypes[i], BufferAt(c, f0, i);
    && Hi(f, i) == Hi(f0, i)
    && if i < k && o.Some? && LengthOf(d, f0.vals).Some? then
      && o.value in f0.mem.objs && o.value in f.mem.objs
      && f.mem.objs[o.value] == Prepared(c.env, d, Hi(f0, i), f0.mem.objs[o.value], LengthOf(d, f0.vals).value)
      && Lo(f, i) == PointerVal(AddressOf(f.mem, o.value))
    else
      && Lo(f, i) == Lo(f0, i)
      && (o.Some? && o.value in f0.mem.objs && o.value in f.mem.objs ==> f.mem.objs[o.value] == f0.mem.objs[o.value])
  }

  /** Lengths are read from second entries, which pre-processing never rewrites. */
  lemma LengthsUnchanged(c: Ctx, f0: Frame, f: Frame, n: nat, k: nat, d: ArgType, i: nat)
    requires PreparedUpTo(c, f0, f, n, k)
    ensures LengthOf(d, f.vals) == LengthOf(d, f0.vals) && Problem(d, f.vals, i) == Problem(d, f0.vals, i)
  {
    forall j | 0 <= j < n
      ensures f.vals[2 * j + 1] == f0.vals[2 * j + 1]
    {
      assert ArgPrepared(c, f0, f, k, j);
      assert Hi(f, j) == Hi(f0, j);
    }
    SecondEntriesDecide(f.vals, f0.vals, n, d, i);
  }

  lemma SecondEntriesDecide(vals: seq<ArgVal>, vals0: seq<ArgVal>, n: nat, d: ArgType, i: nat)
    requires |vals| == |vals0| == 2 * n && forall j :: 0 <= j < n ==> vals[2 * j + 1] == vals0[2 * j + 1]
    ensures LengthOf(d, vals) == LengthOf(d, vals0) && Problem(d, vals, i) == Problem(d, vals0, i)
  {
    var length := if d.OCString? || d.OByteBuffer? then d.length else NoLength;
    if length.FromArg? && 2 * length.k + 1 < |vals| {
      assert vals[2 * length.k + 1] == vals0[2 * length.k + 1];
    }
    assert ResolveLength(vals, length) == ResolveLength(vals0, length);
  }

  lemma BuffersAreApart(c: Ctx, inputs: seq<Input>, base: nat, taken: set<nat>, f0: Frame, i: nat, j: nat)
    requires FrameOk(c, inputs, base, taken, f0) && i < j < |inputs| && BufferAt(c, f0, i).Some?
    ensures BufferAt(c, f0, i) != BufferAt(c, f0, j)
  {
    hide ArgOk;
    assert ObjAt(f0, i) == BufferAt(c, f0, i);
    assert BufferAt(c, f0, j).Some? ==> ObjAt(f0, j) == BufferAt(c, f0, j);
  }

  lemma BufferExists(c: Ctx, inputs: seq<Input>, base: nat, taken: set<nat>, f0: Frame, i: nat)
    requires FrameOk(c, inputs, base, taken, f0) && i < |inputs| && BufferAt(c, f0, i).Some?
    ensures BufferAt(c, f0, i).value in f0.mem.objs && ObjAt(f0, i) == BufferAt(c, f0, i)
    ensures Lo(f0, i) == PointerVal(AddressOf(f0.mem, BufferAt(c, f0, i).value))
  {
    hide MeaningAt;
    assert ArgOk(c, inputs, base, f0, i);
  }

  /** What the step on argument `k` changes: its own buffer and its own first entry. */
  lemma PrepareArgEffect(c: Ctx, inputs: seq<Input>, base: nat, taken: set<nat>, f0: Frame, f: Frame, k: nat)
    requires FrameOk(c, inputs, base, taken, f0) && k < |inputs|
    requires PreparedUpTo(c, f0, f, |inputs|, k)
    ensures var f', d, o := PrepareArg(c, f, k), c.def.argTypes[k], BufferAt(c, f0, k);
      && MemOk(f'.mem) && |f'.vals| == |f.vals|
      && f'.ptrs == f.ptrs && f'.outs == f.outs && f'.structs == f.structs
      && f'.mem.objs.Keys == f.mem.objs.Keys && f'.mem.next == f.mem.next
      && (forall x :: 0 <= x < |f.vals| && x != 2 * k ==> f'.vals[x] == f.vals[x])
      && (forall x :: x in f.mem.objs && o != Some(x) ==> f'.mem.objs[x] == f.mem.objs[x])
      && (if o.Some? && LengthOf(d, f0.vals).Some? then
            && o.value in f0.mem.objs
            && f'.mem.objs[o.value] == Prepared(c.env, d, Hi(f0, k), f0.mem.objs[o.value], LengthOf(d, f0.vals).value)
            && Lo(f', k) == PointerVal(AddressOf(f'.mem, o.value))
          else f' == f)
  {
    hide LengthOf, Prepared, MeaningAt, ArgOk, Apart, EnvOk, SoundDef;
    LengthsUnchanged(c, f0, f, |inputs|, k, c.def.argTypes[k], k);
    assert ArgPrepared(c, f0, f, k, k);
    if BufferAt(c, f0, k).Some? {
      BufferExists(c, inputs, base, taken, f0, k);
    }
  }

  lemma PrepareStepArg(c: Ctx, inputs: seq<Input>, base: nat, taken: set<nat>, f0: Frame, f: Frame, k: nat, i: nat)
    requires FrameOk(c, inputs, base, taken, f0) && k < |inputs| && i < |inputs|
    requires PreparedUpTo(c, f0, f, |inputs|, k)
    ensures |PrepareArg(c, f, k).vals| == |f.vals|
    ensures ArgPrepared(c, f0, PrepareArg(c, f, k), k + 1, i)
  {
    hide FrameOk, LengthOf, Prepared, PrepareArg, BufferAt, CtxOk, MemOk;
    FrameShape(c, inputs, base, taken, f0);
    assert ArgPrepared(c, f0, f, k, i);
    PrepareArgEffect(c, inputs, base, taken, f0, f, k);
    var o := BufferAt(c, f0, k);
    if o.Some? && i < k && BufferAt(c, f0, i).Some? {
      BuffersAreApart(c, inputs, base, taken, f0, i, k);
    }
    if o.Some? && k < i {
      BuffersAreApart(c, inputs, base, taken, f0, k, i);
    }
  }

  /** One more argument. */
  lemma PrepareStep(c: Ctx, inputs: seq<Input>, base: nat, taken: set<nat>, f0: Frame, f: Frame, k: nat)
    requires FrameOk(c, inputs, base, taken, f0) && k < |inputs|
    requires PreparedUpTo(c, f0, f, |inputs|, k)
    ensures PreparedUpTo(c, f0, PrepareArg(c, f, k), |inputs|, k + 1)
  {
    hide FrameOk, ArgPrepared, PrepareArg, BufferAt, Prepared, LengthOf, ArgOk, Apart, CtxOk;
    FrameShape(c, inputs, base, taken, f0);
    PrepareArgEffect(c, inputs, base, taken, f0, f, k);
    var n, f', next := |inputs|, PrepareArg(c, f, k), k + 1;
    forall i | 0 <= i < n
      ensures ArgPrepared(c, f0, f', next, i)
    {
      PrepareStepArg(c, inputs, base, taken, f0, f, k, i);
    }
    forall x | x in f0.mem.objs && forall i :: 0 <= i < next ==> BufferAt(c, f0, i) != Some(x)
      ensures f'.mem.objs[x] == f0.mem.objs[x]
    {
      assert BufferAt(c, f0, k) != Some(x);
      assert forall i :: 0 <= i < k ==> BufferAt(c, f0, i) != Some(x);
    }
  }

  /** At any point of pre-processing the frame still carries every meaning. */
  lemma PreparedKeepsFrame(c: Ctx, inputs: seq<Input>, base: nat, taken: set<nat>, f0: Frame, f: Frame, k: nat)
    requires FrameOk(c, inputs, base, taken, f0) && PreparedUpTo(c, f0, f, |inputs|, k)
    ensures FrameOk(c, inputs, base, taken, f)
  {
    forall i | 0 <= i < |inputs|
      ensures ArgOk(c, inputs, base, f, i) && ObjAt(f, i) == ObjAt(f0, i)
    {
      PreparedKeepsArg(c, inputs, base, taken, f0, f, k, i);
    }
    hide ArgOk, ArgPrepared, ObjAt;
  }

  lemma PreparedKeepsArg(c: Ctx, inputs: seq<Input>, base: nat, taken: set<nat>, f0: Frame, f: Frame, k: nat, i: nat)
    requires FrameOk(c, inputs, base, taken, f0) && PreparedUpTo(c, f0, f, |inputs|, k) && i < |inputs|
    ensures ArgOk(c, inputs, base, f, i) && ObjAt(f, i) == ObjAt(f0, i)
  {
    hide MeaningAt, Holds, LengthOf, Prepared;
    assert ArgOk(c, inputs, base, f0, i) && ArgPrepared(c, f0, f, k, i);
    var d, p := c.def.argTypes[i], MeaningAt(c, inputs, i).value;
    if BufferAt(c, f0, i).Some? && i < k && LengthOf(d, f0.vals).Some? {
      BufferExists(c, inputs, base, taken, f0, i);
      ArgIsShaped(c, inputs, i);
      ManagedHolds(c.env, d, p, Lo(f0, i), Hi(f0, i), f0.mem, f.mem, LengthOf(d, f0.vals).value);
    } else {
      if ObjAt(f0, i).Some? {
        if BufferAt(c, f0, i).Some? {
          BufferExists(c, inputs, base, taken, f0, i);
        } else {
          UnmanagedUnchanged(c, inputs, base, taken, f0, f, k, i);
        }
      }
      SameObjectHolds(p, Lo(f0, i), Hi(f0, i), f0.mem, f.mem);
    }
  }

  /** Preparing a buffer keeps what it carries; the entry must be re-pointed. */
  lemma ManagedHolds(env: Env, d: ArgType, p: Passed, lo: ArgVal, hi: ArgVal, m: Mem, m': Mem, len: nat)
    requires EnvOk(env) && MemOk(m) && Holds(p, lo, hi, m) && Managed(d, hi).Some?
    requires var o := Managed(d, hi).value;
      o in m.objs && o in m'.objs && m'.objs[o] == Prepared(env, d, hi, m.objs[o], len)
    requires p.PassOutText? ==> d.OCString?
    ensures Holds(p, PointerVal(AddressOf(m', Managed(d, hi).value)), hi, m')
  {
  }

  lemma SameObjectHolds(p: Passed, lo: ArgVal, hi: ArgVal, m: Mem, m': Mem)
    requires Holds(p, lo, hi, m)
    requires ObjOf(hi).Some? ==>
      var o := ObjOf(hi).value; o in m.objs && o in m'.objs && m'.objs[o] == m.objs[o]
    ensures Holds(p, lo, hi, m')
  {
  }

  lemma UnmanagedUnchanged(c: Ctx, inputs: seq<Input>, base: nat, taken: set<nat>, f0: Frame, f: Frame, k: nat, i: nat)
    requires FrameOk(c, inputs, base, taken, f0) && PreparedUpTo(c, f0, f, |inputs|, k) && i < |inputs|
    requires BufferAt(c, f0, i).None? && ObjAt(f0, i).Some?
    ensures ObjAt(f0, i).value in f0.mem.objs && f.mem.objs[ObjAt(f0, i).value] == f0.mem.objs[ObjAt(f0, i).value]
  {
    hide MeaningAt, ArgOk;
    var o := ObjAt(f0, i).value;
    forall j | 0 <= j < k
      ensures BufferAt(c, f0, j) != Some(o)
    {
      if BufferAt(c, f0, j).Some? {
        assert ObjAt(f0, j) == BufferAt(c, f0, j);
        assert j != i;
      }
    }
  }

  lemma PreparedStart(c: Ctx, inputs: seq<Input>, base: nat, taken: set<nat>, f: Frame)
    requires FrameOk(c, inputs, base, taken, f)
    ensures PreparedUpTo(c, f, f, |inputs|, 0)
  {
    hide ArgOk, Apart, MemOk, CtxOk;
  }

  lemma {:induction false} SlotsUnchanged(c: Ctx, inputs: seq<Input>, f0: Frame, f: Frame, k: nat)
    requires SoundDef(c.def) && k <= |inputs| <= Arity(c) && |f.vals| == |f0.vals| == 2 * |inputs|
    requires forall i :: 0 <= i < |inputs| ==> ObjAt(f, i) == ObjAt(f0, i)
    ensures OutsOf(c, inputs, f, k) == OutsOf(c, inputs, f0, k)
    ensures StructsOf(c, inputs, f, k) == StructsOf(c, inputs, f0, k)
  {
    hide MeaningAt, ObjAt, OutFor, StructFor, SoundDef;
    if k > 0 {
      SlotsUnchanged(c, inputs, f0, f, k - 1);
    }
  }

  lemma PreparedKeepsObjects(c: Ctx, f0: Frame, f: Frame, n: nat, k: nat)
    requires PreparedUpTo(c, f0, f, n, k)
    ensures forall i :: 0 <= i < n ==> ObjAt(f, i) == ObjAt(f0, i)
  {
    forall i | 0 <= i < n
      ensures ObjAt(f, i) == ObjAt(f0, i)
    {
      assert ArgPrepared(c, f0, f, k, i);
    }
  }

  /** An object no argument uses is left alone. */
  lemma OthersUnchanged(c: Ctx, inputs: seq<Input>, f0: Frame, f: Frame, k: nat, o: nat)
    requires PreparedUpTo(c, f0, f, |inputs|, k)
    requires o in f0.mem.objs && forall i :: 0 <= i < |inputs| ==> ObjAt(f0, i) != Some(o)
    ensures o in f.mem.objs && f.mem.objs[o] == f0.mem.objs[o]
  {
    hide ArgPrepared;
    forall i | 0 <= i < k
      ensures BufferAt(c, f0, i) != Some(o)
    {
      assert ObjAt(f0, i) != Some(o);
    }
  }

  /** Objects the invocation has neither borrowed nor created are left alone. */
  ghost predicate Spared(m: Mem, m': Mem, taken: set<nat>) {
    forall o :: o in m.objs && o !in taken ==> o in m'.objs && m'.objs[o] == m.objs[o]
  }

  lemma NotTakenMeansUnused(c: Ctx, inputs: seq<Input>, base: nat, taken: set<nat>, f: Frame, o: nat)
    requires FrameOk(c, inputs, base, taken, f) && o !in taken
    ensures |f.vals| == 2 * |inputs| && forall i :: 0 <= i < |inputs| ==> ObjAt(f, i) != Some(o)
  {
    hide ArgOk, CtxOk, MemOk, ObjAt;
  }

  lemma PreparingSpares(c: Ctx, inputs: seq<Input>, base: nat, taken: set<nat>, f0: Frame, f: Frame, k: nat)
    requires FrameOk(c, inputs, base, taken, f0) && PreparedUpTo(c, f0, f, |inputs|, k)
    ensures Spared(f0.mem, f.mem, taken)
  {
    hide FrameOk, PreparedUpTo;
    forall o | o in f0.mem.objs && o !in taken
      ensures o in f.mem.objs && f.mem.objs[o] == f0.mem.objs[o]
    {
      NotTakenMeansUnused(c, inputs, base, taken, f0, o);
      OthersUnchanged(c, inputs, f0, f, k, o);
    }
  }

  // -- what a failed call has done ---------------------------------------------------------------------------------

  ghost predicate SameText(o: Obj, o': Obj) {
    o'.used == o.used <= |o.data| && o'.used <= |o'.data| && o'.data[..o'.used] == o.data[..o.used]
  }

  /** The first `len` bytes, filled up with zeros. */
  ghost predicate CutTo(o: Obj, o': Obj, len: nat) {
    && o.used <= |o.data| && o'.used == len <= |o'.data|
    && forall b :: 0 <= b < len ==> o'.data[b] == if b < o.used then o.data[b] else 0
  }

  /** Pre-processing that stopped at argument `k`: strings keep their text, vectors before `k` have been
      cut or filled to their length and are otherwise as they were. */
  ghost predicate ArgLeft(c: Ctx, inputs: seq<Input>, vals: seq<ArgVal>, m: Mem, m': Mem, k: nat, i: nat)
    requires SoundDef(c.def) && i < |inputs| <= Arity(c)
  {
    var p, len := MeaningAt(c, inputs, i), LengthOf(c.def.argTypes[i], vals);
    if p.None? then true
    else
      match p.value
      case PassString(h) => h in m.objs && h in m'.objs && SameText(m.objs[h], m'.objs[h])
      case PassBytes(h) =>
        && h in m.objs && h in m'.objs
        && if i < k && len.Some? then CutTo(m.objs[h], m'.objs[h], len.value) else m'.objs[h] == m.objs[h]
      case PassBorrow(h, _) => h in m.objs && h in m'.objs && m'.objs[h] == m.objs[h]
      case _ => true
  }

  ghost predicate LeftByFailure(c: Ctx, inputs: seq<Input>, vals: seq<ArgVal>, m: Mem, m': Mem, k: nat)
    requires SoundDef(c.def) && |inputs| <= Arity(c)
  {
    forall i :: 0 <= i < |inputs| ==> ArgLeft(c, inputs, vals, m, m', k, i)
  }

  lemma PreparingLeaves(c: Ctx, inputs: seq<Input>, base: nat, taken: set<nat>, f0: Frame, f: Frame, k: nat)
    requires FrameOk(c, inputs, base, taken, f0) && PreparedUpTo(c, f0, f, |inputs|, k)
    ensures SoundDef(c.def) && |inputs| <= Arity(c) && LeftByFailure(c, inputs, f0.vals, f0.mem, f.mem, k)
  {
    FrameShape(c, inputs, base, taken, f0);
    hide FrameOk, PreparedUpTo, ArgLeft, SoundDef;
    forall i | 0 <= i < |inputs|
      ensures ArgLeft(c, inputs, f0.vals, f0.mem, f.mem, k, i)
    {
      PreparingLeavesArg(c, inputs, base, taken, f0, f, k, i);
    }
  }

  lemma PreparingLeavesArg(c: Ctx, inputs: seq<Input>, base: nat, taken: set<nat>, f0: Frame, f: Frame, k: nat, i: nat)
    requires FrameOk(c, inputs, base, taken, f0) && PreparedUpTo(c, f0, f, |inputs|, k) && i < |inputs|
    ensures SoundDef(c.def) && |inputs| <= Arity(c) && ArgLeft(c, inputs, f0.vals, f0.mem, f.mem, k, i)
  {
    assert ArgOk(c, inputs, base, f0, i) && ArgPrepared(c, f0, f, k, i);
    ArgIsShaped(c, inputs, i);
    var d, p := c.def.argTypes[i], MeaningAt(c, inputs, i).value;
    if BufferAt(c, f0, i).Some? {
      BufferExists(c, inputs, base, taken, f0, i);
      if i < k && LengthOf(d, f0.vals).Some? {
        PreparedKeepsText(c.env, d, Hi(f0, i), f0.mem.objs[BufferAt(c, f0, i).value], LengthOf(d, f0.vals).value);
      }
    } else if ObjAt(f0, i).Some? {
      UnmanagedUnchanged(c, inputs, base, taken, f0, f, k, i);
    }
    hide MeaningAt, FrameOk, PreparedUpTo, LengthOf, Prepared;
  }

  lemma PreparedKeepsText(env: Env, d: ArgType, hi: ArgVal, o: Obj, len: nat)
    requires EnvOk(env) && o.used <= |o.data| && Managed(d, hi).Some?
    ensures var o' := Prepared(env, d, hi, o, len); if hi.RustString? then SameText(o, o') else CutTo(o, o', len)
  {
  }

  /** Slots survive pre-processing, finished or not. */
  lemma PreparedKeepsSlots(c: Ctx, inputs: seq<Input>, base: nat, taken: set<nat>, f0: Frame, f: Frame, k: nat,
                           staleOuts: seq<OutSlot>, staleStructs: seq<StructSlot>)
    requires FrameOk(c, inputs, base, taken, f0) && PreparedUpTo(c, f0, f, |inputs|, k)
    requires SlotsOk(c, inputs, f0, taken, staleOuts, staleStructs)
    ensures |f.vals| == 2 * |inputs| && SlotsOk(c, inputs, f, taken, staleOuts, staleStructs)
  {
    hide FrameOk, ArgPrepared, ObjAt, BufferAt, OutsOf, StructsOf, Spaced, KindSize, CtxOk, MemOk;
    FrameShape(c, inputs, base, taken, f0);
    PreparedKeepsObjects(c, f0, f, |inputs|, k);
    SlotsUnchanged(c, inputs, f0, f, |inputs|);
    forall s | s in staleOuts
      ensures OutReadable(f.mem, s)
    {
      OthersUnchanged(c, inputs, f0, f, k, s.obj);
    }
    forall s | s in staleStructs
      ensures StructReadable(f.mem, s)
    {
      OthersUnchanged(c, inputs, f0, f, k, s.obj);
    }
  }

  /** The failure of a call does not depend on how far pre-processing got before. */
  lemma {:induction false} FirstProblemUnchanged(c: Ctx, f0: Frame, f: Frame, k: nat, i: nat)
    requires PreparedUpTo(c, f0, f, Arity(c), k) && i <= Arity(c)
    ensures FirstProblem(c, f.vals, i) == FirstProblem(c, f0.vals, i)
    decreases Arity(c) - i
  {
    hide PreparedUpTo, Problem;
    if i < Arity(c) {
      LengthsUnchanged(c, f0, f, Arity(c), k, c.def.argTypes[i], i);
      FirstProblemUnchanged(c, f0, f, k, i + 1);
    }
  }

  lemma {:induction false} NoProblemAnywhere(c: Ctx, vals: seq<ArgVal>, i: nat, j: nat)
    requires i <= j < Arity(c) && FirstProblem(c, vals, i).None?
    ensures Problem(c.def.argTypes[j], vals, j).None?
    decreases Arity(c) - i
  {
    hide Problem;
    if i < j {
      NoProblemAnywhere(c, vals, i + 1, j);
    }
  }

  // -- definition-time checks suffice ------------------------------------------------------------------------------

  /** The second entry of an integer argument is an integer unless it was passed as a variable. */
  lemma LengthArgIsInteger(c: Ctx, inputs: seq<Input>, base: nat, taken: set<nat>, f: Frame, k: nat)
    requires FrameOk(c, inputs, base, taken, f) && k < |inputs| && c.def.argTypes[k].Int?
    ensures Hi(f, k).IntVal? <==> !inputs[k].MutPrim?
  {
    assert ArgOk(c, inputs, base, f, k);
    if WfInput(inputs[k]) {
      IntegersArriveAsIntegers(c.env, c.def.coerce, c.def.argTypes[k].ty, inputs[k]);
    }
    hide Meaning;
  }

  /**
   On a fully pushed call of an accepted definition the only failures are a negative and an oversized
   length, and a length argument pushed as a mutable variable; the last exactly when that was done.
   */
  lemma DefinitionChecksSuffice(c: Ctx, inputs: seq<Input>, base: nat, taken: set<nat>, f: Frame, i: nat)
    requires FrameOk(c, inputs, base, taken, f) && |inputs| == Arity(c) && i < Arity(c)
    ensures var d := c.def.argTypes[i];
      match Problem(d, f.vals, i)
      case None => true
      case Some(LengthNegative) => true
      case Some(LengthTooLarge) => true
      case Some(LengthArgNotInteger(k)) => k < Arity(c) && inputs[k].MutPrim?
      case Some(_) => false
    ensures var d := c.def.argTypes[i];
      (d.OCString? || d.OByteBuffer?) && d.length.FromArg? ==>
        && d.length.k < Arity(c)
        && (Problem(d, f.vals, i) == Some(LengthArgNotInteger(d.length.k)) <==> inputs[d.length.k].MutPrim?)
  {
    var d := c.def.argTypes[i];
    assert LengthOk(c.def.argTypes, i);
    if (d.OCString? || d.OByteBuffer?) && d.length.FromArg? {
      LengthArgIsInteger(c, inputs, base, taken, f, d.length.k);
      assert Hi(f, d.length.k) == f.vals[2 * d.length.k + 1];
    }
    hide FrameOk;
  }

  /** Argument `i` is no buffer with a length, or its length is a constant or the value of an integer
      argument between 0 and 256 MiB. */
  ghost predicate LengthFits(c: Ctx, inputs: seq<Input>, i: nat)
    requires SoundDef(c.def) && i < |inputs| == Arity(c)
  {
    var d := c.def.argTypes[i];
    if !d.OCString? && !d.OByteBuffer? then true
    else
      match d.length
      case NoLength => true
      case Fixed(n) => n <= MAX_OUTPUT_BUFFER
      case FromArg(k) =>
        && k < Arity(c) && MeaningAt(c, inputs, k).Some?
        && var p := MeaningAt(c, inputs, k).value;
          p.PassNum? && p.v.IntVal? && 0 <= p.v.n <= MAX_OUTPUT_BUFFER
  }

  ghost predicate AllLengthsFit(c: Ctx, inputs: seq<Input>)
    requires SoundDef(c.def) && |inputs| == Arity(c)
  {
    forall i :: 0 <= i < Arity(c) ==> LengthFits(c, inputs, i)
  }

  /** The second entry of an integer argument is the integer it means. */
  lemma LengthArgMeans(c: Ctx, inputs: seq<Input>, base: nat, taken: set<nat>, f: Frame, k: nat)
    requires FrameOk(c, inputs, base, taken, f) && k < |inputs| && c.def.argTypes[k].Int?
    ensures MeaningAt(c, inputs, k).Some?
    ensures var p := MeaningAt(c, inputs, k).value;
      && (Hi(f, k).IntVal? <==> p.PassNum? && p.v.IntVal?)
      && (p.PassNum? ==> Hi(f, k) == p.v)
  {
    assert ArgOk(c, inputs, base, f, k);
    ArgIsShaped(c, inputs, k);
    hide MeaningAt, FrameOk;
  }

  /** A buffer can be prepared exactly when its length fits. */
  lemma ProblemIsExact(c: Ctx, inputs: seq<Input>, base: nat, taken: set<nat>, f: Frame, i: nat)
    requires FrameOk(c, inputs, base, taken, f) && i < |inputs| == Arity(c)
    ensures Problem(c.def.argTypes[i], f.vals, i).None? <==> LengthFits(c, inputs, i)
  {
    var d := c.def.argTypes[i];
    assert LengthOk(c.def.argTypes, i);
    if (d.OCString? || d.OByteBuffer?) && d.length.FromArg? {
      LengthArgMeans(c, inputs, base, taken, f, d.length.k);
      assert Hi(f, d.length.k) == f.vals[2 * d.length.k + 1];
    }
    hide FrameOk, MeaningAt;
  }

  /** Which fault it is, for a length of `n`: 256 MiB is the most. */
  lemma FaultIsExact(c: Ctx, inputs: seq<Input>, base: nat, taken: set<nat>, f: Frame, i: nat, n: int)
    requires FrameOk(c, inputs, base, taken, f) && i < |inputs| == Arity(c)
    requires c.def.argTypes[i].OCString? || c.def.argTypes[i].OByteBuffer?
    requires var length := c.def.argTypes[i].length;
      || (length.Fixed? && length.n == n)
      || (length.FromArg? && length.k < Arity(c) && MeaningAt(c, inputs, length.k).Some?
        && MeaningAt(c, inputs, length.k).value.PassNum? && MeaningAt(c, inputs, length.k).value.v.IntVal?
        && MeaningAt(c, inputs, length.k).value.v.n == n)
    ensures Problem(c.def.argTypes[i], f.vals, i) ==
      if n < 0 then Some(LengthNegative) else if n > 268435456 then Some(LengthTooLarge) else None
  {
    var d := c.def.argTypes[i];
    assert LengthOk(c.def.argTypes, i);
    if d.length.FromArg? {
      LengthArgMeans(c, inputs, base, taken, f, d.length.k);
      assert Hi(f, d.length.k) == f.vals[2 * d.length.k + 1];
    }
    hide FrameOk, MeaningAt;
  }

  /** And the whole call goes through exactly when all of them do, which the caller can tell beforehand. */
  lemma CallIsExact(c: Ctx, inputs: seq<Input>, base: nat, taken: set<nat>, f: Frame)
    requires FrameOk(c, inputs, base, taken, f) && |inputs| == Arity(c)
    ensures FirstProblem(c, f.vals, 0).None? <==> AllLengthsFit(c, inputs)
  {
    hide FrameOk, Problem, LengthFits, SoundDef;
    FrameShape(c, inputs, base, taken, f);
    forall i | 0 <= i < Arity(c)
      ensures Problem(c.def.argTypes[i], f.vals, i).None? <==> LengthFits(c, inputs, i)
    {
      ProblemIsExact(c, inputs, base, taken, f, i);
    }
    FirstProblemIsOne(c, f.vals, 0);
    if FirstProblem(c, f.vals, 0).None? {
      NoProblems(c, f.vals);
    }
    hide FirstProblem;
  }

  lemma {:induction false} FirstProblemIsOne(c: Ctx, vals: seq<ArgVal>, i: nat)
    requires i <= Arity(c)
    ensures FirstProblem(c, vals, i).Some? ==>
      exists j :: i <= j < Arity(c) && FirstProblem(c, vals, i) == Problem(c.def.argTypes[j], vals, j)
    decreases Arity(c) - i
  {
    hide Problem;
    if i < Arity(c) {
      FirstProblemIsOne(c, vals, i + 1);
    }
  }

  /** The failures a caller can cause: a bad length value, or a length pushed as a mutable variable. */
  predicate LengthFault(inputs: seq<Input>, e: CallError) {
    e.LengthNegative? || e.LengthTooLarge? || (e.LengthArgNotInteger? && e.k < |inputs| && inputs[e.k].MutPrim?)
  }

  /** For a whole call: nothing else stops it. */
  lemma {:induction false} CallFailsOnlyOnLengths(c: Ctx, inputs: seq<Input>, base: nat, taken: set<nat>,
                                                 f: Frame, i: nat)
    requires FrameOk(c, inputs, base, taken, f) && |inputs| == Arity(c) && i <= Arity(c)
    ensures FirstProblem(c, f.vals, i).Some? ==> LengthFault(inputs, FirstProblem(c, f.vals, i).value)
    decreases Arity(c) - i
  {
    hide FrameOk, Problem;
    if i < Arity(c) {
      DefinitionChecksSuffice(c, inputs, base, taken, f, i);
      CallFailsOnlyOnLengths(c, inputs, base, taken, f, i + 1);
    }
  }

  /** Without a failure every argument is prepared. */
  lemma NoProblems(c: Ctx, vals: seq<ArgVal>)
    requires FirstProblem(c, vals, 0).None?
    ensures forall j :: 0 <= j < Arity(c) ==> Problem(c.def.argTypes[j], vals, j).None?
  {
    hide Problem, FirstProblem;
    forall j | 0 <= j < Arity(c)
      ensures Problem(c.def.argTypes[j], vals, j).None?
    {
      NoProblemAnywhere(c, vals, 0, j);
    }
  }
}
