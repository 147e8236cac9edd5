/**
 After the callee: its writes through the argument pointers, the strings cut from its output
 buffers, and the values a script gets back.
 */
module Effects {
  import opened Wrappers
  import opened Numbers
  import opened Types
  import opened Layout
  import opened StructBytes
  import opened Memory
  import opened Coercion
  import opened Signature
  import opened Marshal
  import opened Exchange
  import opened Delivery

  /** What a callee does: the bytes it writes through each pointer argument, and the return register. */
  datatype Effect = Effect(writes: seq<seq<byte>>, ret: u64)

  /** The object behind argument `i` as the callee sees it. */
  function TargetAt(seen: Snapshot, i: nat): (o: Option<nat>)
    requires i < |seen.cells|
    ensures o.Some? ==> o.value in seen.mem.objs
  {
    Target(seen.cells[i], seen.mem)
  }

  /** Bytes in what a `*T` points to: a scalar, or another address. */
  function TargetSize(t: ArgType): nat {
    if IsScalar(t) then SizeOf(t) else if PointerLike(t) then 8 else 0
  }

  /** How many bytes the declared type lets the callee write through argument `i`. */
  function Extent(d: ArgType, cells: seq<ArgVal>, mem: Mem, i: nat): nat
    requires i < |cells|
  {
    match d
    case OCString(_) => if SeenLength(d, cells).Some? then SeenLength(d, cells).value else 0
    case OByteBuffer(_) =>
      if SeenLength(d, cells).Some? then SeenLength(d, cells).value
      else if Target(cells[i], mem).Some? then mem.objs[Target(cells[i], mem).value].used
      else 0
    case Pointer(Struct(st)) => st.size
    case Pointer(t) => TargetSize(t)
    case _ => 0
  }

  function Min(a: nat, b: nat): nat {
    if a <= b then a else b
  }

  /** The bytes the callee writes through argument `i`: no more than the declared type lets it. */
  function Part(c: Ctx, seen: Snapshot, e: Effect, i: nat): (part: seq<byte>)
    requires i < |seen.cells| == Arity(c)
    ensures part != [] ==> TargetAt(seen, i).Some?
    ensures |part| <= Extent(c.def.argTypes[i], seen.cells, seen.mem, i)
  {
    if TargetAt(seen, i).None? || i >= |e.writes| then []
    else e.writes[i][..Min(|e.writes[i]|, Extent(c.def.argTypes[i], seen.cells, seen.mem, i))]
  }

  /** They stay inside the storage the argument points to. */
  predicate PartFits(c: Ctx, seen: Snapshot, e: Effect, i: nat)
    requires i < |seen.cells| == Arity(c)
  {
    TargetAt(seen, i).Some? ==> |Part(c, seen, e, i)| <= |seen.mem.objs[TargetAt(seen, i).value].data|
  }

  /** No write overruns its object. Nothing is said about memory after a call that breaks this. */
  predicate PartsFit(c: Ctx, seen: Snapshot, e: Effect)
    requires |seen.cells| == Arity(c)
  {
    forall i :: 0 <= i < |seen.cells| ==> PartFits(c, seen, e, i)
  }

  /** The object behind argument `i` as the callee leaves it. */
  function LeftIn(c: Ctx, seen: Snapshot, e: Effect, i: nat): Obj
    requires i < |seen.cells| == Arity(c) && TargetAt(seen, i).Some? && PartFits(c, seen, e, i)
  {
    var o := seen.mem.objs[TargetAt(seen, i).value];
    o.(data := Overwrite(o.data, 0, Part(c, seen, e, i)))
  }

  ghost predicate SameShape(m: Mem, m': Mem) {
    && m'.objs.Keys == m.objs.Keys && m'.next == m.next
    && forall o :: o in m.objs ==>
      m'.objs[o].gen == m.objs[o].gen && m'.objs[o].used == m.objs[o].used && |m'.objs[o].data| == |m.objs[o].data|
  }

  /** Memory after the callee has written through its first `k` arguments. */
  function Foreign(c: Ctx, seen: Snapshot, e: Effect, k: nat): (m: Mem)
    requires k <= |seen.cells| == Arity(c) && PartsFit(c, seen, e)
    ensures SameShape(seen.mem, m)
  {
    if k == 0 then seen.mem
    else
      var before := Foreign(c, seen, e, k - 1);
      assert PartFits(c, seen, e, k - 1);
      match TargetAt(seen, k - 1)
      case None => before
      case Some(o) =>
        before.(objs := before.objs[o :=
          before.objs[o].(data := Overwrite(before.objs[o].data, 0, Part(c, seen, e, k - 1)))])
  }

  ghost predicate DistinctTargets(seen: Snapshot) {
    forall i, j :: 0 <= i < j < |seen.cells| && TargetAt(seen, i).Some? ==>
      TargetAt(seen, i) != TargetAt(seen, j)
  }

  /** Each write stays in the object of its own argument. */
  lemma {:induction false} ForeignEffect(c: Ctx, seen: Snapshot, e: Effect, k: nat)
    requires k <= |seen.cells| == Arity(c) && DistinctTargets(seen) && PartsFit(c, seen, e)
    ensures forall i :: 0 <= i < k && TargetAt(seen, i).Some? ==>
      Foreign(c, seen, e, k).objs[TargetAt(seen, i).value] == LeftIn(c, seen, e, i)
    ensures forall o :: o in seen.mem.objs && (forall i :: 0 <= i < k ==> TargetAt(seen, i) != Some(o)) ==>
      Foreign(c, seen, e, k).objs[o] == seen.mem.objs[o]
  {
    hide Part, TargetAt, Foreign, Overwrite;
    if k == 0 {
      ForeignStart(c, seen, e);
    } else {
      ForeignEffect(c, seen, e, k - 1);
      var before, after, last := Foreign(c, seen, e, k - 1), Foreign(c, seen, e, k), TargetAt(seen, k - 1);
      ForeignStep(c, seen, e, k);
      forall i | 0 <= i < k && TargetAt(seen, i).Some?
        ensures after.objs[TargetAt(seen, i).value] == LeftIn(c, seen, e, i)
      {
        var o := TargetAt(seen, i).value;
        if i == k - 1 {
          assert forall j :: 0 <= j < i ==> TargetAt(seen, j) != Some(o);
          assert before.objs[o] == seen.mem.objs[o];
        } else {
          assert last != Some(o);
          assert before.objs[o] == LeftIn(c, seen, e, i);
        }
      }
      forall o | o in seen.mem.objs && forall i :: 0 <= i < k ==> TargetAt(seen, i) != Some(o)
        ensures after.objs[o] == seen.mem.objs[o]
      {
        assert last != Some(o);
        assert forall i :: 0 <= i < k - 1 ==> TargetAt(seen, i) != Some(o);
      }
    }
  }

  lemma ForeignStart(c: Ctx, seen: Snapshot, e: Effect)
    requires |seen.cells| == Arity(c) && PartsFit(c, seen, e)
    ensures Foreign(c, seen, e, 0) == seen.mem
  {
  }

  lemma ForeignStep(c: Ctx, seen: Snapshot, e: Effect, k: nat)
    requires 0 < k <= |seen.cells| == Arity(c) && PartsFit(c, seen, e)
    ensures PartFits(c, seen, e, k - 1)
    ensures var before, last := Foreign(c, seen, e, k - 1), TargetAt(seen, k - 1);
      forall o :: o in seen.mem.objs ==> (Foreign(c, seen, e, k).objs[o] ==
        if last == Some(o) then before.objs[o].(data := Overwrite(before.objs[o].data, 0, Part(c, seen, e, k - 1)))
        else before.objs[o])
  {
    hide Part, TargetAt;
  }

  // -- output strings ----------------------------------------------------------------------------------------------

  /** The string a caller gets from an output buffer: the bytes before the first NUL, decoded. */
  function Cut(env: Env, o: Obj): (r: Obj)
    ensures r.used == |r.data|
  {
    var text := env.lossy(UntilNul(o.data));
    Obj(o.gen + 1, text, |text|)
  }

  /** Post-processing of one argument. */
  function FinishArg(c: Ctx, f: Frame, m: Mem, i: nat): Mem
    requires i < Arity(c) && 2 * i + 1 < |f.vals|
  {
    if c.def.argTypes[i].OCString? && Hi(f, i).RustString? && PointsToOwn(Lo(f, i), Hi(f, i).obj, m) then
      m.(objs := m.objs[Hi(f, i).obj := Cut(c.env, m.objs[Hi(f, i).obj])])
    else m
  }

  function Finish(c: Ctx, f: Frame, m: Mem, k: nat): Mem
    requires k <= Arity(c) && |f.vals| == 2 * Arity(c)
  {
    if k == 0 then m else FinishArg(c, f, Finish(c, f, m, k - 1), k - 1)
  }

  /** The output string argument `i` is, if it is one. */
  function OutputString(c: Ctx, f: Frame, i: nat): Option<nat>
    requires i < Arity(c) && 2 * i + 1 < |f.vals|
  {
    if c.def.argTypes[i].OCString? && Hi(f, i).RustString? then Some(Hi(f, i).obj) else None
  }

  lemma {:induction false} FinishEffect(c: Ctx, inputs: seq<Input>, base: nat, taken: set<nat>, f: Frame,
                                       m: Mem, k: nat)
    requires FrameOk(c, inputs, base, taken, f) && |inputs| == Arity(c) && k <= Arity(c)
    requires SameShape(f.mem, m)
    ensures Finish(c, f, m, k).objs.Keys == m.objs.Keys && Finish(c, f, m, k).next == m.next
    ensures forall i :: 0 <= i < k && OutputString(c, f, i).Some? ==>
      && OutputString(c, f, i).value in m.objs
      && Finish(c, f, m, k).objs[OutputString(c, f, i).value] == Cut(c.env, m.objs[OutputString(c, f, i).value])
    ensures forall o :: o in m.objs && (forall i :: 0 <= i < k ==> OutputString(c, f, i) != Some(o)) ==>
      Finish(c, f, m, k).objs[o] == m.objs[o]
  {
    hide FrameOk, Cut, Finish, OutputString, SameShape;
    FrameShape(c, inputs, base, taken, f);
    if k == 0 {
      FinishStart(c, f, m);
    } else {
      FinishEffect(c, inputs, base, taken, f, m, k - 1);
      OutputStringsApart(c, inputs, base, taken, f, k - 1);
      FinishStep(c, inputs, base, taken, f, m, k);
      var before, after, last := Finish(c, f, m, k - 1), Finish(c, f, m, k), OutputString(c, f, k - 1);
      forall i | 0 <= i < k && OutputString(c, f, i).Some?
        ensures OutputString(c, f, i).value in m.objs
        ensures after.objs[OutputString(c, f, i).value] == Cut(c.env, m.objs[OutputString(c, f, i).value])
      {
        assert i < k - 1 ==> last != OutputString(c, f, i);
      }
      forall o | o in m.objs && forall i :: 0 <= i < k ==> OutputString(c, f, i) != Some(o)
        ensures after.objs[o] == m.objs[o]
      {
        assert last != Some(o);
        assert forall i :: 0 <= i < k - 1 ==> OutputString(c, f, i) != Some(o);
      }
    }
  }

  lemma OutputStringsApart(c: Ctx, inputs: seq<Input>, base: nat, taken: set<nat>, f: Frame, i: nat)
    requires FrameOk(c, inputs, base, taken, f) && i < |inputs| == Arity(c)
    ensures OutputString(c, f, i).Some? ==>
      && OutputString(c, f, i).value in f.mem.objs
      && Lo(f, i) == PointerVal(AddressOf(f.mem, OutputString(c, f, i).value))
      && forall j :: 0 <= j < i ==> OutputString(c, f, j) != OutputString(c, f, i)
  {
    if OutputString(c, f, i).Some? {
      BufferExists(c, inputs, base, taken, f, i);
      forall j | 0 <= j < i
        ensures OutputString(c, f, j) != OutputString(c, f, i)
      {
        assert ObjAt(f, i) == OutputString(c, f, i);
        assert OutputString(c, f, j).Some? ==> ObjAt(f, j) == OutputString(c, f, j);
      }
    }
  }

  /** Post-processing finds every output string where its first entry points. */
  lemma FinishFinds(c: Ctx, inputs: seq<Input>, base: nat, taken: set<nat>, f: Frame, m: Mem, i: nat)
    requires FrameOk(c, inputs, base, taken, f) && i < |inputs| == Arity(c)
    requires SameShape(f.mem, m)
    requires OutputString(c, f, i).Some?
    ensures var o := OutputString(c, f, i).value;
      && o in m.objs && o in Finish(c, f, m, i).objs && Finish(c, f, m, i).objs[o] == m.objs[o]
      && Lo(f, i) == PointerVal(AddressOf(Finish(c, f, m, i), o))
      && Finish(c, f, m, i + 1)
        == Finish(c, f, m, i).(objs := Finish(c, f, m, i).objs[o := Cut(c.env, m.objs[o])])
  {
    FinishEffect(c, inputs, base, taken, f, m, i);
    OutputStringsApart(c, inputs, base, taken, f, i);
    hide FrameOk, Cut;
  }

  lemma FinishStart(c: Ctx, f: Frame, m: Mem)
    requires |f.vals| == 2 * Arity(c)
    ensures Finish(c, f, m, 0) == m
  {
  }

  lemma FinishSkips(c: Ctx, inputs: seq<Input>, base: nat, taken: set<nat>, f: Frame, m: Mem, i: nat)
    requires FrameOk(c, inputs, base, taken, f) && i < |inputs| == Arity(c)
    requires !(c.def.argTypes[i].OCString? && Lo(f, i).PointerVal? && Hi(f, i).RustString?)
    ensures Finish(c, f, m, i + 1) == Finish(c, f, m, i)
  {
  }

  lemma FinishStep(c: Ctx, inputs: seq<Input>, base: nat, taken: set<nat>, f: Frame, m: Mem, k: nat)
    requires FrameOk(c, inputs, base, taken, f) && 0 < k <= |inputs| == Arity(c)
    requires SameShape(f.mem, m)
    requires Finish(c, f, m, k - 1).objs.Keys == m.objs.Keys
    requires forall o :: o in m.objs && (forall i :: 0 <= i < k - 1 ==> OutputString(c, f, i) != Some(o)) ==>
      Finish(c, f, m, k - 1).objs[o] == m.objs[o]
    ensures var before, last := Finish(c, f, m, k - 1), OutputString(c, f, k - 1);
      && Finish(c, f, m, k).objs.Keys == m.objs.Keys && Finish(c, f, m, k).next == before.next
      && (last.Some? ==> last.value in m.objs && Finish(c, f, m, k).objs[last.value] == Cut(c.env, m.objs[last.value]))
      && forall o :: o in m.objs && last != Some(o) ==> Finish(c, f, m, k).objs[o] == before.objs[o]
  {
    OutputStringsApart(c, inputs, base, taken, f, k - 1);
    hide FrameOk, Cut;
  }

  // -- the state the caller finds -----------------------------------------------------------------------------------

  ghost predicate IsOutputString(c: Ctx, inputs: seq<Input>, i: nat)
    requires SoundDef(c.def) && i < |inputs| <= Arity(c)
  {
    var p := MeaningAt(c, inputs, i);
    c.def.argTypes[i].OCString? && p.Some? && (p.value.PassString? || p.value.PassOutText?)
  }

  /** Memory after a call whose writes fit: output strings are cut at their NUL, everything else the
      callee could reach is as it left it, and nothing else has changed. */
  ghost predicate Returned(c: Ctx, inputs: seq<Input>, seen: Snapshot, e: Effect, m: Mem)
    requires SoundDef(c.def) && |inputs| == |seen.cells| == Arity(c)
  {
    && PartsFit(c, seen, e)
    && m.objs.Keys == seen.mem.objs.Keys
    && (forall i :: 0 <= i < Arity(c) && TargetAt(seen, i).Some? ==>
      PartFits(c, seen, e, i) && m.objs[TargetAt(seen, i).value]
        == if IsOutputString(c, inputs, i) then Cut(c.env, LeftIn(c, seen, e, i)) else LeftIn(c, seen, e, i))
    && (forall o :: o in seen.mem.objs && (forall i :: 0 <= i < Arity(c) ==> TargetAt(seen, i) != Some(o)) ==>
      m.objs[o] == seen.mem.objs[o])
  }

  lemma TargetIsOwn(c: Ctx, inputs: seq<Input>, base: nat, taken: set<nat>, f: Frame, i: nat)
    requires FrameOk(c, inputs, base, taken, f) && i < |inputs| && AllFetchable(base, f)
    ensures TargetAt(SeenBy(base, f), i).Some? ==>
      TargetAt(SeenBy(base, f), i) == ObjAt(f, i)
    ensures OutputString(c, f, i).Some? ==> TargetAt(SeenBy(base, f), i) == OutputString(c, f, i)
    ensures OutputString(c, f, i).Some? <==> IsOutputString(c, inputs, i)
    ensures MeaningAt(c, inputs, i).Some?
    ensures var p := MeaningAt(c, inputs, i).value;
      p.PassOut? || p.PassOutText? || p.PassOutStruct? ==> TargetAt(SeenBy(base, f), i).Some?
  {
    FetchedEntry(c, inputs, base, taken, f, i);
    assert ArgOk(c, inputs, base, f, i);
    BufferMeaningsAreManaged(c, inputs, base, taken, f, i);
    ArgIsShaped(c, inputs, i);
    hide MeaningAt, FrameOk;
  }

  lemma TargetsAreDistinct(c: Ctx, inputs: seq<Input>, base: nat, taken: set<nat>, f: Frame)
    requires FrameOk(c, inputs, base, taken, f) && AllFetchable(base, f)
    ensures DistinctTargets(SeenBy(base, f))
  {
    hide ArgOk, TargetAt, Fetch, Fetchable, ObjAt, IsOutputString, MeaningAt;
    forall i | 0 <= i < |inputs|
      ensures TargetAt(SeenBy(base, f), i).Some? ==>
        TargetAt(SeenBy(base, f), i) == ObjAt(f, i)
    {
      TargetIsOwn(c, inputs, base, taken, f, i);
    }
  }

  /** The callee's writes followed by post-processing give exactly the promised memory. */
  lemma CallReturns(c: Ctx, inputs: seq<Input>, base: nat, taken: set<nat>, f: Frame, e: Effect)
    requires FrameOk(c, inputs, base, taken, f) && |inputs| == Arity(c) && AllFetchable(base, f)
    requires PartsFit(c, SeenBy(base, f), e)
    ensures Returned(c, inputs, SeenBy(base, f), e, Finish(c, f, Foreign(c, SeenBy(base, f), e, Arity(c)), Arity(c)))
  {
    var seen, n := SeenBy(base, f), Arity(c);
    var m := Foreign(c, seen, e, n);
    TargetsAreDistinct(c, inputs, base, taken, f);
    ForeignEffect(c, seen, e, n);
    FinishEffect(c, inputs, base, taken, f, m, n);
    hide FrameOk, TargetAt, Cut, LeftIn, IsOutputString, OutputString, Finish, Foreign, Fetch, Fetchable;
    forall i | 0 <= i < n
      ensures OutputString(c, f, i).Some? <==> IsOutputString(c, inputs, i)
      ensures OutputString(c, f, i).Some? ==> TargetAt(seen, i) == OutputString(c, f, i)
    {
      TargetIsOwn(c, inputs, base, taken, f, i);
    }
    ReturnedFrom(c, inputs, seen, e, f, m, Finish(c, f, m, n));
  }

  /** Putting the two phases together, object by object. */
  lemma ReturnedFrom(c: Ctx, inputs: seq<Input>, seen: Snapshot, e: Effect, f: Frame, m: Mem, m': Mem)
    requires SoundDef(c.def) && |inputs| == |seen.cells| == Arity(c) && |f.vals| == 2 * Arity(c)
    requires DistinctTargets(seen) && PartsFit(c, seen, e)
    requires m.objs.Keys == seen.mem.objs.Keys == m'.objs.Keys
    requires forall i :: 0 <= i < Arity(c) ==> (OutputString(c, f, i).Some? <==> IsOutputString(c, inputs, i))
    requires forall i :: 0 <= i < Arity(c) && OutputString(c, f, i).Some? ==>
      TargetAt(seen, i) == OutputString(c, f, i)
    requires forall i :: 0 <= i < Arity(c) && TargetAt(seen, i).Some? ==>
      m.objs[TargetAt(seen, i).value] == LeftIn(c, seen, e, i)
    requires forall o :: o in seen.mem.objs && (forall i :: 0 <= i < Arity(c) ==> TargetAt(seen, i) != Some(o)) ==>
      m.objs[o] == seen.mem.objs[o]
    requires forall i :: 0 <= i < Arity(c) && OutputString(c, f, i).Some? ==>
      && OutputString(c, f, i).value in m.objs
      && m'.objs[OutputString(c, f, i).value] == Cut(c.env, m.objs[OutputString(c, f, i).value])
    requires forall o :: o in m.objs && (forall i :: 0 <= i < Arity(c) ==> OutputString(c, f, i) != Some(o)) ==>
      m'.objs[o] == m.objs[o]
    ensures Returned(c, inputs, seen, e, m')
  {
    hide TargetAt, Cut, LeftIn, IsOutputString, OutputString;
    forall i | 0 <= i < Arity(c) && TargetAt(seen, i).Some?
      ensures m'.objs[TargetAt(seen, i).value]
        == if IsOutputString(c, inputs, i) then Cut(c.env, LeftIn(c, seen, e, i)) else LeftIn(c, seen, e, i)
    {
      var o := TargetAt(seen, i).value;
      if OutputString(c, f, i).None? {
        forall j | 0 <= j < Arity(c)
          ensures OutputString(c, f, j) != Some(o)
        {
          assert j != i && OutputString(c, f, j).Some? ==> TargetAt(seen, j) == OutputString(c, f, j);
        }
      }
    }
    forall o | o in seen.mem.objs && forall i :: 0 <= i < Arity(c) ==> TargetAt(seen, i) != Some(o)
      ensures m'.objs[o] == seen.mem.objs[o]
    {
      forall j | 0 <= j < Arity(c)
        ensures OutputString(c, f, j) != Some(o)
      {
        assert TargetAt(seen, j) != Some(o);
      }
    }
  }

  /** Neither the callee nor post-processing damages memory. */
  lemma ReturnedMemOk(c: Ctx, inputs: seq<Input>, base: nat, taken: set<nat>, f: Frame, e: Effect)
    requires FrameOk(c, inputs, base, taken, f) && |inputs| == Arity(c) && AllFetchable(base, f)
    requires PartsFit(c, SeenBy(base, f), e)
    ensures MemOk(Finish(c, f, Foreign(c, SeenBy(base, f), e, Arity(c)), Arity(c)))
  {
    var m, n := Foreign(c, SeenBy(base, f), e, Arity(c)), Arity(c);
    FrameShape(c, inputs, base, taken, f);
    FinishEffect(c, inputs, base, taken, f, m, n);
    hide FrameOk, Finish, Foreign, OutputString, AllFetchable;
    assert MemOk(m);
    var m' := Finish(c, f, m, n);
    forall o | o in m'.objs
      ensures o < m'.next && m'.objs[o].used <= |m'.objs[o].data|
    {
      if i :| 0 <= i < n && OutputString(c, f, i) == Some(o) {
        assert m'.objs[o] == Cut(c.env, m.objs[o]);
      } else {
        assert m'.objs[o] == m.objs[o];
      }
    }
  }

  // -- the output-string protocol -------------------------------------------------------------------------------------

  /** Whatever a callee writes within its first `len` bytes, the scan stops at a NUL strictly inside
      the buffer, no later than the longer of the initial text and `len`. */
  lemma OutputStringEnds(o: Obj, init: seq<byte>, len: nat, part: seq<byte>)
    requires StringReady(o, init, len) && |part| <= len
    ensures var after := Overwrite(o.data, 0, part);
      && |UntilNul(after)| <= (if |init| >= len then |init| else len)
      && |UntilNul(after)| < |o.data|
      && after[|UntilNul(after)|] == 0
      && UntilNul(after) == after[..|UntilNul(after)|] && 0 !in UntilNul(after)
  {
    var after := Overwrite(o.data, 0, part);
    var z := if |init| >= len then |init| else len;
    assert after[z] == 0;
    NulStopsScan(after, z);
  }

  /** The text ends at `z`: the first NUL among the bytes the callee left. */
  predicate EndsAt(bytes: seq<byte>, z: nat) {
    z < |bytes| && bytes[z] == 0 && 0 !in bytes[..z]
  }

  /** What the callee finds behind an output string: its text, then zeros, for the length it is told. */
  lemma OutputStringIsReady(c: Ctx, inputs: seq<Input>, before: Mem, seen: Snapshot, e: Effect, i: nat)
    requires SoundDef(c.def) && Delivered(c, inputs, before, seen) && i < Arity(c) && IsOutputString(c, inputs, i)
    ensures TargetAt(seen, i).Some? && SeenLength(c.def.argTypes[i], seen.cells).Some?
    ensures var o, len := seen.mem.objs[TargetAt(seen, i).value], SeenLength(c.def.argTypes[i], seen.cells).value;
      && o.used <= |o.data| && StringReady(o, o.data[..o.used], len) && |Part(c, seen, e, i)| <= len
  {
    assert Receives(c.def.argTypes[i], MeaningAt(c, inputs, i).value, seen.cells, i, before, seen.mem);
    hide MeaningAt, SeenLength, Delivered;
  }

  /** The protocol end to end, for every call and callee: an output string comes back as the bytes
      before a NUL that lies within its buffer, no further than its old text or the length told. */
  lemma OutputStringProtocol(c: Ctx, inputs: seq<Input>, before: Mem, seen: Snapshot, e: Effect, m: Mem, i: nat)
      returns (z: nat)
    requires SoundDef(c.def) && Delivered(c, inputs, before, seen) && i < Arity(c) && IsOutputString(c, inputs, i)
    requires Returned(c, inputs, seen, e, m)
    ensures TargetAt(seen, i).Some? && SeenLength(c.def.argTypes[i], seen.cells).Some?
    ensures var h, len := TargetAt(seen, i).value, SeenLength(c.def.argTypes[i], seen.cells).value;
      var o, left := seen.mem.objs[h], LeftIn(c, seen, e, i).data;
      && z <= (if o.used >= len then o.used else len) && EndsAt(left, z)
      && h in m.objs && m.objs[h].data == c.env.lossy(left[..z]) && m.objs[h].used == |m.objs[h].data|
  {
    hide Delivered, SeenLength, IsOutputString, Part, TargetAt, UntilNul;
    DeliveredShape(c, inputs, before, seen);
    OutputStringIsReady(c, inputs, before, seen, e, i);
    var o, len := seen.mem.objs[TargetAt(seen, i).value], SeenLength(c.def.argTypes[i], seen.cells).value;
    OutputStringEnds(o, o.data[..o.used], len, Part(c, seen, e, i));
    z := |UntilNul(LeftIn(c, seen, e, i).data)|;
  }

  lemma {:induction false} NulStopsScan(bs: seq<byte>, z: nat)
    requires z < |bs| && bs[z] == 0
    ensures |UntilNul(bs)| <= z
    decreases z
  {
    if bs[0] != 0 {
      NulStopsScan(bs[1..], z - 1);
    }
  }

  // -- when the permitted writes fit ------------------------------------------------------------------------

  /** The length the callee is told for a buffer, from what was pushed: a constant, or the value the
      length argument means. */
  ghost function Told(c: Ctx, inputs: seq<Input>, d: ArgType): Option<nat>
    requires SoundDef(c.def) && |inputs| == Arity(c)
  {
    if !d.OCString? && !d.OByteBuffer? then None
    else
      match d.length
      case NoLength => None
      case Fixed(n) => Some(n)
      case FromArg(k) =>
        if k >= Arity(c) || MeaningAt(c, inputs, k).None? then None
        else
          match MeaningAt(c, inputs, k).value
          case PassNum(IntVal(_, n)) => if n >= 0 then Some(n) else None
          case _ => None
  }

  /** What is behind argument `i` has room for all the declared type lets the callee write: a text
      copied into an output string for the length told, and a borrowed variable for its target. */
  ghost predicate HasRoom(c: Ctx, inputs: seq<Input>, i: nat)
    requires SoundDef(c.def) && i < |inputs| == Arity(c)
  {
    var d, p := c.def.argTypes[i], MeaningAt(c, inputs, i);
    if p.None? then true
    else
      match p.value
      case PassText(bytes) => Told(c, inputs, d).Some? ==> Told(c, inputs, d).value <= |bytes| + 1
      case PassBorrow(_, size) =>
        && (Told(c, inputs, d).Some? ==> Told(c, inputs, d).value <= size)
        && (d.Pointer? ==> TargetSize(d.target) <= size)
        && (d.Pointer? && d.target.Struct? ==> d.target.layout.size <= size)
      case _ => true
  }

  ghost predicate AllHaveRoom(c: Ctx, inputs: seq<Input>)
    requires SoundDef(c.def) && |inputs| == Arity(c)
  {
    forall i :: 0 <= i < Arity(c) ==> HasRoom(c, inputs, i)
  }

  /** The whole extent argument `i` is declared for lies inside its object. */
  predicate ExtentFits(c: Ctx, seen: Snapshot, i: nat)
    requires i < |seen.cells| == Arity(c)
  {
    TargetAt(seen, i).Some? ==>
      Extent(c.def.argTypes[i], seen.cells, seen.mem, i) <= |seen.mem.objs[TargetAt(seen, i).value].data|
  }

  /** The callee is told the length that was pushed. */
  lemma ToldIsSeen(c: Ctx, inputs: seq<Input>, before: Mem, seen: Snapshot, i: nat)
    requires SoundDef(c.def) && Delivered(c, inputs, before, seen) && i < Arity(c)
    ensures |inputs| == Arity(c) && SeenLength(c.def.argTypes[i], seen.cells) == Told(c, inputs, c.def.argTypes[i])
  {
    var d := c.def.argTypes[i];
    if (d.OCString? || d.OByteBuffer?) && d.length.FromArg? && d.length.k < Arity(c) {
      var k := d.length.k;
      assert LengthOk(c.def.argTypes, i);
      assert Receives(c.def.argTypes[k], MeaningAt(c, inputs, k).value, seen.cells, k, before, seen.mem);
      ArgIsShaped(c, inputs, k);
    }
    hide MeaningAt, Delivered, BufferReady;
  }

  lemma ExtentIsExact(c: Ctx, inputs: seq<Input>, before: Mem, seen: Snapshot, i: nat)
    requires SoundDef(c.def) && Delivered(c, inputs, before, seen) && i < Arity(c)
    ensures |inputs| == |seen.cells| == Arity(c)
    ensures ExtentFits(c, seen, i) <==> HasRoom(c, inputs, i)
    ensures !HasRoom(c, inputs, i) ==> TargetAt(seen, i).Some?
  {
    var d, p := c.def.argTypes[i], MeaningAt(c, inputs, i).value;
    assert Receives(d, p, seen.cells, i, before, seen.mem);
    ToldIsSeen(c, inputs, before, seen, i);
    ArgIsShaped(c, inputs, i);
    hide MeaningAt, SeenLength, Told, Delivered, WfType;
  }

  /**
   For every call that reaches the callee: no callee that keeps to the declared types can overrun
   memory if and only if no text or number coerced into an output string is more than one byte short
   of the length told, and no borrowed variable is smaller than its target.
   */
  lemma WritesFitExactly(c: Ctx, inputs: seq<Input>, before: Mem, seen: Snapshot)
    requires SoundDef(c.def) && Delivered(c, inputs, before, seen)
    ensures |inputs| == |seen.cells| == Arity(c)
    ensures (forall e: Effect :: PartsFit(c, seen, e)) <==> AllHaveRoom(c, inputs)
  {
    DeliveredShape(c, inputs, before, seen);
    hide Delivered, HasRoom, PartsFit, ExtentFits, TargetAt, Extent, SoundDef;
    forall i | 0 <= i < Arity(c)
      ensures ExtentFits(c, seen, i) <==> HasRoom(c, inputs, i)
    {
      ExtentIsExact(c, inputs, before, seen, i);
    }
    if AllHaveRoom(c, inputs) {
      forall e: Effect
        ensures PartsFit(c, seen, e)
      {
        ExtentsSuffice(c, seen, e);
      }
    } else {
      var i :| 0 <= i < Arity(c) && !HasRoom(c, inputs, i);
      ExtentIsExact(c, inputs, before, seen, i);
      var e := FullWrite(c, seen, i);
      FullWriteOverruns(c, seen, i);
      assert !PartsFit(c, seen, e);
    }
  }

  /** libffi reads every argument as declared, and no write overruns its object. Nothing is promised of a
      call that breaks this. */
  predicate StaysInside(c: Ctx, seen: Snapshot, e: Effect)
    requires |seen.cells| == Arity(c)
  {
    ReadsFit(c, seen) && PartsFit(c, seen, e)
  }

  /** The condition on what was pushed. */
  ghost predicate AllSafe(c: Ctx, inputs: seq<Input>)
    requires SoundDef(c.def) && |inputs| == Arity(c)
  {
    AllAsDeclared(c, inputs) && AllHaveRoom(c, inputs)
  }

  /** For every call that reaches libffi: it stays inside memory with every callee that keeps to the
      declared types if and only if what was pushed is safe. */
  lemma SafeExactly(c: Ctx, inputs: seq<Input>, before: Mem, seen: Snapshot)
    requires SoundDef(c.def) && Delivered(c, inputs, before, seen)
    ensures |inputs| == |seen.cells| == Arity(c)
    ensures (forall e: Effect :: StaysInside(c, seen, e)) <==> AllSafe(c, inputs)
    ensures ReadsFit(c, seen) <==> AllAsDeclared(c, inputs)
  {
    hide Delivered, ReadsFit, PartsFit, AllAsDeclared, AllHaveRoom, SoundDef;
    ReadsFitExactly(c, inputs, before, seen);
    WritesFitExactly(c, inputs, before, seen);
    if AllSafe(c, inputs) {
      forall e: Effect
        ensures StaysInside(c, seen, e)
      {
        assert PartsFit(c, seen, e);
      }
    }
    if forall e: Effect :: StaysInside(c, seen, e) {
      forall e: Effect
        ensures PartsFit(c, seen, e)
      {
        assert StaysInside(c, seen, e);
      }
      assert StaysInside(c, seen, Effect([], 0));
    }
  }

  lemma ExtentsSuffice(c: Ctx, seen: Snapshot, e: Effect)
    requires |seen.cells| == Arity(c) && forall i :: 0 <= i < Arity(c) ==> ExtentFits(c, seen, i)
    ensures PartsFit(c, seen, e)
  {
    hide Extent, TargetAt, Part;
    forall i | 0 <= i < |seen.cells|
      ensures PartFits(c, seen, e, i)
    {
      assert ExtentFits(c, seen, i);
    }
  }

  /** A callee that writes all it may through argument `i`. */
  function FullWrite(c: Ctx, seen: Snapshot, i: nat): Effect
    requires i < |seen.cells| == Arity(c)
  {
    Effect(seq(i + 1, j => Zeros(Extent(c.def.argTypes[i], seen.cells, seen.mem, i))), 0)
  }

  lemma FullWriteOverruns(c: Ctx, seen: Snapshot, i: nat)
    requires i < |seen.cells| == Arity(c) && !ExtentFits(c, seen, i)
    ensures !PartsFit(c, seen, FullWrite(c, seen, i))
  {
    hide Extent, TargetAt;
    var e, n := FullWrite(c, seen, i), Extent(c.def.argTypes[i], seen.cells, seen.mem, i);
    assert e.writes[i] == Zeros(n) && |Part(c, seen, e, i)| == n;
    assert !PartFits(c, seen, e, i);
  }

  /** Only coerced numbers and texts, and borrowed variables, can lack room: everything else fits by itself. */
  lemma RoomIsLostOnlyBy(c: Ctx, inputs: seq<Input>, i: nat)
    requires SoundDef(c.def) && i < |inputs| == Arity(c)
    ensures !HasRoom(c, inputs, i) ==>
      || inputs[i].MutPrim?
      || (c.def.argTypes[i].OCString? && (inputs[i].Prim? || inputs[i].Value? || inputs[i].Text?))
  {
    var d, input := c.def.argTypes[i], inputs[i];
    if MeaningAt(c, inputs, i).Some? {
      ArgIsShaped(c, inputs, i);
      if input.Script? {
        ScriptTextIsPrivate(c.env, c.def.coerce, d, input.val);
      }
    }
    hide NumberMeaning, ValueMeaning, TextMeaning, ScriptMeaning, FromScriptVals, Spaced, WfStruct;
  }

  lemma ScriptTextIsPrivate(env: Env, coerce: bool, d: ArgType, v: ScriptVal)
    ensures var p := ScriptMeaning(env, coerce, d, v);
      p.Some? ==> !p.value.PassBorrow? && (p.value.PassText? ==> !d.OCString?)
  {
    ScriptBorrowsNothing(env, coerce, d, v);
    ScriptIsShaped(env, coerce, d, v);
    hide CoerceInt, CoerceFloat, TextMeaning, OutInit;
  }

  /** The text "a" for an argument declared `ocstr=100`: the callee is told 100 bytes and finds 2. */
  lemma CoercedTextOverruns(c: Ctx, before: Mem, seen: Snapshot)
    requires c.def == FuncDef([OCString(Fixed(100))], Void, true, false)
    requires SoundDef(c.def) && Delivered(c, [Text([97])], before, seen)
    ensures |seen.cells| == 1 && TargetAt(seen, 0).Some?
    ensures SeenLength(OCString(Fixed(100)), seen.cells) == Some(100)
    ensures seen.mem.objs[TargetAt(seen, 0).value].data == [97, 0]
    ensures !PartsFit(c, seen, Effect([Zeros(100)], 0))
  {
    assert MeaningAt(c, [Text([97])], 0) == Some(PassText([97]));
    assert Receives(OCString(Fixed(100)), PassText([97]), seen.cells, 0, before, seen.mem);
    assert !PartFits(c, seen, Effect([Zeros(100)], 0), 0);
  }

  /** A dynamic value holding a struct shorter than the declared one: libffi copies the declared size from
      a copy of the smaller. */
  lemma ShortStructIsOverread(c: Ctx, sv: StructState, big: StructType, before: Mem, seen: Snapshot)
    requires c.def.argTypes == [Struct(big)] && sv.layout.size < big.size
    requires SoundDef(c.def) && Delivered(c, [StructArg(sv)], before, seen) && ValidState(sv)
    ensures |seen.cells| == 1 && seen.cells[0].StructVal? && seen.cells[0].obj in seen.mem.objs
    ensures |seen.mem.objs[seen.cells[0].obj].data| == sv.layout.size < big.size
    ensures !ReadsFit(c, seen)
  {
    assert MeaningAt(c, [StructArg(sv)], 0) == Some(PassStruct(sv.bytes));
    assert Receives(Struct(big), PassStruct(sv.bytes), seen.cells, 0, before, seen.mem);
    assert !ReadFits(Struct(big), seen.cells[0], seen.mem);
  }

  /** A variable pushed for an integer: libffi reads the bits of its address as the number. */
  lemma VariableIsMisread(c: Ctx, ty: IntType, h: nat, size: nat, before: Mem, seen: Snapshot)
    requires c.def.argTypes == [Int(ty)]
    requires SoundDef(c.def) && Delivered(c, [MutPrim(h, size)], before, seen)
    ensures |seen.cells| == 1 && Target(seen.cells[0], seen.mem) == Some(h)
    ensures !ReadsFit(c, seen)
  {
    assert MeaningAt(c, [MutPrim(h, size)], 0) == Some(PassBorrow(h, size));
    assert Receives(Int(ty), PassBorrow(h, size), seen.cells, 0, before, seen.mem);
    assert !ReadFits(Int(ty), seen.cells[0], seen.mem);
  }

  /** A callee that stores an address through a `**T` for which a shorter variable was pushed. */
  lemma AddressOverrunsVariable(c: Ctx, t: ArgType, h: nat, size: nat, before: Mem, seen: Snapshot)
    requires c.def.argTypes == [Pointer(Pointer(t))] && size < 8
    requires SoundDef(c.def) && Delivered(c, [MutPrim(h, size)], before, seen)
    ensures |seen.cells| == 1 && TargetAt(seen, 0) == Some(h) && |seen.mem.objs[h].data| == size
    ensures !PartsFit(c, seen, Effect([Zeros(8)], 0))
  {
    assert MeaningAt(c, [MutPrim(h, size)], 0) == Some(PassBorrow(h, size));
    assert Receives(Pointer(Pointer(t)), PassBorrow(h, size), seen.cells, 0, before, seen.mem);
    assert !PartFits(c, seen, Effect([Zeros(8)], 0), 0);
  }

  /** Which arguments come back as strings: those declared `ocstr` and passed as the caller's String or
      as a script value. A coerced text is copied, and the copy is never read back. */
  lemma OutputStringsAre(c: Ctx, inputs: seq<Input>, i: nat)
    requires SoundDef(c.def) && i < |inputs| <= Arity(c) && MeaningAt(c, inputs, i).Some?
    ensures IsOutputString(c, inputs, i) <==>
      c.def.argTypes[i].OCString? && (inputs[i].MutString? || inputs[i].Script?)
  {
    var d, input := c.def.argTypes[i], inputs[i];
    if input.Prim? || input.Value? || input.Text? {
      PlainInputs(c.env, c.def.coerce, d, input);
    }
    hide NumberMeaning, ValueMeaning, TextMeaning, FromScriptVals, Spaced, WfStruct, SameLayout, OutInit;
  }
}
