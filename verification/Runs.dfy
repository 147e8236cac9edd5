/**
 A client at work on one invocation: pushes and scripted calls in any order, some of them refused.
 */
module Runs {
  import opened Wrappers
  import opened Signature
  import opened Memory
  import opened Numbers
  import opened Types
  import opened Layout
  import opened StructBytes
  import opened Coercion
  import opened Marshal
  import opened Exchange
  import opened Delivery
  import opened Effects
  import opened Scripts
  import opened Arrival
  import opened Invocations

  datatype Step =
    | PushIn(value: Input)
    | PushMut(value: Input)
    | PushVal(val: ScriptVal)
    | PushStruct(fields: seq<ScriptVal>)
    | Invoke(callee: Snapshot -> Effect)

  function InputOf(step: Step): Option<Input> {
    match step
    case PushIn(value) => Some(value)
    case PushMut(value) => Some(value)
    case PushVal(val) => Some(Script(val))
    case PushStruct(fields) => Some(ScriptStruct(fields))
    case Invoke(_) => None
  }

  function BorrowedIn(step: Step): Option<nat> {
    if InputOf(step).Some? then BorrowedBy(InputOf(step).value) else None
  }

  /** What the compiler checks of a client: values of the right types, and every borrowed object there,
      of its type's size, and borrowed once. */
  ghost predicate Compiles(steps: seq<Step>, from: nat, mem: Mem, taken: set<nat>) {
    && (forall j :: from <= j < |steps| ==> StepCompiles(steps[j], mem, taken))
    && (forall j, l :: from <= j < l < |steps| && BorrowedIn(steps[j]).Some? ==>
      BorrowedIn(steps[j]) != BorrowedIn(steps[l]))
  }

  ghost predicate StepCompiles(step: Step, mem: Mem, taken: set<nat>) {
    match step
    case PushIn(value) => IsArg(value)
    case PushMut(value) => IsMutArg(value) && Borrowable(value, mem, taken)
    case _ => true
  }

  /** A step leaves the objects alone that later steps will borrow. */
  lemma LaterStepsCompile(steps: seq<Step>, i: nat, mem: Mem, taken: set<nat>, mem': Mem, taken': set<nat>)
    requires i < |steps| && Compiles(steps, i, mem, taken) && Spared(mem, mem', taken)
    requires forall o :: o in taken' ==> o in taken || o !in mem.objs || BorrowedIn(steps[i]) == Some(o)
    ensures Compiles(steps, i + 1, mem', taken')
  {
    hide IsArg, IsMutArg;
    forall j | i + 1 <= j < |steps|
      ensures StepCompiles(steps[j], mem', taken')
    {
      assert StepCompiles(steps[j], mem, taken);
      assert BorrowedIn(steps[i]).Some? ==> BorrowedIn(steps[i]) != BorrowedIn(steps[j]);
    }
  }

  lemma GrowsSpares(m: Mem, m': Mem, taken: set<nat>)
    requires Grows(m, m')
    ensures Spared(m, m', taken)
  {
  }

  // -- what a run has achieved ------------------------------------------------------------------------------

  /** A successful call: what had been pushed, memory before, what the callee saw and did, memory after,
      and what the script was told. */
  datatype Round = Round(
    step: nat,
    inputs: seq<Input>,
    before: Mem,
    seen: Snapshot,
    effect: Effect,
    after: Mem,
    result: ScriptResult)

  ghost predicate RoundOk(c: Ctx, steps: seq<Step>, r: Round)
    requires SoundDef(c.def)
  {
    && r.step < |steps| && steps[r.step].Invoke? && r.effect == steps[r.step].callee(r.seen)
    && |r.inputs| == |r.seen.cells| == Arity(c) && MemOk(r.after)
    && Delivered(c, r.inputs, r.before, r.seen) && ReadsFit(c, r.seen)
    && Returned(c, r.inputs, r.seen, r.effect, r.after)
    && r.result.returnVal == ReturnValue(c.env, c.def.returnType, r.effect.ret)
    && r.result.returnStruct == ReturnStruct(c.env, c.def.returnType, r.effect.ret)
    && r.result.outputs == OutputsUpTo(c, r.inputs, r.seen, r.after, Arity(c))
    && ExactlyTheOutputs(c, r.inputs, r.result.outputs)
    && r.result.structOutputs == StructOutputsUpTo(c, r.inputs, r.seen, r.after, Arity(c))
    && ExactlyTheStructs(c, r.inputs, r.result.structOutputs)
  }

  lemma RoundIsOk(c: Ctx, steps: seq<Step>, r: Round)
    requires SoundDef(c.def) && r.step < |steps| && steps[r.step].Invoke? && r.effect == steps[r.step].callee(r.seen)
    requires |r.inputs| == |r.seen.cells| == Arity(c)
    requires Delivered(c, r.inputs, r.before, r.seen) && StaysInside(c, r.seen, r.effect)
    requires Returned(c, r.inputs, r.seen, r.effect, r.after)
    requires Reported(c, r.inputs, r.seen, r.after, r.effect.ret, r.result, [], [])
    ensures RoundOk(c, steps, r)
  {
    hide Delivered, Returned, ReadsFit, PartsFit, OutputsUpTo, StructOutputsUpTo, ExactlyTheOutputs,
      ExactlyTheStructs, ReturnValue,
      ReturnStruct, SoundDef, ReadOuts, ReadStructs;
    ReportedExactly(c, r.inputs, r.seen, r.after, r.effect.ret, r.result);
  }

  /** The inputs that were accepted. */
  function Accepted(steps: seq<Step>, oks: seq<bool>): seq<Input>
    requires |oks| <= |steps|
  {
    if oks == [] then []
    else
      var last := |oks| - 1;
      Accepted(steps, oks[..last]) + AcceptedAt(steps[last], oks[last])
  }

  function AcceptedAt(step: Step, ok: bool): seq<Input> {
    if ok && InputOf(step).Some? then [InputOf(step).value] else []
  }

  function Flat(rounds: seq<Round>): seq<Input> {
    if rounds == [] then [] else Flat(rounds[..|rounds| - 1]) + rounds[|rounds| - 1].inputs
  }

  lemma AcceptedStep(steps: seq<Step>, oks: seq<bool>, ok: bool)
    requires |oks| < |steps|
    ensures Accepted(steps, oks + [ok]) == Accepted(steps, oks) + AcceptedAt(steps[|oks|], ok)
  {
    assert (oks + [ok])[..|oks|] == oks;
  }

  lemma FlatStep(rounds: seq<Round>, round: Round)
    ensures Flat(rounds + [round]) == Flat(rounds) + round.inputs
  {
    assert (rounds + [round])[..|rounds|] == rounds;
  }

  lemma Nothing(steps: seq<Step>)
    ensures Flat([]) == [] && Accepted(steps, []) == []
  {
  }

  // -- the client -------------------------------------------------------------------------------------------

  /** One push. */
  method TakePush(inv: Invocation, step: Step) returns (ok: bool)
    requires inv.Valid() && InputOf(step).Some? && StepCompiles(step, inv.mem, inv.taken)
    modifies inv, inv.argVals
    ensures inv.Valid() && inv.argVals == old(inv.argVals)
    ensures inv.staleOuts == old(inv.staleOuts) && inv.staleStructs == old(inv.staleStructs)
    ensures inv.inputs == old(inv.inputs) + AcceptedAt(step, ok)
    ensures Spared(old(inv.mem), inv.mem, old(inv.taken))
    ensures forall o :: o in inv.taken ==> o in old(inv.taken) || o !in old(inv.mem).objs || BorrowedIn(step) == Some(o)
  {
    hide MeaningAt, Grows, Spared, IsArg, IsMutArg, Borrowable;
    ghost var before, taken := inv.mem, inv.taken;
    match step {
      case PushIn(value) => ok := inv.PushArg(value);
      case PushMut(value) => ok := inv.PushMutArg(value);
      case PushVal(val) => ok := inv.PushScriptVal(val);
      case PushStruct(fields) => ok := inv.PushScriptStruct(fields);
    }
    if ok {
      GrowsSpares(before, inv.mem, taken);
    } else {
      SparedBySame(before, taken);
    }
  }

  /**
   Whatever a client does, the accepted inputs are consumed by the successful calls in order, a full
   argument list each; in every such call the callee saw what they mean, and the script is told what
   that callee left, for exactly the arguments it is owed. The run ends early only at a call that leaves
   memory, which takes unsafe arguments.
   */
  method RunScript(inv: Invocation, steps: seq<Step>)
    returns (oks: seq<bool>, intact: bool, results: seq<ScriptResult>,
      ghost rounds: seq<Round>, ghost pending: seq<Input>)
    requires inv.Valid() && inv.staleOuts == [] && inv.staleStructs == [] && inv.inputs == []
    requires Compiles(steps, 0, inv.mem, inv.taken)
    modifies inv, inv.argVals
    ensures SoundDef(inv.ctx.def) && |oks| <= |steps| && |results| == |rounds|
    ensures Flat(rounds) + pending == Accepted(steps, oks)
    ensures forall r :: 0 <= r < |rounds| ==> RoundOk(inv.ctx, steps, rounds[r]) && results[r] == rounds[r].result
    ensures intact ==> |oks| == |steps| && inv.Valid() && pending == inv.inputs
    ensures !intact ==>
      |oks| < |steps| && steps[|oks|].Invoke? && |pending| == Arity(inv.ctx) && !AllSafe(inv.ctx, pending)
  {
    hide Compiles, StepCompiles, AllSafe, StaysInside, RoundOk, Flat, Accepted, AllLengthsFit, FirstProblem, FailingAt,
      LengthFault, LeftByFailure, Delivered, Returned, Reported, SoundDef, Spared, FrameOk, SlotsOk, CtxOk;
    oks, results, rounds := [], [], [];
    Nothing(steps);
    inv.ValidCounts();
    for i := 0 to |steps|
      invariant inv.Valid() && inv.argVals == old(inv.argVals)
      invariant inv.staleOuts == [] && inv.staleStructs == []
      invariant Compiles(steps, i, inv.mem, inv.taken)
      invariant |oks| == i && |results| == |rounds|
      invariant Flat(rounds) + inv.inputs == Accepted(steps, oks)
      invariant forall r :: 0 <= r < |rounds| ==> RoundOk(inv.ctx, steps, rounds[r]) && results[r] == rounds[r].result
    {
      ghost var done, mem, taken := oks, inv.mem, inv.taken;
      pending := inv.inputs;
      var ok;
      if steps[i].Invoke? {
        var r, seen := inv.CallScripted(steps[i].callee);
        ok := r.Ok?;
        if ok {
          if !StaysInside(inv.ctx, seen, steps[i].callee(seen)) {
            return oks, false, results, rounds, pending;
          }
          ghost var round := Round(i, pending, mem, seen, steps[i].callee(seen), inv.mem, r.value);
          RoundIsOk(inv.ctx, steps, round);
          FlatStep(rounds, round);
          rounds := rounds + [round];
          results := results + [r.value];
        }
      } else {
        assert StepCompiles(steps[i], inv.mem, inv.taken) by { CompilesNow(steps, i, inv.mem, inv.taken); }
        ok := TakePush(inv, steps[i]);
      }
      oks := oks + [ok];
      AcceptedStep(steps, done, ok);
      LaterStepsCompile(steps, i, mem, taken, inv.mem, inv.taken);
    }
    return oks, true, results, rounds, inv.inputs;
  }

  lemma CompilesNow(steps: seq<Step>, i: nat, mem: Mem, taken: set<nat>)
    requires i < |steps| && Compiles(steps, i, mem, taken)
    ensures StepCompiles(steps[i], mem, taken)
  {
  }

  // -- what the checks let through --------------------------------------------------------------------------------

  /** The only argument of a function, and the call. */
  method PushAndCall(inv: Invocation, value: Input, mut: bool)
    returns (pushed: bool, r: Result<u64, CallError>, seen: Snapshot, ghost before: Mem)
    requires inv.Valid() && inv.inputs == [] && SoundDef(inv.ctx.def) && Arity(inv.ctx) == 1
    requires if mut then IsMutArg(value) && Borrowable(value, inv.mem, inv.taken) else IsArg(value)
    requires Accepts(inv.ctx.env, inv.ctx.def.coerce, inv.ctx.def.argTypes[0], value) && AllLengthsFit(inv.ctx, [value])
    modifies inv, inv.argVals
    ensures pushed && r.Ok? && Delivered(inv.ctx, [value], before, seen) && |seen.cells| == 1
  {
    hide Accepts, MeaningAt, Grows, SoundDef, FrameOk, SlotsOk, IsArg, IsMutArg, Borrowable, AllLengthsFit, Delivered,
      AllSafe, StaysInside;
    assert [] + [value] == [value];
    if mut {
      pushed := inv.PushMutArg(value);
    } else {
      pushed := inv.PushArg(value);
    }
    before := inv.mem;
    r, seen := inv.Call(_ => Effect([], 0));
  }

  /** A definition of one argument that is no buffer. */
  lemma OneArgument(env: Env, d: ArgType, value: Input)
    requires EnvOk(env) && WfType(d) && !d.OCString? && !d.OByteBuffer?
    ensures var c := Ctx(env, FuncDef([d], Void, false, false));
      CtxOk(c) && SoundDef(c.def) && Arity(c) == 1 && AllLengthsFit(c, [value])
    ensures Validate([d], Flags(None, false, false)) == None
  {
    ValidateIsExact([d], Flags(None, false, false));
    hide MeaningAt, WfStruct, Validate;
  }

  /** `l|f|ocstr=100|void|coerce` with the argument "a": the push and the call are accepted, the callee is
      told 100 bytes, and the copy behind its pointer has 2. */
  method OverrunIsReachable(env: Env, mem: Mem) returns (pushed: bool, r: Result<u64, CallError>, seen: Snapshot)
    requires EnvOk(env) && MemOk(mem)
    ensures Validate([OCString(Fixed(100))], Flags(None, true, false)) == None
    ensures pushed && r.Ok? && |seen.cells| == 1
    ensures SeenLength(OCString(Fixed(100)), seen.cells) == Some(100)
    ensures TargetAt(seen, 0).Some? && seen.mem.objs[TargetAt(seen, 0).value].data == [97, 0]
  {
    hide *;
    var c := Ctx(env, FuncDef([OCString(Fixed(100))], Void, true, false));
    ShortTextMeans(c);
    var inv := new Invocation.Prep(c, mem);
    ghost var before;
    pushed, r, seen, before := PushAndCall(inv, Text([97]), false);
    CoercedTextOverruns(c, before, seen);
  }

  lemma ShortTextMeans(c: Ctx)
    requires EnvOk(c.env) && c.def == FuncDef([OCString(Fixed(100))], Void, true, false)
    ensures Validate([OCString(Fixed(100))], Flags(None, true, false)) == None
    ensures CtxOk(c) && SoundDef(c.def) && Arity(c) == 1 && IsArg(Text([97]))
    ensures Accepts(c.env, c.def.coerce, c.def.argTypes[0], Text([97]))
    ensures AllLengthsFit(c, [Text([97])])
  {
    ValidateIsExact([OCString(Fixed(100))], Flags(None, true, false));
    hide MeaningAt, Validate;
  }

  /** Any struct inside a dynamic value for any longer one, in strict mode: the push and the call are
      accepted, and libffi is to copy the longer from a copy of the shorter. */
  method OverreadIsReachable(env: Env, mem: Mem, sv: StructState, big: StructType)
    returns (pushed: bool, r: Result<u64, CallError>, seen: Snapshot)
    requires EnvOk(env) && MemOk(mem) && ValidState(sv) && WfType(Struct(big)) && sv.layout.size < big.size
    ensures Validate([Struct(big)], Flags(None, false, false)) == None
    ensures pushed && r.Ok? && |seen.cells| == 1 && seen.cells[0].StructVal? && seen.cells[0].obj in seen.mem.objs
    ensures |seen.mem.objs[seen.cells[0].obj].data| == sv.layout.size < big.size
  {
    hide *;
    var c := Ctx(env, FuncDef([Struct(big)], Void, false, false));
    OneArgument(env, Struct(big), StructArg(sv));
    DynamicStructMeans(c, sv, big);
    var inv := new Invocation.Prep(c, mem);
    ghost var before;
    pushed, r, seen, before := PushAndCall(inv, StructArg(sv), false);
    ShortStructIsOverread(c, sv, big, before, seen);
  }

  lemma DynamicStructMeans(c: Ctx, sv: StructState, big: StructType)
    requires SoundDef(c.def) && c.def.argTypes == [Struct(big)] && ValidState(sv)
    ensures IsArg(StructArg(sv)) && Accepts(c.env, c.def.coerce, c.def.argTypes[0], StructArg(sv))
  {
  }

  /** A variable pushed for an integer argument: the push and the call are accepted, and where libffi is to
      read the number it finds the variable's address. */
  method MisreadIsReachable(env: Env, mem: Mem, ty: IntType, h: nat, size: nat)
    returns (pushed: bool, r: Result<u64, CallError>, seen: Snapshot)
    requires EnvOk(env) && MemOk(mem) && IsUnit(size) && h in mem.objs && |mem.objs[h].data| == size
    ensures Validate([Int(ty)], Flags(None, false, false)) == None
    ensures pushed && r.Ok? && |seen.cells| == 1 && Target(seen.cells[0], seen.mem) == Some(h)
  {
    assert WfType(Int(ty));
    hide *;
    var c := Ctx(env, FuncDef([Int(ty)], Void, false, false));
    OneArgument(env, Int(ty), MutPrim(h, size));
    VariableMeans(c, mem, ty, h, size);
    var inv := new Invocation.Prep(c, mem);
    ghost var before;
    pushed, r, seen, before := PushAndCall(inv, MutPrim(h, size), true);
    VariableIsMisread(c, ty, h, size, before, seen);
  }

  lemma VariableMeans(c: Ctx, mem: Mem, ty: IntType, h: nat, size: nat)
    requires SoundDef(c.def) && c.def.argTypes == [Int(ty)]
    requires IsUnit(size) && h in mem.objs && |mem.objs[h].data| == size
    ensures WfType(Int(ty)) && Accepts(c.env, c.def.coerce, c.def.argTypes[0], MutPrim(h, size))
    ensures IsMutArg(MutPrim(h, size)) && Borrowable(MutPrim(h, size), mem, {})
  {
  }
}
