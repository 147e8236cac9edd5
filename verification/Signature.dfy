/** `validate_signature`: the checks made once, at definition, so that calls cannot fail on them. */
module Signature {
  import opened Wrappers
  import opened Numbers
  import opened Types
  import opened Layout

  datatype Flags = Flags(fixedArgs: Option<byte>, coerce: bool, captureErrno: bool)

  datatype FuncDef = FuncDef(argTypes: seq<ArgType>, returnType: ArgType, coerce: bool, captureErrno: bool)

  datatype SignatureError =
    | NeedsLength(i: nat)
    | LengthOutOfRange(i: nat)
    | LengthIsItself(i: nat)
    | LengthNotInteger(i: nat)
    | TooManyFixed
    | Promoted(i: nat)

  /** C widens these when they travel through `...`. */
  predicate IsPromoted(t: ArgType) {
    t.F32? || (t.Int? && (t.ty.Char? || t.ty.I8? || t.ty.I16? || t.ty.U16?))
  }

  /** The buffer rules for argument `i`. */
  function LengthError(args: seq<ArgType>, i: nat): Option<SignatureError>
    requires i < |args|
  {
    match args[i]
    case OCString(NoLength) => Some(NeedsLength(i))
    case OCString(FromArg(k)) => ReferenceError(args, i, k)
    case OByteBuffer(FromArg(k)) => ReferenceError(args, i, k)
    case _ => None
  }

  function ReferenceError(args: seq<ArgType>, i: nat, k: nat): Option<SignatureError> {
    if k >= |args| then Some(LengthOutOfRange(i))
    else if k == i then Some(LengthIsItself(i))
    else if !args[k].Int? then Some(LengthNotInteger(i))
    else None
  }

  function CheckLengths(args: seq<ArgType>, i: nat): Option<SignatureError>
    requires i <= |args|
    decreases |args| - i
  {
    if i == |args| then None
    else if LengthError(args, i).Some? then LengthError(args, i)
    else CheckLengths(args, i + 1)
  }

  function CheckVariadic(args: seq<ArgType>, i: nat): Option<SignatureError>
    requires i <= |args|
    decreases |args| - i
  {
    if i == |args| then None
    else if IsPromoted(args[i]) then Some(Promoted(i))
    else CheckVariadic(args, i + 1)
  }

  /** `validate_signature`: the first violated rule. */
  function Validate(args: seq<ArgType>, flags: Flags): Option<SignatureError> {
    if CheckLengths(args, 0).Some? then CheckLengths(args, 0)
    else
      match flags.fixedArgs
      case None => None
      case Some(fixed) => if fixed > |args| then Some(TooManyFixed) else CheckVariadic(args, fixed)
  }

  /** Every buffer that takes its length from an argument takes it from another, integer, argument;
      every output string has a length. */
  predicate LengthsOk(args: seq<ArgType>) {
    forall i :: 0 <= i < |args| ==> LengthOk(args, i)
  }

  predicate LengthOk(args: seq<ArgType>, i: nat)
    requires i < |args|
  {
    match args[i]
    case OCString(NoLength) => false
    case OCString(FromArg(k)) => k < |args| && k != i && args[k].Int?
    case OByteBuffer(FromArg(k)) => k < |args| && k != i && args[k].Int?
    case _ => true
  }

  predicate VariadicOk(args: seq<ArgType>, flags: Flags) {
    match flags.fixedArgs
    case None => true
    case Some(fixed) => fixed <= |args| && forall i :: fixed <= i < |args| ==> !IsPromoted(args[i])
  }

  lemma {:induction false} CheckLengthsExact(args: seq<ArgType>, i: nat)
    requires i <= |args|
    ensures CheckLengths(args, i).None? <==> forall j :: i <= j < |args| ==> LengthError(args, j).None?
    decreases |args| - i
  {
    if i < |args| && LengthError(args, i).None? {
      CheckLengthsExact(args, i + 1);
    }
  }

  lemma {:induction false} CheckVariadicExact(args: seq<ArgType>, i: nat)
    requires i <= |args|
    ensures CheckVariadic(args, i).None? <==> forall j :: i <= j < |args| ==> !IsPromoted(args[j])
    decreases |args| - i
  {
    if i < |args| && !IsPromoted(args[i]) {
      CheckVariadicExact(args, i + 1);
    }
  }

  /** Acceptance is exactly the conjunction of the rules. */
  lemma ValidateIsExact(args: seq<ArgType>, flags: Flags)
    ensures Validate(args, flags).None? <==> LengthsOk(args) && VariadicOk(args, flags)
  {
    CheckLengthsExact(args, 0);
    assert forall j :: 0 <= j < |args| ==> (LengthOk(args, j) <==> LengthError(args, j).None?);
    if flags.fixedArgs.Some? && flags.fixedArgs.value <= |args| {
      CheckVariadicExact(args, flags.fixedArgs.value);
    }
  }

  /** What every definition guarantees to its calls. */
  predicate SoundDef(def: FuncDef) {
    && LengthsOk(def.argTypes)
    && (forall i :: 0 <= i < |def.argTypes| ==> WfType(def.argTypes[i]))
    && WfType(def.returnType)
    && !def.returnType.Struct?
  }

  /** C widens integers narrower than 4 bytes, and `float`. */
  lemma PromotedTypes(t: ArgType)
    ensures IsPromoted(t) <==> t == F32 || (t.Int? && Width(t.ty) < 4)
  {
  }

  lemma {:induction false} FirstLengthError(args: seq<ArgType>, i: nat)
    requires i <= |args|
    ensures CheckLengths(args, i).Some? ==>
      exists j :: i <= j < |args| && CheckLengths(args, i) == LengthError(args, j) && !LengthOk(args, j)
        && forall l :: i <= l < j ==> LengthOk(args, l)
    decreases |args| - i
  {
    assert i < |args| ==> (LengthOk(args, i) <==> LengthError(args, i).None?);
    if i < |args| && LengthError(args, i).None? {
      FirstLengthError(args, i + 1);
    }
  }

  lemma {:induction false} FirstPromoted(args: seq<ArgType>, i: nat)
    requires i <= |args|
    ensures CheckVariadic(args, i).Some? ==>
      exists j :: i <= j < |args| && CheckVariadic(args, i) == Some(Promoted(j)) && IsPromoted(args[j])
        && forall l :: i <= l < j ==> !IsPromoted(args[l])
    decreases |args| - i
  {
    hide IsPromoted;
    if i < |args| && !IsPromoted(args[i]) {
      FirstPromoted(args, i + 1);
    }
  }

  /** The error is the first one: it names the argument and what is wrong with it. */
  lemma ErrorIsTheFirst(args: seq<ArgType>, flags: Flags)
    ensures match Validate(args, flags)
      case None => true
      case Some(NeedsLength(i)) => i < |args| && args[i] == OCString(NoLength)
      case Some(LengthOutOfRange(i)) =>
        && i < |args| && (args[i].OCString? || args[i].OByteBuffer?) && args[i].length.FromArg?
        && args[i].length.k >= |args|
      case Some(LengthIsItself(i)) =>
        && i < |args| && (args[i].OCString? || args[i].OByteBuffer?) && args[i].length.FromArg?
        && args[i].length.k == i
      case Some(LengthNotInteger(i)) =>
        && i < |args| && (args[i].OCString? || args[i].OByteBuffer?) && args[i].length.FromArg?
        && args[i].length.k < |args| && args[i].length.k != i && !args[args[i].length.k].Int?
      case Some(TooManyFixed) => LengthsOk(args) && flags.fixedArgs.Some? && flags.fixedArgs.value > |args|
      case Some(Promoted(i)) =>
        && LengthsOk(args) && flags.fixedArgs.Some? && flags.fixedArgs.value <= i < |args| && IsPromoted(args[i])
        && forall l :: flags.fixedArgs.value <= l < i ==> !IsPromoted(args[l])
  {
    ValidateIsExact(args, flags.(fixedArgs := None));
    FirstLengthError(args, 0);
    if flags.fixedArgs.Some? && flags.fixedArgs.value <= |args| {
      FirstPromoted(args, flags.fixedArgs.value);
    }
    hide IsPromoted, CheckVariadic, CheckLengths;
  }
}
