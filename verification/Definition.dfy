/**
 `define_function` but for loading the library: a whole descriptor text to a checked definition.
 */
module Definitions {
  import opened Wrappers
  import opened Numbers
  import opened Types
  import opened Layout
  import opened Text
  import opened Split
  import opened Descriptor
  import opened Aliases
  import opened Signature

  // -- plain splitting ----------------------------------------------------------------------------------------------

  /** `str::split`. */
  function SplitOn(s: string, c: char): (ps: seq<string>)
    ensures ps != []
  {
    var i := IndexOf(s, c);
    if i == |s| then [s] else [s[..i]] + SplitOn(s[i + 1..], c)
  }

  predicate Without(ps: seq<string>, c: char) {
    forall i :: 0 <= i < |ps| ==> c !in ps[i]
  }

  lemma {:induction false} SplitOnSplits(s: string, c: char)
    ensures Without(SplitOn(s, c), c) && Join(SplitOn(s, c), c) == s
    decreases |s|
  {
    var i := IndexOf(s, c);
    if i < |s| {
      SplitOnSplits(s[i + 1..], c);
      assert s[..i] + [c] + s[i + 1..] == s;
      assert SplitOn(s, c)[1..] == SplitOn(s[i + 1..], c);
    }
  }

  lemma IndexOfFirst(a: string, c: char, rest: string)
    requires c !in a
    ensures IndexOf(a, c) == |a| && IndexOf(a + [c] + rest, c) == |a|
  {
    assert (a + [c] + rest)[|a|] == c;
    assert forall j :: 0 <= j < |a| ==> (a + [c] + rest)[j] == a[j];
  }

  lemma {:induction false} JoinedIsSplit(ps: seq<string>, c: char)
    requires ps != [] && Without(ps, c)
    ensures SplitOn(Join(ps, c), c) == ps
    decreases |ps|
  {
    hide IndexOf;
    IndexOfFirst(ps[0], c, Join(ps[1..], c));
    if |ps| > 1 {
      JoinedIsSplit(ps[1..], c);
      var s := ps[0] + [c] + Join(ps[1..], c);
      assert s[..|ps[0]|] == ps[0] && s[|ps[0]| + 1..] == Join(ps[1..], c);
    }
  }

  /** The pieces are the one way to write the text as separator-free pieces joined by the separator. */
  lemma SplitOnIsUnique(ps: seq<string>, s: string, c: char)
    ensures ps == SplitOn(s, c) <==> ps != [] && Without(ps, c) && Join(ps, c) == s
  {
    hide Without, Join;
    SplitOnSplits(s, c);
    if ps != [] && Without(ps, c) {
      JoinedIsSplit(ps, c);
    }
    hide SplitOn;
  }

  // -- flags --------------------------------------------------------------------------------------------------------

  datatype FlagError = UnknownFlag | BadCount

  const COUNT_PREFIX := "fixargs="

  /** The count a flag gives, if it is one. */
  function CountIn(part: string): Option<byte> {
    var flag := Trim(part);
    if COUNT_PREFIX <= flag then ParseUnsigned(flag[|COUNT_PREFIX|..], 0xFF) else None
  }

  predicate IsCount(part: string) {
    COUNT_PREFIX <= Trim(part)
  }

  predicate IsFlag(part: string) {
    Trim(part) == "" || Trim(part) == "coerce" || Trim(part) == "errno" || CountIn(part).Some?
  }

  function ApplyFlag(flags: Flags, part: string): Result<Flags, FlagError> {
    var flag := Trim(part);
    if flag == "coerce" then Ok(flags.(coerce := true))
    else if flag == "errno" then Ok(flags.(captureErrno := true))
    else if COUNT_PREFIX <= flag then
      match CountIn(part)
      case Some(n) => Ok(flags.(fixedArgs := Some(n)))
      case None => Err(BadCount)
    else if flag != "" then Err(UnknownFlag)
    else Ok(flags)
  }

  /** The flags after the given parts, or the first error. */
  function FlagsOf(parts: seq<string>): Result<Flags, FlagError> {
    if parts == [] then Ok(Flags(None, false, false))
    else
      match FlagsOf(parts[..|parts| - 1])
      case Err(e) => Err(e)
      case Ok(flags) => ApplyFlag(flags, parts[|parts| - 1])
  }

  /** `parse_flags`. */
  method ParseFlags(text: string) returns (r: Result<Flags, FlagError>)
    ensures r == FlagsOf(SplitOn(text, ','))
  {
    hide SplitOn, Trim, ParseUnsigned;
    var parts := SplitOn(text, ',');
    var fixedArgs: Option<byte>, coerce, captureErrno := None, false, false;
    for i := 0 to |parts|
      invariant FlagsOf(parts[..i]) == Ok(Flags(fixedArgs, coerce, captureErrno))
    {
      assert parts[..i + 1][..i] == parts[..i];
      var flag := Trim(parts[i]);
      if flag == "coerce" {
        coerce := true;
      } else if flag == "errno" {
        captureErrno := true;
      } else if COUNT_PREFIX <= flag {
        var count := ParseUnsigned(flag[|COUNT_PREFIX|..], 0xFF);
        if count.None? {
          ErrorStays(parts, i + 1);
          return Err(BadCount);
        }
        fixedArgs := Some(count.value);
      } else if flag != "" {
        ErrorStays(parts, i + 1);
        return Err(UnknownFlag);
      }
    }
    assert parts[..|parts|] == parts;
    return Ok(Flags(fixedArgs, coerce, captureErrno));
  }

  lemma {:induction false} ErrorStays(parts: seq<string>, i: nat)
    requires i <= |parts| && FlagsOf(parts[..i]).Err?
    ensures FlagsOf(parts) == FlagsOf(parts[..i])
  {
    if i == |parts| {
      assert parts[..i] == parts;
    } else {
      assert parts[..|parts| - 1][..i] == parts[..i];
      ErrorStays(parts[..|parts| - 1], i);
    }
  }

  /** What one part does. */
  lemma FlagStep(flags: Flags, part: string)
    ensures ApplyFlag(flags, part).Ok? <==> IsFlag(part)
    ensures ApplyFlag(flags, part).Ok? ==>
      var after := ApplyFlag(flags, part).value;
      && (after.coerce <==> flags.coerce || Trim(part) == "coerce")
      && (after.captureErrno <==> flags.captureErrno || Trim(part) == "errno")
      && (if IsCount(part) then CountIn(part).Some? && after.fixedArgs == CountIn(part)
          else after.fixedArgs == flags.fixedArgs)
  {
    hide Trim, ParseUnsigned;
  }

  predicate Has(parts: seq<string>, flag: string) {
    exists i :: 0 <= i < |parts| && Trim(parts[i]) == flag
  }

  /** `part` is the last count among the parts. */
  predicate LastCount(parts: seq<string>, i: nat) {
    && i < |parts| && IsCount(parts[i])
    && forall j :: i < j < |parts| ==> !IsCount(parts[j])
  }

  lemma {:induction false} FlagsAreKnown(parts: seq<string>)
    ensures FlagsOf(parts).Ok? <==> forall i :: 0 <= i < |parts| ==> IsFlag(parts[i])
  {
    hide IsFlag, ApplyFlag;
    if parts != [] {
      var last := |parts| - 1;
      var before := parts[..last];
      FlagsAreKnown(before);
      assert forall i :: 0 <= i < last ==> before[i] == parts[i];
      if FlagsOf(before).Ok? {
        FlagStep(FlagsOf(before).value, parts[last]);
      }
    }
  }

  lemma {:induction false} FlagsAreNamed(parts: seq<string>)
    ensures FlagsOf(parts).Ok? ==>
      var flags := FlagsOf(parts).value;
      (flags.coerce <==> Has(parts, "coerce")) && (flags.captureErrno <==> Has(parts, "errno"))
  {
    hide Trim, ApplyFlag, Has, IsFlag;
    if parts == [] {
      NothingNamed();
    } else {
      var last := |parts| - 1;
      FlagsAreNamed(parts[..last]);
      if FlagsOf(parts[..last]).Ok? {
        FlagStep(FlagsOf(parts[..last]).value, parts[last]);
        HasAppend(parts[..last], parts, "coerce");
        HasAppend(parts[..last], parts, "errno");
      }
    }
  }

  lemma NothingNamed()
    ensures !Has([], "coerce") && !Has([], "errno")
  {
  }

  lemma {:induction false} CountsAreLast(parts: seq<string>)
    ensures FlagsOf(parts).Ok? ==>
      var flags := FlagsOf(parts).value;
      && (flags.fixedArgs.None? <==> forall i :: 0 <= i < |parts| ==> !IsCount(parts[i]))
      && (forall i: nat :: LastCount(parts, i) ==> flags.fixedArgs == CountIn(parts[i]))
  {
    hide Trim, IsFlag, IsCount, CountIn, ApplyFlag;
    if parts != [] {
      var last := |parts| - 1;
      var before := parts[..last];
      CountsAreLast(before);
      assert forall i :: 0 <= i < last ==> before[i] == parts[i];
      if FlagsOf(before).Ok? {
        FlagStep(FlagsOf(before).value, parts[last]);
        assert forall i: nat :: LastCount(parts, i) && i < last ==> LastCount(before, i);
      }
    }
  }

  /** Flags are accepted when every part is one, in any order; each holds exactly when some part names
      it, and of several counts the last one holds. */
  lemma FlagsAreExact(parts: seq<string>)
    ensures FlagsOf(parts).Ok? <==> forall i :: 0 <= i < |parts| ==> IsFlag(parts[i])
    ensures FlagsOf(parts).Ok? ==>
      var flags := FlagsOf(parts).value;
      && (flags.coerce <==> Has(parts, "coerce"))
      && (flags.captureErrno <==> Has(parts, "errno"))
      && (flags.fixedArgs.None? <==> forall i :: 0 <= i < |parts| ==> !IsCount(parts[i]))
      && (forall i: nat :: LastCount(parts, i) ==> flags.fixedArgs == CountIn(parts[i]))
  {
    hide *;
    FlagsAreKnown(parts);
    FlagsAreNamed(parts);
    CountsAreLast(parts);
  }

  lemma HasAppend(before: seq<string>, parts: seq<string>, flag: string)
    requires parts != [] && before == parts[..|parts| - 1]
    ensures Has(parts, flag) <==> Has(before, flag) || Trim(parts[|parts| - 1]) == flag
  {
    hide Trim;
    if i :| 0 <= i < |before| && Trim(before[i]) == flag {
      assert Trim(parts[i]) == flag;
    }
    if i :| 0 <= i < |parts| && Trim(parts[i]) == flag {
      assert i < |before| ==> Trim(before[i]) == flag;
    }
  }

  // -- definitions ----------------------------------------------------------------------------------------------------

  datatype DefinitionError =
    | FieldCount
    | BadType(cause: ParseError)
    | BadFlag(fault: FlagError)
    | BadSignature(reason: SignatureError)
    | StructReturn

  /** `define_function`: `library|function|arguments|return type|flags`. */
  function DefineFunction(tables: nat -> Table, descriptor: string, defaultCoerce: bool)
    : Result<FuncDef, DefinitionError>
  {
    var fields := SplitOn(descriptor, '|');
    if |fields| != 5 then Err(FieldCount)
    else
      var args := ParseTypes(tables, 0, fields[2]);
      match (args.result, FlagsOf(SplitOn(fields[4], ',')))
      case (Err(e), _) => Err(BadType(e))
      case (Ok(_), Err(e)) => Err(BadFlag(e))
      case (Ok(ts), Ok(flags)) =>
        var broken := Validate(ts, flags);
        if broken.Some? then Err(BadSignature(broken.value))
        else
          match ParseType(tables, args.next, fields[3]).result
          case Err(e) => Err(BadType(e))
          case Ok(t) => if t.Struct? then Err(StructReturn) else Ok(DefinitionOf(ts, t, flags, defaultCoerce))
  }

  function DefinitionOf(ts: seq<ArgType>, t: ArgType, flags: Flags, defaultCoerce: bool): FuncDef {
    FuncDef(ts, t, flags.coerce || defaultCoerce, flags.captureErrno)
  }

  lemma {:induction false} EachParsedIsWf(tables: nat -> Table, k: nat, parts: seq<string>, bound: nat, i: nat)
    requires NoLonger(parts, bound) && forall j :: TableOk(tables(j))
    requires ParseEach(tables, k, parts, bound).result.Ok? && i < |parts|
    ensures WfType(ParseEach(tables, k, parts, bound).result.value[i])
    decreases |parts|
  {
    hide TableOk, ParseType;
    ParsedTypeIsWf(tables, k, parts[0]);
    if i > 0 {
      EachParsedIsWf(tables, ParseType(tables, k, parts[0]).next, parts[1..], bound, i - 1);
    }
  }

  lemma ParsedTypesAreWf(tables: nat -> Table, k: nat, text: string)
    requires forall j :: TableOk(tables(j))
    ensures ParseTypes(tables, k, text).result.Ok? ==>
      forall i :: 0 <= i < |ParseTypes(tables, k, text).result.value| ==>
        WfType(ParseTypes(tables, k, text).result.value[i])
  {
    hide TableOk, ParseEach, Fields, WfType;
    if ParseTypes(tables, k, text).result.Ok? {
      forall i | 0 <= i < |ParseTypes(tables, k, text).result.value|
        ensures WfType(ParseTypes(tables, k, text).result.value[i])
      {
        EachParsedIsWf(tables, k, Fields(text).value, |text|, i);
      }
    }
  }

  /** A definition holds what its text says: the parsed argument and return types and the named flags. It
      is accepted exactly when there are five fields, the types parse, every flag is one, the signature
      keeps the rules and the result is no struct. */
  lemma DefinitionIsExact(tables: nat -> Table, descriptor: string, defaultCoerce: bool)
    ensures var r, fields := DefineFunction(tables, descriptor, defaultCoerce), SplitOn(descriptor, '|');
      && (r.Ok? ==>
        && |fields| == 5
        && ParseTypes(tables, 0, fields[2]).result == Ok(r.value.argTypes)
        && ParseType(tables, ParseTypes(tables, 0, fields[2]).next, fields[3]).result == Ok(r.value.returnType)
        && (r.value.coerce <==> defaultCoerce || Has(SplitOn(fields[4], ','), "coerce"))
        && (r.value.captureErrno <==> Has(SplitOn(fields[4], ','), "errno")))
      && (r.Ok? <==>
        && |fields| == 5
        && var args, flags := ParseTypes(tables, 0, fields[2]), FlagsOf(SplitOn(fields[4], ','));
          && args.result.Ok? && flags.Ok?
          && LengthsOk(args.result.value) && VariadicOk(args.result.value, flags.value)
          && var t := ParseType(tables, args.next, fields[3]).result;
            t.Ok? && !t.value.Struct?)
  {
    hide ParseType, ParseTypes, Validate, LengthsOk, VariadicOk, SplitOn, FlagsOf, Has, IsFlag, IsCount, CountIn;
    var fields := SplitOn(descriptor, '|');
    if |fields| == 5 {
      FlagsAreExact(SplitOn(fields[4], ','));
      var args, flags := ParseTypes(tables, 0, fields[2]), FlagsOf(SplitOn(fields[4], ','));
      if args.result.Ok? && flags.Ok? {
        ValidateIsExact(args.result.value, flags.value);
      }
    }
  }

  /** And a refusal names the first thing wrong. */
  lemma RefusalIsExact(tables: nat -> Table, descriptor: string, defaultCoerce: bool)
    requires DefineFunction(tables, descriptor, defaultCoerce).Err?
    ensures var e, fields := DefineFunction(tables, descriptor, defaultCoerce).error, SplitOn(descriptor, '|');
      if |fields| != 5 then e == FieldCount
      else
        var args, flags := ParseTypes(tables, 0, fields[2]), FlagsOf(SplitOn(fields[4], ','));
        if args.result.Err? then e == BadType(args.result.error)
        else if flags.Err? then e == BadFlag(flags.error)
        else if Validate(args.result.value, flags.value).Some? then
          e == BadSignature(Validate(args.result.value, flags.value).value)
        else
          var t := ParseType(tables, args.next, fields[3]).result;
          if t.Err? then e == BadType(t.error) else t.value.Struct? && e == StructReturn
  {
    hide ParseType, ParseTypes, Validate, SplitOn, FlagsOf;
  }

  /** Whatever is accepted, with whatever aliases, keeps what calls rely on. */
  lemma DefinedFunctionsAreSound(tables: nat -> Table, descriptor: string, defaultCoerce: bool)
    requires forall j :: TableOk(tables(j))
    ensures DefineFunction(tables, descriptor, defaultCoerce).Ok? ==>
      SoundDef(DefineFunction(tables, descriptor, defaultCoerce).value)
  {
    hide TableOk, ParseType, ParseTypes, Validate, LengthsOk, SplitOn, FlagsOf, WfType;
    var r := DefineFunction(tables, descriptor, defaultCoerce);
    if r.Ok? {
      var fields := SplitOn(descriptor, '|');
      ParsedTypesAreWf(tables, 0, fields[2]);
      ValidateIsExact(r.value.argTypes, FlagsOf(SplitOn(fields[4], ',')).value);
      ParsedTypeIsWf(tables, ParseTypes(tables, 0, fields[2]).next, fields[3]);
    }
  }

  /** The return type is not optional, whatever the other fields are. */
  lemma BlankReturnIsRefused(tables: nat -> Table, descriptor: string, defaultCoerce: bool)
    requires forall j :: TableOk(tables(j))
    requires var fields := SplitOn(descriptor, '|'); |fields| == 5 && Blank(fields[3])
    ensures DefineFunction(tables, descriptor, defaultCoerce).Err?
  {
    hide ParseTypes, Validate, SplitOn, FlagsOf, Trim, WfType;
    var fields := SplitOn(descriptor, '|');
    NoIndex();
    assert Trim("") == "" by {
      assert Trimmed("");
    }
    assert ParseDef("") == ("", None);
  }

  lemma NoIndex()
    ensures IndexOf("", '=') == 0
  {
  }

  // -- printing a definition --------------------------------------------------------------------------------

  function FlagTexts(flags: Flags): seq<string> {
    (if flags.fixedArgs.Some? then [COUNT_PREFIX + NatText(flags.fixedArgs.value)] else [])
      + (if flags.coerce then ["coerce"] else [])
      + (if flags.captureErrno then ["errno"] else [])
  }

  /** The descriptor of a definition. */
  function PrintDefinition(library: string, entry: string, ts: seq<ArgType>, t: ArgType, flags: Flags): string {
    Join([library, entry, PrintTypes(ts), PrintType(t), Join(FlagTexts(flags), ',')], '|')
  }

  lemma CountIsPlain(digits: string)
    requires digits != [] && AllDigits(digits)
    ensures var text := COUNT_PREFIX + digits;
      && ',' !in text && '|' !in text && Trim(text) == text && text != "coerce" && text != "errno"
      && text[|COUNT_PREFIX|..] == digits
  {
    hide Trim;
    var text := COUNT_PREFIX + digits;
    assert text[0] == 'f' && text[|text| - 1] == digits[|digits| - 1];
    assert IsDigit(text[|text| - 1]);
    assert Trimmed(text);
  }

  lemma CountRoundTrip(n: byte)
    ensures COUNT_PREFIX == "fixargs="
    ensures var text := COUNT_PREFIX + NatText(n);
      && ',' !in text && '|' !in text && Trim(text) == text
      && CountIn(text) == Some(n) && text != "coerce" && text != "errno"
  {
    hide Trim, NatText, ParseUnsigned, AllDigits;
    CountIsPlain(NatText(n));
    ParseUnsignedOfText(n, 0xFF);
  }

  lemma FlagTextsArePlain(flags: Flags)
    ensures Without(FlagTexts(flags), ',') && Without(FlagTexts(flags), '|')
  {
    if flags.fixedArgs.Some? {
      CountRoundTrip(flags.fixedArgs.value);
    }
    hide NatText;
  }

  lemma FlagsAppend(parts: seq<string>, flags: Flags, part: string)
    requires FlagsOf(parts) == Ok(flags)
    ensures FlagsOf(parts + [part]) == ApplyFlag(flags, part)
  {
    hide ApplyFlag;
    assert (parts + [part])[..|parts|] == parts;
  }

  lemma WordFlags(flags: Flags)
    ensures ApplyFlag(flags, "coerce") == Ok(flags.(coerce := true))
    ensures ApplyFlag(flags, "errno") == Ok(flags.(captureErrno := true))
  {
    assert Trimmed("coerce") && Trimmed("errno");
    assert Trim("coerce") == "coerce" && Trim("errno") == "errno";
    hide Trim, ParseUnsigned;
  }

  lemma FlagTextsAreRead(flags: Flags)
    ensures FlagsOf(FlagTexts(flags)) == Ok(flags)
  {
    var parts: seq<string>, read := [], Flags(None, false, false);
    assert FlagsOf(parts) == Ok(read);
    hide NatText, CountIn, FlagsOf;
    if flags.fixedArgs.Some? {
      CountRoundTrip(flags.fixedArgs.value);
      FlagsAppend(parts, read, COUNT_PREFIX + NatText(flags.fixedArgs.value));
      parts, read := [COUNT_PREFIX + NatText(flags.fixedArgs.value)], read.(fixedArgs := flags.fixedArgs);
    }
    if flags.coerce {
      WordFlags(read);
      FlagsAppend(parts, read, "coerce");
      parts, read := parts + ["coerce"], read.(coerce := true);
    }
    if flags.captureErrno {
      WordFlags(read);
      FlagsAppend(parts, read, "errno");
      parts, read := parts + ["errno"], read.(captureErrno := true);
    }
    assert parts == FlagTexts(flags);
  }

  lemma FlagsRoundTrip(flags: Flags)
    ensures FlagsOf(SplitOn(Join(FlagTexts(flags), ','), ',')) == Ok(flags)
  {
    var texts := FlagTexts(flags);
    FlagTextsArePlain(flags);
    FlagTextsAreRead(flags);
    if texts == [] {
      assert SplitOn("", ',') == [""] && [""][..0] == [];
      assert FlagsOf([""]) == FlagsOf([]);
    } else {
      SplitOnIsUnique(texts, Join(texts, ','), ',');
    }
  }

  lemma {:induction false} JoinIsWithout(ps: seq<string>, sep: char, c: char)
    requires Without(ps, c) && c != sep
    ensures c !in Join(ps, sep)
  {
    if |ps| > 1 {
      JoinIsWithout(ps[1..], sep, c);
    }
  }

  lemma {:induction false} PrintedHasNoBar(t: ArgType)
    ensures '|' !in PrintType(t)
  {
    match t {
      case Struct(st) =>
        var parts := seq(|st.fields|, i requires 0 <= i < |st.fields| => PrintType(st.fields[i].argType));
        forall i | 0 <= i < |parts|
          ensures '|' !in parts[i]
        {
          PrintedHasNoBar(st.fields[i].argType);
        }
        JoinIsWithout(parts, ',', '|');
      case Pointer(target) =>
        PrintedHasNoBar(target);
      case OCString(length) =>
        LengthHasNoBar(length);
      case OByteBuffer(length) =>
        LengthHasNoBar(length);
      case _ =>
    }
  }

  lemma LengthHasNoBar(length: LengthDef)
    ensures '|' !in PrintLength(length)
  {
    if !length.NoLength? {
      assert AllDigits(NatText(if length.FromArg? then length.k else length.n));
    }
  }

  lemma TypesHaveNoBar(ts: seq<ArgType>)
    ensures '|' !in PrintTypes(ts)
  {
    forall i | 0 <= i < |ts|
      ensures '|' !in PrintAll(ts)[i]
    {
      PrintedHasNoBar(ts[i]);
    }
    JoinIsWithout(PrintAll(ts), ',', '|');
  }

  /** Defining a printed signature gives it back, or the very fault it has: no text stands between a
      signature and its checks. */
  lemma DefinitionRoundTrip(tables: nat -> Table, library: string, entry: string, ts: seq<ArgType>, t: ArgType,
                            flags: Flags, defaultCoerce: bool)
    requires '|' !in library && '|' !in entry && WfType(t) && forall i :: 0 <= i < |ts| ==> WfType(ts[i])
    ensures var r := DefineFunction(tables, PrintDefinition(library, entry, ts, t, flags), defaultCoerce);
      match Validate(ts, flags)
      case Some(e) => r == Err(BadSignature(e))
      case None =>
        if t.Struct? then r == Err(StructReturn)
        else
          && r.Ok? && r.value.argTypes == ts && r.value.returnType == t
          && (r.value.coerce <==> flags.coerce || defaultCoerce) && r.value.captureErrno == flags.captureErrno
  {
    hide PrintTypes, PrintType, FlagTexts, Validate, ParseTypes, ParseType, SplitOn, FlagsOf, Join, WfType;
    var texts := FlagTexts(flags);
    var fields := [library, entry, PrintTypes(ts), PrintType(t), Join(texts, ',')];
    TypesHaveNoBar(ts);
    PrintedHasNoBar(t);
    FlagTextsArePlain(flags);
    JoinIsWithout(texts, ',', '|');
    SplitOnIsUnique(fields, Join(fields, '|'), '|');
    RoundTrip(tables, 0, ts);
    TypeRoundTrip(tables, 0, t);
    FlagsRoundTrip(flags);
  }
}
