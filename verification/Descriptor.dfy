/**
 The descriptor language: parsing type tokens against the alias table, and the canonical text of a
 type. The table may change while a descriptor is parsed, so the parser takes the table each of its
 lookups sees: `tables(k)` is what the `k`-th lookup finds.
 */
module Descriptor {
  import opened Wrappers
  import opened Numbers
  import opened Types
  import opened Layout
  import opened Text
  import opened Split

  type Table = map<string, ArgType>

  datatype ParseError =
    | Braces(cause: SplitError)
    | MissingCloseBrace
    | BadStruct(reason: LayoutError)
    | BadLength
    | UnknownType

  /** A result together with the number of the next lookup. */
  datatype Parsed<+T> = Parsed(result: Result<T, ParseError>, next: nat)

  /** The table as a single thread sees it: the same at every lookup. */
  function Still(table: Table): nat -> Table {
    (k: nat) => table
  }

  // -- tokens -----------------------------------------------------------------------------------------------

  /** Index of the first `c`, or the length. */
  function IndexOf(s: string, c: char): (i: nat)
    ensures i <= |s|
    ensures forall j :: 0 <= j < i ==> s[j] != c
    ensures i < |s| ==> s[i] == c
  {
    if s == [] || s[0] == c then 0 else 1 + IndexOf(s[1..], c)
  }

  /** `parse_def`: a qualifier counts only when the token has exactly one `=`. */
  function ParseDef(token: string): (string, Option<string>) {
    var i := IndexOf(token, '=');
    if i == |token| then (token, None)
    else if '=' in token[i + 1..] then (token[..i], None)
    else (token[..i], Some(token[i + 1..]))
  }

  function ParseLength(qualifier: Option<string>): Option<LengthDef> {
    match qualifier
    case None => Some(NoLength)
    case Some(q) =>
      if "arg" <= q then
        match ParseUnsigned(q[3..], 0xFF)
        case Some(k) => Some(FromArg(k))
        case None => None
      else
        match ParseUnsigned(q, 0xFFFF_FFFF_FFFF_FFFF)
        case Some(n) => Some(Fixed(n))
        case None => None
  }

  /** The built-in tokens that ignore a qualifier, for the 64-bit Unix target. */
  function PlainToken(name: string): Option<ArgType> {
    if name == "u8" || name == "bool" then Some(Int(Char))
    else if name == "i8" then Some(Int(I8))
    else if name == "u16" then Some(Int(U16))
    else if name == "i16" then Some(Int(I16))
    else if name == "u32" then Some(Int(U32))
    else if name == "i32" then Some(Int(I32))
    else if name == "u64" || name == "usize" || name == "size_t" || name == "culong" then Some(Int(U64))
    else if name == "i64" || name == "isize" || name == "ssize_t" || name == "clong" then Some(Int(I64))
    else if name == "f32" then Some(F32)
    else if name == "f64" then Some(F64)
    else if name == "ptr" then Some(OpaquePointer)
    else if name == "cstr" then Some(CString)
    else if name == "buff" then Some(ByteBuffer)
    else if name == "void" then Some(Void)
    else None
  }

  // Every spelling, those the canonical text never uses included.

  lemma ByteTokens(name: string)
    requires name == "u8" || name == "bool"
    ensures PlainToken(name) == Some(Int(Char))
  {
  }

  lemma SignedWideTokens(name: string)
    requires name == "i64" || name == "isize" || name == "ssize_t" || name == "clong"
    ensures PlainToken(name) == Some(Int(I64))
  {
  }

  lemma UnsignedWideTokens(name: string)
    requires name == "u64" || name == "usize" || name == "size_t" || name == "culong"
    ensures PlainToken(name) == Some(Int(U64))
  {
  }

  lemma NarrowTokens(name: string)
    ensures name == "i8" ==> PlainToken(name) == Some(Int(I8))
    ensures name == "u16" ==> PlainToken(name) == Some(Int(U16))
    ensures name == "i16" ==> PlainToken(name) == Some(Int(I16))
    ensures name == "u32" ==> PlainToken(name) == Some(Int(U32))
    ensures name == "i32" ==> PlainToken(name) == Some(Int(I32))
  {
  }

  lemma OtherTokens(name: string)
    ensures name == "f32" ==> PlainToken(name) == Some(F32)
    ensures name == "f64" ==> PlainToken(name) == Some(F64)
    ensures name == "ptr" ==> PlainToken(name) == Some(OpaquePointer)
    ensures name == "cstr" ==> PlainToken(name) == Some(CString)
    ensures name == "buff" ==> PlainToken(name) == Some(ByteBuffer)
    ensures name == "void" ==> PlainToken(name) == Some(Void)
  {
  }

  predicate IsBuiltin(name: string) {
    PlainToken(name).Some? || name == "ocstr" || name == "obuff"
  }

  /** The name a token is looked up under, if the parser looks it up at all. */
  function LookedUp(token: string): Option<string> {
    var (name, _) := ParseDef(token);
    if IsBuiltin(Trim(name)) then None else Some(Trim(name))
  }

  /** A token with a built-in name. */
  function BuiltinType(token: string): Result<ArgType, ParseError>
    requires LookedUp(token).None?
  {
    var (name, qualifier) := ParseDef(token);
    if PlainToken(Trim(name)).Some? then Ok(PlainToken(Trim(name)).value)
    else
      match ParseLength(qualifier)
      case None => Err(BadLength)
      case Some(length) => Ok(if Trim(name) == "ocstr" then OCString(length) else OByteBuffer(length))
  }

  /** The type an alias token stands for in a table: a qualified token never is one. */
  function AliasIn(table: Table, token: string): Option<ArgType> {
    var name := LookedUp(token);
    if name.Some? && ParseDef(token).1.None? && name.value in table then Some(table[name.value]) else None
  }

  function ParseToken(tables: nat -> Table, k: nat, token: string): (r: Parsed<ArgType>)
    ensures k <= r.next
  {
    if LookedUp(token).None? then Parsed(BuiltinType(token), k)
    else
      match AliasIn(tables(k), token)
      case Some(t) => Parsed(Ok(t), k + 1)
      case None => Parsed(Err(UnknownType), k + 1)
  }

  // -- the parser ---------------------------------------------------------------------------------------------

  predicate Starts(s: string, c: char) {
    s != [] && s[0] == c
  }

  predicate Ends(s: string, c: char) {
    s != [] && s[|s| - 1] == c
  }

  lemma {:induction false} PiecesAreShorter(s: string, sep: char)
    ensures forall i :: 0 <= i < |Pieces(s, sep)| ==> |Pieces(s, sep)[i]| <= |s|
    decreases |s|
  {
    var k := FirstTop(s, sep, 0);
    if k < |s| {
      PiecesAreShorter(s[k + 1..], sep);
    }
  }

  predicate NoLonger(parts: seq<string>, bound: nat) {
    forall i :: 0 <= i < |parts| ==> |parts[i]| <= bound
  }

  /** `split_top_level` at commas, as the parser uses it. */
  function Fields(s: string): (r: Result<seq<string>, SplitError>)
    ensures r == SplitTop(s, ',')
    ensures r.Ok? ==> NoLonger(r.value, |s|)
  {
    PiecesAreShorter(s, ',');
    SplitTop(s, ',')
  }

  function ParseType(tables: nat -> Table, k: nat, text: string): (r: Parsed<ArgType>)
    ensures k <= r.next
    decreases |text|, 0
  {
    var at := Trim(text);
    if Starts(at, '*') then
      var target := ParseType(tables, k, at[1..]);
      match target.result
      case Ok(t) => Parsed(Ok(Pointer(t)), target.next)
      case Err(e) => target
    else if Starts(at, '{') then
      if !Ends(at, '}') then Parsed(Err(MissingCloseBrace), k)
      else
        var inner := at[1..|at| - 1];
        match Fields(inner)
        case Err(e) => Parsed(Err(Braces(e)), k)
        case Ok(parts) =>
          var fields := ParseEach(tables, k, parts, |inner|);
          match fields.result
          case Err(e) => Parsed(Err(e), fields.next)
          case Ok(ts) => Parsed(MakeStruct(ts), fields.next)
    else
      ParseToken(tables, k, at)
  }

  function MakeStruct(ts: seq<ArgType>): Result<ArgType, ParseError> {
    match NewStruct(ts)
    case Ok(st) => Ok(Struct(st))
    case Err(e) => Err(BadStruct(e))
  }

  /** Parse the parts in order, stopping at the first error. */
  function ParseEach(tables: nat -> Table, k: nat, parts: seq<string>, ghost bound: nat): (r: Parsed<seq<ArgType>>)
    requires NoLonger(parts, bound)
    ensures k <= r.next
    ensures r.result.Ok? ==> |r.result.value| == |parts|
    decreases bound, |parts| + 1
  {
    if parts == [] then Parsed(Ok([]), k)
    else
      var first := ParseType(tables, k, parts[0]);
      match first.result
      case Err(e) => Parsed(Err(e), first.next)
      case Ok(t) =>
        var rest := ParseEach(tables, first.next, parts[1..], bound);
        match rest.result
        case Err(e) => rest
        case Ok(ts) => Parsed(Ok([t] + ts), rest.next)
  }

  /** `parse_arg_types`: the comma-separated list of a descriptor. */
  function ParseTypes(tables: nat -> Table, k: nat, text: string): Parsed<seq<ArgType>> {
    match Fields(text)
    case Err(e) => Parsed(Err(Braces(e)), k)
    case Ok(parts) => ParseEach(tables, k, parts, |text|)
  }

  // -- the grammar ----------------------------------------------------------------------------------------------

  /** White space around a type makes no difference. */
  lemma SpaceIsIgnored(tables: nat -> Table, k: nat, a: string, text: string, b: string)
    requires AllSpace(a) && AllSpace(b) && text != [] && Trimmed(text)
    ensures ParseType(tables, k, a + text + b) == ParseType(tables, k, text)
  {
    SpaceAroundIsTrimmed(a, text, b);
    hide Trim, ParseEach, ParseToken;
  }

  /** `*T` is a pointer to whatever `T` is, or fails as `T` does. */
  lemma StarIsPointer(tables: nat -> Table, k: nat, text: string)
    requires text != [] && Trimmed(text)
    ensures ParseType(tables, k, "*" + text).result ==
      match ParseType(tables, k, text).result
      case Ok(t) => Ok(Pointer(t))
      case Err(e) => Err(e)
  {
    var at := "*" + text;
    assert Trimmed(at) && Trim(at) == at && at[1..] == text;
    hide Trim, ParseEach, ParseToken, Fields;
  }

  /** An open brace must be closed at the end. */
  lemma OpenBraceIsRefused(tables: nat -> Table, k: nat, text: string)
    requires Trimmed(text) && Starts(text, '{') && !Ends(text, '}')
    ensures ParseType(tables, k, text).result == Err(MissingCloseBrace)
  {
    hide ParseEach, ParseToken, Fields;
  }

  /** A struct in braces has the types between its commas as fields, in order, none of them a struct. */
  lemma BracesAreStruct(tables: nat -> Table, k: nat, inner: string, parts: seq<string>, ts: seq<ArgType>)
    requires SplitTop(inner, ',') == Ok(parts) && NoLonger(parts, |inner|)
    requires ParseEach(tables, k, parts, |inner|).result == Ok(ts)
    ensures ParseType(tables, k, "{" + inner + "}").result.Ok? ==>
      var t := ParseType(tables, k, "{" + inner + "}").result.value;
      t.Struct? && FieldTypes(t.layout) == ts && forall i :: 0 <= i < |ts| ==> !ts[i].Struct? && !ts[i].Pointer?
    ensures ParseType(tables, k, "{" + inner + "}").result.Ok? <==>
      ts != [] && forall i :: 0 <= i < |ts| ==> ScalarSize(ts[i]).Some?
  {
    BracesParse(tables, k, inner, parts, ts);
    hide ParseType, ParseEach, SplitTop, NewStruct;
    NewIsExact(ts);
    forall i | 0 <= i < |ts|
      ensures ScalarSize(ts[i]).Some? ==> !ts[i].Struct? && !ts[i].Pointer?
    {
      ScalarSizes(ts[i]);
    }
  }

  lemma BracesParse(tables: nat -> Table, k: nat, inner: string, parts: seq<string>, ts: seq<ArgType>)
    requires SplitTop(inner, ',') == Ok(parts) && NoLonger(parts, |inner|)
    requires ParseEach(tables, k, parts, |inner|).result == Ok(ts)
    ensures ParseType(tables, k, "{" + inner + "}").result == MakeStruct(ts)
  {
    hide Trim, ParseEach, ParseToken, SplitTop, MakeStruct;
    var at := "{" + inner + "}";
    assert at[1..|at| - 1] == inner;
    assert Trimmed(at);
  }

  /** A name that is neither built in nor defined is refused, and so is a defined one with a qualifier. */
  lemma UnknownIsRefused(tables: nat -> Table, k: nat, token: string)
    requires token != [] && Trimmed(token) && !Starts(token, '*') && !Starts(token, '{')
    requires LookedUp(token).Some? && (LookedUp(token).value !in tables(k) || ParseDef(token).1.Some?)
    ensures ParseType(tables, k, token).result == Err(UnknownType)
  {
    hide Trim, LookedUp, ParseDef;
  }

  /** With a second `=` the qualifier is dropped: `ocstr=1=2` has no length. */
  lemma SecondEqualsDropsQualifier(name: string, rest: string)
    requires '=' !in name && '=' in rest
    ensures ParseDef(name + "=" + rest) == (name, None)
  {
    var s := name + "=" + rest;
    assert s[|name|] == '=';
    assert forall j :: 0 <= j < |name| ==> s[j] == name[j];
    assert IndexOf(s, '=') == |name| && s[..|name|] == name && s[|name| + 1..] == rest;
  }

  // -- canonical text ------------------------------------------------------------------------------------------

  function PrintLength(length: LengthDef): string {
    match length
    case NoLength => ""
    case FromArg(k) => "=arg" + NatText(k)
    case Fixed(n) => "=" + NatText(n)
  }

  function PrintInt(ty: IntType): string {
    match ty
    case Char => "u8"
    case I8 => "i8"
    case U16 => "u16"
    case I16 => "i16"
    case U32 => "u32"
    case I32 => "i32"
    case U64 => "u64"
    case I64 => "i64"
  }

  function PrintType(t: ArgType): string {
    match t
    case Int(ty) => PrintInt(ty)
    case F32 => "f32"
    case F64 => "f64"
    case CString => "cstr"
    case OCString(length) => "ocstr" + PrintLength(length)
    case ByteBuffer => "buff"
    case OByteBuffer(length) => "obuff" + PrintLength(length)
    case OpaquePointer => "ptr"
    case Struct(st) =>
      "{" + Join(seq(|st.fields|, i requires 0 <= i < |st.fields| => PrintType(st.fields[i].argType)), ',') + "}"
    case Pointer(target) => "*" + PrintType(target)
    case Void => "void"
  }

  function PrintAll(ts: seq<ArgType>): (r: seq<string>)
    ensures |r| == |ts|
  {
    seq(|ts|, i requires 0 <= i < |ts| => PrintType(ts[i]))
  }

  /** The descriptor text of an argument list. */
  function PrintTypes(ts: seq<ArgType>): string {
    Join(PrintAll(ts), ',')
  }

  // -- printing then parsing -------------------------------------------------------------------------------------

  /** Characters a printed token may have: none that the grammar gives a meaning of its own. */
  predicate IsPlain(s: string) {
    forall i :: 0 <= i < |s| ==> !IsSpace(s[i]) && Delta(s[i]) == 0 && s[i] != ',' && s[i] != '*'
  }

  /** What makes a text safe to stand as one item of a list. */
  predicate IsItem(s: string) {
    s != [] && Trimmed(s) && IsPiece(s, ',')
  }

  lemma PlainIsItem(s: string)
    requires s != [] && IsPlain(s)
    ensures IsItem(s) && !Starts(s, '*') && !Starts(s, '{')
  {
    PlainIsBalanced(s);
  }

  lemma TokenTextIsPlain(t: ArgType)
    requires !t.Struct? && !t.Pointer?
    ensures PrintType(t) != [] && IsPlain(PrintType(t))
  {
    hide PrintLength;
    match t {
      case OCString(length) => LengthTextIsPlain(length);
      case OByteBuffer(length) => LengthTextIsPlain(length);
      case _ =>
    }
  }

  lemma LengthTextIsPlain(length: LengthDef)
    ensures IsPlain(PrintLength(length))
  {
    match length {
      case NoLength =>
      case FromArg(k) => assert AllDigits(NatText(k));
      case Fixed(n) => assert AllDigits(NatText(n));
    }
  }

  lemma NoEquals(s: string)
    requires '=' !in s
    ensures ParseDef(s) == (s, None)
  {
  }

  lemma OneEquals(name: string, qualifier: string)
    requires '=' !in name && '=' !in qualifier
    ensures ParseDef(name + "=" + qualifier) == (name, Some(qualifier))
  {
    var s := name + "=" + qualifier;
    assert s[|name|] == '=';
    assert IndexOf(s, '=') == |name|;
    assert s[..|name|] == name && s[|name| + 1..] == qualifier;
  }

  lemma ParseLengthOfArg(k: byte)
    ensures '=' !in "arg" + NatText(k) && ParseLength(Some("arg" + NatText(k))) == Some(FromArg(k))
  {
    assert AllDigits(NatText(k));
    assert ("arg" + NatText(k))[3..] == NatText(k);
    ParseUnsignedOfText(k, 0xFF);
  }

  lemma ParseLengthOfNumber(n: u64)
    ensures '=' !in NatText(n) && ParseLength(Some(NatText(n))) == Some(Fixed(n))
  {
    assert AllDigits(NatText(n));
    assert IsDigit(NatText(n)[0]);
    ParseUnsignedOfText(n, 0xFFFF_FFFF_FFFF_FFFF);
  }

  lemma ParseLengthOfText(name: string, length: LengthDef)
    requires '=' !in name
    ensures ParseDef(name + PrintLength(length)).0 == name
    ensures ParseLength(ParseDef(name + PrintLength(length)).1) == Some(length)
  {
    hide ParseDef, ParseLength, NatText;
    if length.NoLength? {
      assert name + "" == name;
      NoEquals(name);
      NoQualifier();
    } else {
      var q := if length.FromArg? then "arg" + NatText(length.k) else NatText(length.n);
      assert name + PrintLength(length) == name + "=" + q;
      if length.FromArg? {
        ParseLengthOfArg(length.k);
      } else {
        ParseLengthOfNumber(length.n);
      }
      OneEquals(name, q);
    }
  }

  lemma NoQualifier()
    ensures ParseLength(None) == Some(NoLength)
  {
  }

  lemma IntTokenKnown(ty: IntType)
    ensures PlainToken(PrintInt(ty)) == Some(Int(ty)) && '=' !in PrintInt(ty)
  {
  }

  lemma FloatTokensKnown()
    ensures PlainToken("f32") == Some(F32) && PlainToken("f64") == Some(F64)
  {
  }

  lemma PointerTokensKnown()
    ensures PlainToken("ptr") == Some(OpaquePointer) && PlainToken("cstr") == Some(CString)
  {
  }

  lemma OtherTokensKnown()
    ensures PlainToken("buff") == Some(ByteBuffer) && PlainToken("void") == Some(Void)
  {
  }

  lemma BufferTokensAreNotPlain(name: string)
    requires name == "ocstr" || name == "obuff"
    ensures PlainToken(name) == None
    ensures '=' !in name
  {
  }

  lemma PlainTokenRoundTrip(name: string, t: ArgType)
    requires PlainToken(name) == Some(t) && '=' !in name && Trimmed(name)
    ensures LookedUp(name) == None && BuiltinType(name) == Ok(t)
  {
    hide PlainToken, ParseDef, Trim;
    NoEquals(name);
  }

  lemma BufferTokenRoundTrip(name: string, length: LengthDef)
    requires name == "ocstr" || name == "obuff"
    ensures var token := name + PrintLength(length);
      && LookedUp(token) == None
      && BuiltinType(token) == Ok(if name == "ocstr" then OCString(length) else OByteBuffer(length))
  {
    hide PlainToken, ParseDef, ParseLength, PrintLength, Trim;
    ParseLengthOfText(name, length);
    BufferTokensAreNotPlain(name);
    assert Trim(name) == name by {
      assert Trimmed(name);
    }
  }

  lemma TokenRoundTrip(t: ArgType)
    requires !t.Struct? && !t.Pointer?
    ensures LookedUp(PrintType(t)) == None && BuiltinType(PrintType(t)) == Ok(t)
  {
    hide PlainToken, LookedUp, BuiltinType, ParseDef;
    FloatTokensKnown();
    PointerTokensKnown();
    OtherTokensKnown();
    match t {
      case OCString(length) =>
        BufferTokenRoundTrip("ocstr", length);
      case OByteBuffer(length) =>
        BufferTokenRoundTrip("obuff", length);
      case Int(ty) =>
        IntTokenKnown(ty);
        PlainTokenRoundTrip(PrintInt(ty), t);
      case _ =>
        PlainTokenRoundTrip(PrintType(t), t);
    }
  }

  /** Printed types are items, so a printed list splits back into its items. */
  lemma {:induction false} PrintedIsItem(t: ArgType)
    requires WfType(t)
    ensures IsItem(PrintType(t))
    decreases t
  {
    match t {
      case Pointer(target) =>
        PrintedIsItem(target);
        PointerIsItem(PrintType(target));
      case Struct(st) =>
        WfIsScalar(st);
        var texts := PrintAll(FieldTypes(st));
        forall i | 0 <= i < |texts|
          ensures Balanced(texts[i])
        {
          TokenTextIsPlain(st.fields[i].argType);
          PlainIsItem(texts[i]);
        }
        JoinIsBalanced(texts, ',');
        BracedIsPiece(Join(texts, ','), ',');
        assert PrintType(t) == "{" + Join(texts, ',') + "}" by {
          FieldTexts(st);
        }
      case _ =>
        TokenTextIsPlain(t);
        PlainIsItem(PrintType(t));
    }
  }

  lemma FieldTexts(st: StructType)
    ensures PrintType(Struct(st)) == "{" + Join(PrintAll(FieldTypes(st)), ',') + "}"
  {
    assert PrintAll(FieldTypes(st))
      == seq(|st.fields|, i requires 0 <= i < |st.fields| => PrintType(st.fields[i].argType));
  }

  lemma WfIsScalar(st: StructType)
    requires WfStruct(st)
    ensures |st.fields| > 0 && AllScalar(FieldTypes(st))
    ensures forall i :: 0 <= i < |st.fields| ==>
      !st.fields[i].argType.Struct? && !st.fields[i].argType.Pointer? && WfType(st.fields[i].argType)
  {
    hide LayoutOf;
    forall i | 0 <= i < |st.fields|
      ensures IsScalar(st.fields[i].argType)
    {
      assert IsScalar(FieldTypes(st)[i]);
    }
  }

  lemma PointerIsItem(s: string)
    requires IsItem(s)
    ensures IsItem("*" + s)
  {
    PlainIsBalanced("*");
    BalancedConcat("*", s);
    forall k | 0 <= k < |s| && s[k] == ','
      ensures Depth(("*" + s)[..k + 1]) != 0
    {
      assert ("*" + s)[..k + 1] == "*" + s[..k];
      DepthConcat("*", s[..k]);
    }
  }

  /** A list of items joined by commas splits into exactly those items. */
  lemma JoinedItemsSplit(items: seq<string>)
    requires forall i :: 0 <= i < |items| ==> IsItem(items[i])
    ensures SplitTop(Join(items, ','), ',') == Ok(items)
  {
    hide Join, IsPiece, SplitTop, Trim, Pieces, Blank;
    if items == [] {
      NothingToSplit();
    } else {
      var s := Join(items, ',');
      JoinStartsWith(items, ',');
      assert s[0] == items[0][0] && !IsSpace(s[0]);
      NotBlank(s);
      SplitTopIsExact(s, ',', items);
      assert TrimAll(items) == items;
    }
  }

  lemma NothingToSplit()
    ensures Join([], ',') == "" && SplitTop("", ',') == Ok([])
  {
    assert Trim("") == "";
  }

  lemma NotBlank(s: string)
    requires s != [] && !IsSpace(s[0])
    ensures !Blank(s)
  {
    var a, b := TrimIsSlice(s);
    assert a == 0 && b > 0;
  }

  /** Round trip of one type, under any alias tables: printed text is never looked up. */
  lemma {:induction false} TypeRoundTrip(tables: nat -> Table, k: nat, t: ArgType)
    requires WfType(t)
    ensures ParseType(tables, k, PrintType(t)) == Parsed(Ok(t), k)
    decreases t
  {
    hide LookedUp, BuiltinType, WfStruct, Fields;
    PrintedIsItem(t);
    match t {
      case Pointer(target) =>
        TypeRoundTrip(tables, k, target);
        assert PrintType(t)[1..] == PrintType(target);
      case Struct(st) =>
        WfIsScalar(st);
        forall i | 0 <= i < |st.fields|
          ensures ParseType(tables, k, PrintType(st.fields[i].argType)) == Parsed(Ok(st.fields[i].argType), k)
        {
          TypeRoundTrip(tables, k, st.fields[i].argType);
        }
        StructRoundTrip(tables, k, st);
      case _ =>
        TokenTextIsPlain(t);
        PlainIsItem(PrintType(t));
        TokenRoundTrip(t);
    }
  }

  lemma StructRoundTrip(tables: nat -> Table, k: nat, st: StructType)
    requires WfStruct(st)
    requires forall i :: 0 <= i < |st.fields| ==>
      ParseType(tables, k, PrintType(st.fields[i].argType)) == Parsed(Ok(st.fields[i].argType), k)
    ensures ParseType(tables, k, PrintType(Struct(st))) == Parsed(Ok(Struct(st)), k)
  {
    hide PrintType, IsItem, ParseToken, NewStruct, ParseEach, Fields, Join;
    FieldTexts(st);
    WfIsScalar(st);
    var ts := FieldTypes(st);
    var text, inner := PrintType(Struct(st)), Join(PrintAll(ts), ',');
    assert text[1..|text| - 1] == inner && text[|text| - 1] == '}';
    forall i | 0 <= i < |ts|
      ensures IsItem(PrintAll(ts)[i])
    {
      PrintedIsItem(ts[i]);
    }
    JoinedItemsSplit(PrintAll(ts));
    assert Fields(inner) == Ok(PrintAll(ts));
    EachRoundTrip(tables, k, ts, |inner|);
  }

  lemma {:induction false} EachRoundTrip(tables: nat -> Table, k: nat, ts: seq<ArgType>, bound: nat)
    requires NoLonger(PrintAll(ts), bound)
    requires forall i :: 0 <= i < |ts| ==> ParseType(tables, k, PrintType(ts[i])) == Parsed(Ok(ts[i]), k)
    ensures ParseEach(tables, k, PrintAll(ts), bound) == Parsed(Ok(ts), k)
  {
    hide PrintType, ParseType;
    if ts == [] {
      assert PrintAll(ts) == [];
    } else {
      assert PrintAll(ts)[1..] == PrintAll(ts[1..]);
      assert PrintAll(ts)[0] == PrintType(ts[0]);
      EachRoundTrip(tables, k, ts[1..], bound);
      assert ts == [ts[0]] + ts[1..];
    }
  }

  /** Parsing the printed form of any list of types gives the list back. */
  lemma RoundTrip(tables: nat -> Table, k: nat, ts: seq<ArgType>)
    requires forall i :: 0 <= i < |ts| ==> WfType(ts[i])
    ensures ParseTypes(tables, k, PrintTypes(ts)) == Parsed(Ok(ts), k)
  {
    forall i | 0 <= i < |ts|
      ensures IsItem(PrintAll(ts)[i])
      ensures ParseType(tables, k, PrintType(ts[i])) == Parsed(Ok(ts[i]), k)
    {
      PrintedIsItem(ts[i]);
      TypeRoundTrip(tables, k, ts[i]);
    }
    JoinedItemsSplit(PrintAll(ts));
    PiecesAreShorter(PrintTypes(ts), ',');
    EachRoundTrip(tables, k, ts, |PrintTypes(ts)|);
  }
}
