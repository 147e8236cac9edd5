/**
 Named types (`define_type`): the process-wide alias table, what a parse takes from it, and the
 meaning of an alias as a textual abbreviation.
 */
module Aliases {
  import opened Wrappers
  import opened Types
  import opened Layout
  import opened Text
  import opened Split
  import opened Descriptor

  datatype DefineError = InvalidName | BuiltinName | BadDefinition(cause: ParseError) | VoidAlias

  predicate IsLetter(c: char) {
    c == '_' || 'a' <= c <= 'z' || 'A' <= c <= 'Z'
  }

  /** An identifier `[A-Za-z_][A-Za-z0-9_]*`. */
  predicate ValidName(name: string) {
    && name != []
    && forall i :: 0 <= i < |name| ==> IsLetter(name[i]) || (i > 0 && IsDigit(name[i]))
  }

  /** `define_type` against what its lookups saw; `current` is the table when it comes to insert. */
  function Define(tables: nat -> Table, current: Table, name: string, definition: string): Result<Table, DefineError> {
    if !ValidName(name) then Err(InvalidName)
    else if IsBuiltin(name) then Err(BuiltinName)
    else
      match ParseType(tables, 0, definition).result
      case Err(e) => Err(BadDefinition(e))
      case Ok(t) => if t.Void? then Err(VoidAlias) else Ok(current[name := t])
  }

  /** The registry behind `define_type`. */
  class TypeTable {
    var types: Table

    constructor ()
      ensures types == map[]
    {
      types := map[];
    }

    /** Insert a definition, or report an error and leave the table alone. */
    method DefineType(name: string, definition: string) returns (error: Option<DefineError>)
      requires TableOk(types)
      modifies this
      ensures TableOk(types)
      ensures match Define(Still(old(types)), old(types), name, definition)
        case Ok(table) => error == None && types == table
        case Err(e) => error == Some(e) && types == old(types)
      ensures error != None ==> types == old(types)
      ensures var parsed := ParseType(Still(old(types)), 0, definition).result;
        && (error == None <==> ValidName(name) && !IsBuiltin(name) && parsed.Ok? && !parsed.value.Void?)
        && (error == None ==> types == old(types)[name := parsed.value])
        && (error == None ==> forall k: nat :: ParseType(Still(types), k, name).result == parsed)
      ensures var parsed := ParseType(Still(old(types)), 0, definition).result;
        match error
        case None => true
        case Some(InvalidName) => !ValidName(name)
        case Some(BuiltinName) => ValidName(name) && IsBuiltin(name)
        case Some(BadDefinition(e)) => ValidName(name) && !IsBuiltin(name) && parsed == Err(e)
        case Some(VoidAlias) => ValidName(name) && !IsBuiltin(name) && parsed == Ok(Void)
      ensures error == None ==> forall k: nat, text: string :: name !in Mentions(text) ==>
        ParseType(Still(types), k, text).result == ParseType(Still(old(types)), k, text).result
    {
      if !ValidName(name) {
        return Some(InvalidName);
      }
      if IsBuiltin(name) {
        return Some(BuiltinName);
      }
      var parsed := ParseType(Still(types), 0, definition).result;
      match parsed {
        case Err(e) => return Some(BadDefinition(e));
        case Ok(t) =>
          if t.Void? {
            return Some(VoidAlias);
          }
          DefineKeepsTableOk(Still(types), types, name, definition);
          DefinitionTakesEffect(types, types[name := t], name, t);
          types := types[name := t];
          return None;
      }
    }
  }

  // -- what a definition does ---------------------------------------------------------------------------------------

  /** A name parses as what it is bound to. */
  lemma NameIsFound(table: Table, k: nat, name: string)
    requires ValidName(name) && !IsBuiltin(name) && name in table
    ensures ParseType(Still(table), k, name).result == Ok(table[name])
  {
    assert IsLetter(name[0]) && (IsLetter(name[|name| - 1]) || IsDigit(name[|name| - 1]));
    assert Trimmed(name) && Trim(name) == name;
    assert '=' !in name;
    NoEquals(name);
    hide IsBuiltin, Trim, ParseEach, ParseDef;
  }

  /** After a definition the name parses as the type defined, and texts that do not mention it as before. */
  lemma DefinitionTakesEffect(table: Table, defined: Table, name: string, t: ArgType)
    requires ValidName(name) && !IsBuiltin(name) && defined == table[name := t]
    ensures forall k: nat :: ParseType(Still(defined), k, name).result == Ok(t)
    ensures forall k: nat, text: string :: name !in Mentions(text) ==>
      ParseType(Still(defined), k, text).result == ParseType(Still(table), k, text).result
  {
    hide ParseType, Mentions, ValidName;
    forall k: nat
      ensures ParseType(Still(defined), k, name).result == Ok(t)
    {
      NameIsFound(defined, k, name);
    }
    forall k: nat, text: string | name !in Mentions(text)
      ensures ParseType(Still(defined), k, text).result == ParseType(Still(table), k, text).result
    {
      UndisturbedParse(Still(defined), k, text, table, k);
    }
  }

  /** The names no definition may take. */
  lemma BuiltinNames(name: string)
    ensures IsBuiltin(name) <==> name in {
      "u8", "bool", "i8", "u16", "i16", "u32", "i32", "u64", "i64", "usize", "size_t", "isize", "ssize_t", "clong",
      "culong", "f32", "f64", "ptr", "cstr", "ocstr", "obuff", "buff", "void"}
  {
  }

  // -- reachable tables -------------------------------------------------------------------------------------------

  /** Identifier, non-builtin names bound to non-void types whose structs come from `StructType::new`. */
  ghost predicate TableOk(table: Table) {
    forall name :: name in table ==>
      ValidName(name) && !IsBuiltin(name) && WfType(table[name]) && !table[name].Void?
  }

  lemma {:induction false} ParsedTypeIsWf(tables: nat -> Table, k: nat, text: string)
    requires forall j :: TableOk(tables(j))
    ensures ParseType(tables, k, text).result.Ok? ==> WfType(ParseType(tables, k, text).result.value)
    decreases |text|, 0
  {
    hide LookedUp, BuiltinType, WfStruct, Fields, AliasIn, Trim;
    var at := Trim(text);
    if Starts(at, '*') {
      ParsedTypeIsWf(tables, k, at[1..]);
    } else if Starts(at, '{') {
      ParsedStructIsWf(tables, k, at);
    } else {
      ParsedTokenIsWf(tables, k, at);
    }
  }

  lemma ParsedStructIsWf(tables: nat -> Table, k: nat, at: string)
    requires Starts(at, '{') && Trimmed(at)
    ensures ParseType(tables, k, at).result.Ok? ==> WfType(ParseType(tables, k, at).result.value)
  {
    hide ParseEach, Fields, WfStruct, NewStruct;
    if ParseType(tables, k, at).result.Ok? {
      var inner := at[1..|at| - 1];
      var ts := ParseEach(tables, k, Fields(inner).value, |inner|).result.value;
      NewStructIsWf(ts);
    }
  }

  lemma ParsedTokenIsWf(tables: nat -> Table, k: nat, token: string)
    requires TableOk(tables(k))
    ensures ParseToken(tables, k, token).result.Ok? ==> WfType(ParseToken(tables, k, token).result.value)
  {
    hide WfStruct, Trim;
  }

  lemma DefineKeepsTableOk(tables: nat -> Table, current: Table, name: string, definition: string)
    requires TableOk(current) && forall j :: TableOk(tables(j))
    ensures Define(tables, current, name, definition).Ok? ==> TableOk(Define(tables, current, name, definition).value)
  {
    hide ParseType, ValidName, WfType;
    ParsedTypeIsWf(tables, 0, definition);
  }

  /** One `define_type` call among many threads: its `j`-th lookup happens at history time `when(j)`. */
  datatype Definition = Definition(name: string, text: string, when: nat -> nat)

  /** What the lookups of a call see when the table has gone through `history` so far. */
  function SeenIn(history: seq<Table>, when: nat -> nat): nat -> Table
    requires history != []
  {
    (j: nat) => history[when(j) % |history|]
  }

  /** All tables, oldest first, after the inserts of `calls` have happened in this order, each call
      having looked names up at arbitrary earlier moments. */
  function History(calls: seq<Definition>): (h: seq<Table>)
    ensures h != []
  {
    if calls == [] then [map[]]
    else
      var before, call := History(calls[..|calls| - 1]), calls[|calls| - 1];
      match Define(SeenIn(before, call.when), before[|before| - 1], call.name, call.text)
      case Ok(table) => before + [table]
      case Err(_) => before
  }

  /** Every table any interleaving of definitions can reach is sound. */
  lemma {:induction false} ReachableTablesAreOk(calls: seq<Definition>)
    ensures forall i :: 0 <= i < |History(calls)| ==> TableOk(History(calls)[i])
  {
    if calls != [] {
      var call := calls[|calls| - 1];
      ReachableTablesAreOk(calls[..|calls| - 1]);
      var before := History(calls[..|calls| - 1]);
      DefineKeepsTableOk(SeenIn(before, call.when), before[|before| - 1], call.name, call.text);
    }
  }

  // -- what a parse depends on --------------------------------------------------------------------------------------

  /** The alias names a descriptor text mentions. */
  function Mentions(text: string): set<string>
    decreases |text|, 0
  {
    var at := Trim(text);
    if Starts(at, '*') then Mentions(at[1..])
    else if Starts(at, '{') then
      if !Ends(at, '}') then {}
      else
        var inner := at[1..|at| - 1];
        match Fields(inner)
        case Err(_) => {}
        case Ok(parts) => MentionsOfEach(parts, |inner|)
    else
      match LookedUp(at)
      case None => {}
      case Some(name) => if ParseDef(at).1.None? then {name} else {}
  }

  function MentionsOfEach(parts: seq<string>, ghost bound: nat): set<string>
    requires NoLonger(parts, bound)
    decreases bound, |parts| + 1
  {
    if parts == [] then {} else Mentions(parts[0]) + MentionsOfEach(parts[1..], bound)
  }

  predicate SameEntry(s: Table, t: Table, name: string) {
    (name in s <==> name in t) && (name in s ==> s[name] == t[name])
  }

  /** From lookup `k` up to lookup `end`, nobody redefined any of `names` away from `snapshot`. */
  ghost predicate Undisturbed(tables: nat -> Table, k: nat, end: nat, snapshot: Table, names: set<string>) {
    forall j, name :: k <= j < end && name in names ==> SameEntry(tables(j), snapshot, name)
  }

  /**
   Interleaving: a parse during which none of the names it mentions is redefined gives the result of
   a parse alone on the snapshot. With unchanging tables this is locality: only the mentioned
   entries matter.
   */
  lemma {:induction false} UndisturbedParse(tables: nat -> Table, k: nat, text: string, snapshot: Table, m: nat)
    requires Undisturbed(tables, k, ParseType(tables, k, text).next, snapshot, Mentions(text))
    ensures ParseType(tables, k, text).result == ParseType(Still(snapshot), m, text).result
    decreases |text|, 0
  {
    hide Trim, LookedUp, BuiltinType, Fields, NewStruct, ParseDef;
    var at := Trim(text);
    if Starts(at, '*') {
      UndisturbedParse(tables, k, at[1..], snapshot, m);
    } else if Starts(at, '{') {
      if Ends(at, '}') {
        var inner := at[1..|at| - 1];
        if Fields(inner).Ok? {
          UndisturbedEach(tables, k, Fields(inner).value, |inner|, snapshot, m);
        }
      }
    } else {
      UndisturbedToken(tables, k, at, snapshot, m);
    }
  }

  lemma UndisturbedToken(tables: nat -> Table, k: nat, token: string, snapshot: Table, m: nat)
    requires LookedUp(token).Some? && ParseDef(token).1.None? ==> SameEntry(tables(k), snapshot, LookedUp(token).value)
    ensures ParseToken(tables, k, token).result == ParseToken(Still(snapshot), m, token).result
  {
  }

  lemma {:induction false} UndisturbedEach(tables: nat -> Table, k: nat, parts: seq<string>, bound: nat,
                                          snapshot: Table, m: nat)
    requires NoLonger(parts, bound)
    requires Undisturbed(tables, k, ParseEach(tables, k, parts, bound).next, snapshot, MentionsOfEach(parts, bound))
    ensures ParseEach(tables, k, parts, bound).result == ParseEach(Still(snapshot), m, parts, bound).result
    decreases bound, |parts| + 1
  {
    if parts != [] {
      var first := ParseType(tables, k, parts[0]);
      UndisturbedParse(tables, k, parts[0], snapshot, m);
      if first.result.Ok? {
        UndisturbedEach(tables, first.next, parts[1..], bound, snapshot,
          ParseType(Still(snapshot), m, parts[0]).next);
      }
    }
  }

  /** The same for the argument list of a descriptor. */
  lemma UndisturbedTypes(tables: nat -> Table, k: nat, text: string, snapshot: Table, m: nat)
    requires Fields(text).Ok? ==>
      Undisturbed(tables, k, ParseTypes(tables, k, text).next, snapshot, MentionsOfEach(Fields(text).value, |text|))
    ensures ParseTypes(tables, k, text).result == ParseTypes(Still(snapshot), m, text).result
  {
    hide ParseEach, Undisturbed;
    if Fields(text).Ok? {
      UndisturbedEach(tables, k, Fields(text).value, |text|, snapshot, m);
    }
  }

  // -- aliases are abbreviations --------------------------------------------------------------------------------------

  /** The text with every alias token replaced by the canonical text of its type. */
  function Expand(table: Table, text: string): string
    decreases |text|, 0
  {
    var at := Trim(text);
    if Starts(at, '*') then "*" + Expand(table, at[1..])
    else if Starts(at, '{') then
      if !Ends(at, '}') then at
      else
        var inner := at[1..|at| - 1];
        match Fields(inner)
        case Err(_) => at
        case Ok(parts) => "{" + Join(ExpandEach(table, parts, |inner|), ',') + "}"
    else
      match AliasIn(table, at)
      case Some(t) => PrintType(t)
      case None => at
  }

  function ExpandEach(table: Table, parts: seq<string>, ghost bound: nat): (r: seq<string>)
    requires NoLonger(parts, bound)
    ensures |r| == |parts|
    decreases bound, |parts| + 1
  {
    if parts == [] then [] else [Expand(table, parts[0])] + ExpandEach(table, parts[1..], bound)
  }

  function ExpandTypes(table: Table, text: string): string {
    match Fields(text)
    case Err(_) => text
    case Ok(parts) => Join(ExpandEach(table, parts, |text|), ',')
  }

  lemma {:induction false} SpacesHaveNoDepth(s: string)
    requires forall i :: 0 <= i < |s| ==> IsSpace(s[i])
    ensures Depth(s) == 0
  {
    if s != [] {
      SpacesHaveNoDepth(s[..|s| - 1]);
    }
  }

  lemma TrimmedPiece(s: string)
    requires IsPiece(s, ',')
    ensures IsPiece(Trim(s), ',')
  {
    var a, b := TrimIsSlice(s);
    SpacesHaveNoDepth(s[..a]);
    SpacesHaveNoDepth(s[b..]);
    DepthOfPrefix(s, b);
    SliceIsPiece(s, ',', a, b);
  }

  lemma TailIsPiece(s: string)
    requires IsPiece(s, ',') && s != [] && Delta(s[0]) == 0
    ensures IsPiece(s[1..], ',')
  {
    assert s[..1] == [s[0]] && s[..|s|] == s;
    assert Depth([s[0]]) == 0;
    SliceIsPiece(s, ',', 1, |s|);
  }

  /** The parts of a field list are trimmed pieces, and rejoining them cannot give a blank text. */
  lemma FieldsArePieces(s: string)
    requires Fields(s).Ok?
    ensures forall i :: 0 <= i < |Fields(s).value| ==>
      IsPiece(Fields(s).value[i], ',') && Trimmed(Fields(s).value[i])
    ensures |Fields(s).value| == 1 ==> Fields(s).value[0] != []
  {
    hide IsPiece, Balanced, FirstTop;
    if !Blank(s) {
      PiecesSplit(s, ',');
      var ps := Pieces(s, ',');
      forall i | 0 <= i < |ps|
        ensures IsPiece(Trim(ps[i]), ',')
      {
        TrimmedPiece(ps[i]);
      }
      if |ps| == 1 {
        assert Join(ps, ',') == ps[0];
      }
    }
  }

  lemma HasNonSpace(s: string, i: nat)
    requires i < |s| && !IsSpace(s[i])
    ensures !Blank(s)
  {
    var a, b := TrimIsSlice(s);
    assert a <= i < b;
  }

  /** Trimmed pieces joined by commas split into themselves, provided a lone one is not empty. */
  lemma JoinedPiecesSplit(items: seq<string>)
    requires forall i :: 0 <= i < |items| ==> IsPiece(items[i], ',') && Trimmed(items[i])
    requires |items| == 1 ==> items[0] != []
    ensures SplitTop(Join(items, ','), ',') == Ok(items)
  {
    hide IsPiece, Depth, FirstTop, Trim, Join, SplitTop, Trimmed;
    if items == [] {
      NothingSplits();
    } else {
      JoinNotBlank(items);
      SplitTopIsExact(Join(items, ','), ',', items);
      assert TrimAll(items) == items;
    }
  }

  lemma NothingSplits()
    ensures SplitTop(Join([], ','), ',') == Ok([])
  {
    assert Trim([]) == [];
  }

  lemma JoinNotBlank(items: seq<string>)
    requires items != [] && (|items| == 1 ==> items[0] != [] && Trimmed(items[0]))
    ensures !Blank(Join(items, ','))
  {
    JoinStartsWith(items, ',');
    HasNonSpace(Join(items, ','), if |items| == 1 then 0 else |items[0]|);
  }

  lemma {:induction false} ExpandedIsTrimmed(table: Table, text: string)
    requires TableOk(table)
    ensures Trimmed(Expand(table, text))
    ensures Expand(table, text) == [] <==> Trim(text) == []
    decreases |text|, 0
  {
    hide Trim, LookedUp, Fields, WfType, PrintType, ParseDef;
    var at := Trim(text);
    if Starts(at, '*') {
      ExpandedIsTrimmed(table, at[1..]);
    } else if !Starts(at, '{') && AliasIn(table, at).Some? {
      PrintedIsItem(AliasIn(table, at).value);
      EmptyIsNoAlias(table, at);
    }
  }

  lemma EmptyIsNoAlias(table: Table, token: string)
    requires TableOk(table) && AliasIn(table, token).Some?
    ensures token != []
  {
  }

  lemma {:induction false} ExpandedIsPiece(table: Table, text: string)
    requires TableOk(table) && IsPiece(text, ',')
    ensures IsPiece(Expand(table, text), ',')
    decreases |text|, 0
  {
    hide Trim, LookedUp, Fields, WfType, PrintType, ParseDef, IsPiece, ExpandEach, Join, TableOk, AliasIn;
    var at := Trim(text);
    TrimmedPiece(text);
    if Starts(at, '*') {
      TailIsPiece(at);
      ExpandedIsPiece(table, at[1..]);
      ExpandedIsTrimmed(table, at[1..]);
      StarredIsPiece(Expand(table, at[1..]));
    } else if Starts(at, '{') {
      if Ends(at, '}') && Fields(at[1..|at| - 1]).Ok? {
        var inner := at[1..|at| - 1];
        ExpandedFields(table, inner);
        var items := ExpandEach(table, Fields(inner).value, |inner|);
        BalancedJoin(items);
        BracedIsPiece(Join(items, ','), ',');
      }
    } else if AliasIn(table, at).Some? {
      AliasIsWf(table, at);
      PrintedIsItem(AliasIn(table, at).value);
    }
  }

  lemma AliasIsWf(table: Table, token: string)
    requires TableOk(table) && AliasIn(table, token).Some?
    ensures WfType(AliasIn(table, token).value)
  {
  }

  lemma StarredIsPiece(s: string)
    requires IsPiece(s, ',')
    ensures IsPiece("*" + s, ',')
  {
    if s == [] {
      PlainIsBalanced("*");
    } else {
      PlainIsBalanced("*");
      BalancedConcat("*", s);
      forall k | 0 <= k < |s| && s[k] == ','
        ensures Depth(("*" + s)[..k + 1]) != 0
      {
        assert ("*" + s)[..k + 1] == "*" + s[..k];
        DepthConcat("*", s[..k]);
      }
    }
  }

  lemma BalancedJoin(items: seq<string>)
    requires forall i :: 0 <= i < |items| ==> IsPiece(items[i], ',')
    ensures Balanced(Join(items, ','))
  {
    JoinIsBalanced(items, ',');
  }

  /** The expanded fields of a list are again trimmed pieces that split back into themselves. */
  lemma {:induction false} ExpandedFields(table: Table, s: string)
    requires TableOk(table) && Fields(s).Ok?
    ensures var items := ExpandEach(table, Fields(s).value, |s|);
      && (forall i :: 0 <= i < |items| ==> IsPiece(items[i], ',') && Trimmed(items[i]))
      && Fields(Join(items, ',')) == Ok(items)
    decreases |s|, 1, 0
  {
    hide IsPiece, Fields, Trim;
    var parts := Fields(s).value;
    FieldsArePieces(s);
    var items := ExpandEach(table, parts, |s|);
    forall i | 0 <= i < |parts|
      ensures IsPiece(items[i], ',') && Trimmed(items[i])
      ensures items[i] == Expand(table, parts[i])
    {
      ExpandEachAt(table, parts, |s|, i);
      ExpandedIsPiece(table, parts[i]);
      ExpandedIsTrimmed(table, parts[i]);
    }
    if |items| == 1 {
      ExpandedIsTrimmed(table, parts[0]);
      assert Trim(parts[0]) == parts[0];
    }
    JoinedPiecesSplit(items);
  }

  lemma {:induction false} ExpandEachAt(table: Table, parts: seq<string>, bound: nat, i: nat)
    requires NoLonger(parts, bound) && i < |parts|
    ensures ExpandEach(table, parts, bound)[i] == Expand(table, parts[i])
    decreases |parts|
  {
    if i > 0 {
      ExpandEachAt(table, parts[1..], bound, i - 1);
    }
  }

  /** Parsing with a table is parsing the expanded text with no table at all, errors included. */
  lemma {:induction false} AliasesAreAbbreviations(table: Table, k: nat, m: nat, text: string)
    requires TableOk(table)
    ensures ParseType(Still(table), k, text).result == ParseType(Still(map[]), m, Expand(table, text)).result
    decreases |text|, 0
  {
    hide Trim, LookedUp, Fields, WfType, PrintType, ParseToken, AliasIn, NewStruct, ParseEach, ExpandEach, Join,
      TableOk;
    var at := Trim(text);
    var expanded := Expand(table, text);
    ExpandedIsTrimmed(table, text);
    if Starts(at, '*') {
      AliasesAreAbbreviations(table, k, m, at[1..]);
      assert expanded[1..] == Expand(table, at[1..]);
    } else if Starts(at, '{') {
      if Ends(at, '}') && Fields(at[1..|at| - 1]).Ok? {
        var inner := at[1..|at| - 1];
        var parts := Fields(inner).value;
        var items := ExpandEach(table, parts, |inner|);
        ExpandedFields(table, inner);
        EachAbbreviates(table, k, m, parts, |inner|, |Join(items, ',')|);
        BracesAbbreviate(table, k, m, text, inner, parts, items);
      }
    } else {
      TokenAbbreviates(table, k, m, at);
      if AliasIn(table, at).Some? {
        AliasIsWf(table, at);
        TypeRoundTrip(Still(map[]), m, AliasIn(table, at).value);
      }
    }
  }

  /** The text is a brace around `inner`, which splits into `parts`. */
  predicate IsBraced(text: string, inner: string, parts: seq<string>) {
    var at := Trim(text);
    Starts(at, '{') && Ends(at, '}') && at[1..|at| - 1] == inner && Fields(inner) == Ok(parts)
  }

  lemma BracesAbbreviate(table: Table, k: nat, m: nat, text: string, inner: string, parts: seq<string>,
                         items: seq<string>)
    requires IsBraced(text, inner, parts) && NoLonger(parts, |inner|)
    requires items == ExpandEach(table, parts, |inner|)
    requires Fields(Join(items, ',')) == Ok(items) && NoLonger(items, |Join(items, ',')|)
    requires ParseEach(Still(table), k, parts, |inner|).result
      == ParseEach(Still(map[]), m, items, |Join(items, ',')|).result
    ensures ParseType(Still(table), k, text).result == ParseType(Still(map[]), m, Expand(table, text)).result
  {
    hide *;
    BracedText(table, text, inner, parts);
    BracedParse(Still(map[]), m, items);
    BracedSource(Still(table), k, text, inner, parts);
  }

  lemma BracedText(table: Table, text: string, inner: string, parts: seq<string>)
    requires IsBraced(text, inner, parts) && NoLonger(parts, |inner|)
    ensures Expand(table, text) == "{" + Join(ExpandEach(table, parts, |inner|), ',') + "}"
  {
    hide Trim, Fields, ExpandEach, Join;
  }

  lemma BracedSource(tables: nat -> Table, k: nat, text: string, inner: string, parts: seq<string>)
    requires IsBraced(text, inner, parts) && NoLonger(parts, |inner|)
    ensures ParseType(tables, k, text).result ==
      match ParseEach(tables, k, parts, |inner|).result
      case Err(e) => Err(e)
      case Ok(ts) => MakeStruct(ts)
  {
    hide Trim, Fields, ParseEach, NewStruct;
  }

  lemma TokenAbbreviates(table: Table, k: nat, m: nat, token: string)
    ensures match AliasIn(table, token)
      case Some(t) => ParseToken(Still(table), k, token).result == Ok(t)
      case None => ParseToken(Still(table), k, token).result == ParseToken(Still(map[]), m, token).result
  {
    hide IsBuiltin, ParseDef, BuiltinType, Trim;
  }

  /** Parsing a braced list parses the items and lays them out. */
  lemma BracedParse(tables: nat -> Table, k: nat, items: seq<string>)
    requires Fields(Join(items, ',')) == Ok(items)
    ensures NoLonger(items, |Join(items, ',')|)
    ensures ParseType(tables, k, "{" + Join(items, ',') + "}").result ==
      match ParseEach(tables, k, items, |Join(items, ',')|).result
      case Err(e) => Err(e)
      case Ok(ts) => MakeStruct(ts)
  {
    hide Fields, ParseEach, NewStruct, Join;
    var at := "{" + Join(items, ',') + "}";
    assert at[1..|at| - 1] == Join(items, ',');
  }

  lemma {:induction false} EachAbbreviates(table: Table, k: nat, m: nat, parts: seq<string>, bound: nat, bound': nat)
    requires TableOk(table) && NoLonger(parts, bound) && NoLonger(ExpandEach(table, parts, bound), bound')
    ensures ParseEach(Still(table), k, parts, bound).result
      == ParseEach(Still(map[]), m, ExpandEach(table, parts, bound), bound').result
    decreases bound, |parts| + 1
  {
    if parts != [] {
      var items := ExpandEach(table, parts, bound);
      assert items[1..] == ExpandEach(table, parts[1..], bound);
      AliasesAreAbbreviations(table, k, m, parts[0]);
      EachAbbreviates(table, ParseType(Still(table), k, parts[0]).next,
        ParseType(Still(map[]), m, items[0]).next, parts[1..], bound, bound');
    }
  }

  /** The same for a whole argument list. */
  lemma ArgumentListAbbreviates(table: Table, k: nat, m: nat, text: string)
    requires TableOk(table)
    ensures ParseTypes(Still(table), k, text).result == ParseTypes(Still(map[]), m, ExpandTypes(table, text)).result
  {
    hide Fields;
    if Fields(text).Ok? {
      ExpandedFields(table, text);
      var items := ExpandEach(table, Fields(text).value, |text|);
      EachAbbreviates(table, k, m, Fields(text).value, |text|, |Join(items, ',')|);
    }
  }
}
