# dyncall, verified

dyncall calls C functions chosen at run time. A caller describes a function in a small descriptor
language, pushes arguments onto an invocation, and libffi reads them through raw pointers. This
project models the three parts whose correctness rests on loops, byte arithmetic and invariants that
span functions, for a 64-bit little-endian Unix target:

- **Descriptors and named types** (`Text`, `Split`, `Descriptor`, `Aliases`, `Signature`, `Definition`):
  the scanner that cuts a descriptor at top-level commas, the mutually recursive type parser over a
  process-wide alias table that other threads may change between two lookups, and the checks made
  when a function is defined. `tables(k)` is the table the k-th lookup of a parse finds, so one
  theorem covers sequential parsing and every interleaving.
- **Struct layout and struct bytes** (`Numbers`, `Layout`, `StructBytes`, `StructValue`): placement of
  fields as section 3.1.2 of the System V AMD64 ABI supplement and section 6.7.2.1 of ISO C11 ask
  for, and a byte array written in place at those offsets.
- **The invocation** (`Memory`, `Coercion`, `Marshal`, `Exchange`, `Delivery`, `Effects`, `Arrival`, `Owed`, `Scripts`,
  `Reports`, `Invocation`, `Runs`): two parallel buffers filled by pushes and rewritten in place before the
  call. `Coercion.Meaning` says what an input means under a declared type; `Invocation` is a class
  with the source's fields, and its methods are proved to deliver that meaning. `Arrival` and `Reports` say the
  same from outside, input by input and in plain values: which pushes are accepted, what the callee finds
  in its argument or behind it, and what a script is told. Memory is a map of
  objects whose storage moves when it grows: a pointer carries the generation of the storage it
  points into, so a pointer taken before a growing `reserve` no longer designates anything. The
  foreign function is any function from what it sees (`Snapshot`) to bytes it writes through its
  pointers and a return register (`Effect`), no more than the declared types let it write. Two things are
  not taken for granted: that libffi, which reads by declared type, reads just what is there
  (`Delivery.ReadsFit`), and that the callee's bytes stay inside the storage they are written to
  (`Effects.PartsFit`). Nothing is promised of the result and of memory after a call that breaks either, and
  `Effects.SafeExactly` says from the pushed inputs when none can.

The end-to-end statement is the contract of `Invocation.Call`. From any state that pushes and earlier
calls can reach, the call reaches the callee exactly when no argument is missing and every buffer length
lies between 0 and 256 MiB. If it does not, the invocation stays as it was but for the buffers before the
failing one, whose texts are kept and whose vectors are cut or filled to their length, and the call will
fail alike again. If it does, every argument pointer leads to what its input means, all at once. If libffi
reads all of that as declared and the callee overruns nothing, the caller has the result, and memory is what
the callee left with the output strings cut at their first NUL. No callee can break this if no input is
a dynamic struct of another size or a variable for a type that is no address, and every argument has room
for what its declared type allows.

`Valid()` of `Invocation` is the invariant behind it: two cells per argument within the reserved four,
every pointer at cell 2i or 2i+1 of the live buffer (or at the bytes of a struct copy), the cells
carrying the meaning of the i-th accepted input, no two arguments sharing an object, and the slot lists
equal to one entry per output argument after whatever earlier calls left.

Values that come from the language runtime are fields of `Env` and `FloatOps`: text decoding, lossy
decoding, following a `char *`, how much a reserve over-allocates, float parsing and casts.

## Where the code and its documentation differ

The model follows the code; each of these is stated exactly by a lemma.

- The repository's README.md:143 has text parsed for any integer type. A `u8` slot takes the first byte of the text
  instead (src/coerce.rs:86-89): `Coercion.ByteSlotTakesFirstCharacter`.
- README.md:141 there has any integer formatted as decimal for a `cstr`. A `u64` above `i64::MAX` is cast to
  `i64` first (src/args.rs:303, src/args.rs:416) and comes out negative: `Coercion.DecimalTextRoundTrip` gives the value
  itself exactly when it fits an `i64`.
- The field-replacing recipe of ADAPTER_GUIDE.md:826-842 fails on every struct in which another field
  holds a non-null pointer, `from_script_vals` only where one holds a non-null `cstr`:
  `StructBytes.GuideRebuildNeedsNulls`, `StructBytes.RebuildIdentity`.
- README.md:50 there lets the return type be empty. No descriptor with a blank one is accepted:
  `Definitions.BlankReturnIsRefused`.
- src/invoke.rs:646 has `Null` always mean a NULL pointer result. Buffer return types give `Nil` for
  it: `Scripts.NullMeansNullPointer`.
- The definition-time checks leave one failure other than a length value for call time: an integer
  argument another buffer takes its length from may be pushed with `push_mut_arg`, which never looks
  at the declared type (src/args.rs:442-453): `Exchange.DefinitionChecksSuffice`.
- src/invoke.rs:654-664 promises the outputs of the call. Both lists are exactly what the call is owed if
  and only if no slot of their kind is left over from a plain `call` on the same invocation:
  `Invocations.Invocation.CallScripted`.
- An output string is promised room for the length the callee is told (README.md:77-87 there). A text or
  number coerced into an `ocstr` argument is passed in a copy of its own size (src/coerce.rs:37-46,
  src/coerce.rs:79-85) that pre-processing does not enlarge (src/invoke.rs:516): with `ocstr=100` and the
  text "a" the callee is told 100 bytes and finds 2 (`Runs.OverrunIsReachable`). A variable pushed with
  `push_mut_arg` may likewise be smaller than the declared target (src/args.rs:442-453): a `u8` for an
  `*i64`, or for a `**i32`, which the parser accepts (src/caller.rs:515-519) and through which the callee
  stores an 8-byte address (`Effects.AddressOverrunsVariable`). `Effects.WritesFitExactly` has the exact
  condition: every coerced text at most one byte shorter than the length told, and no borrowed variable
  smaller than its target. `Effects.RoomIsLostOnlyBy`: every other kind of argument has room by itself.
- src/invoke.rs:119-123 has a push refuse a value of another type. Two pushes do not: a struct inside a
  dynamic `ArgVal` is compared by kind only (src/args.rs:368), and a variable pushed with `push_mut_arg` not
  at all (src/args.rs:442-453). libffi then copies a longer struct from a copy of a shorter one
  (`Runs.OverreadIsReachable`), or takes the bits of the variable's address for a number or a struct
  (`Runs.MisreadIsReachable`). `Coercion.MeaningIsWellShaped` and `Delivery.ReadsFitExactly` have the exact
  condition: neither a dynamic struct of another size nor a variable for a type that is no address.

## Model

| member | source | states |
|---|---|---|
| Numbers.WrapIsTheRepresentative | src/coerce.rs:22-30 | an integer cast yields the one number in the target range congruent to the source modulo 2^width |
| Numbers.WrapThrough64 | src/coerce.rs:98-105 | going through `i64` or `u64` first, as every coercion does, loses nothing for any integer type |
| Numbers.ClampIsNearest | src/coerce.rs:52-70 | a float cast to an integer type takes the number of the target range nearest to the truncated one |
| Numbers.IntRoundTrip | src/structs.rs:376-390 | bytes stored for any integer read back as its representative in the field type |
| Numbers.EncodeByte | src/structs.rs:376-390 | byte i of a stored number is its i-th digit to base 256: little-endian |
| Numbers.BytesRoundTrip | src/structs.rs:359-390 | any bytes of the right width are restored by reading them as an integer, through `i64`, and writing that back |
| Layout.AlignedMeansNoRemainder | src/structs.rs:262-269 | the model's notion of alignment, being a multiple, is the source's test for a zero remainder |
| Layout.AlignUpLeast | src/structs.rs:262-269 | the least multiple of the alignment not below the value |
| Layout.New | src/structs.rs:64-92 | the placement loop computes the layout function, and names the first field type it refuses |
| Layout.LayoutIsSound | src/structs.rs:73-91 | fields are aligned, inside the struct, in order and disjoint; the size is a multiple of the strictest alignment |
| Layout.NewIsExact | src/structs.rs:64-92 | a layout exists exactly for a non-empty list of scalars and has them as fields in order; otherwise the error names the first that is no scalar |
| Layout.AlignmentIsStrictest | src/structs.rs:73-91 | the alignment of a struct is the size of its largest field |
| Layout.LayoutIsLeast | src/structs.rs:64-92 | every rival in-order aligned placement has each offset and the size at least as large |
| Layout.ArrayElementsStayAligned | src/structs.rs:87-91 | field i of the k-th of consecutive copies is aligned and inside that copy |
| Layout.SizeBounds | src/structs.rs:64-92 | sum of field sizes <= size <= alignment times field count |
| Layout.SameLayoutIsEquality | src/structs.rs:100-109 | comparing field variants only is enough: on constructed layouts it is equality of the whole layout and of the field types |
| StructBytes.PushExtendsImage | src/structs.rs:143-156 | a successful push keeps all earlier fields, stores its own and leaves every other byte zero |
| StructBytes.RunLeavesImage | src/structs.rs:135-214 | after any run of successful and failed pushes and resets, the fields accepted since the last reset hold what was encoded for them and every other byte, padding included, is zero |
| StructBytes.FieldHolds | src/structs.rs:268-442 | an exact value is taken exactly by its own field type (an address by `ptr` and `cstr`) and its bytes decode to that very value; a coerced one is taken by every number and decodes to its representative, nearest float or narrowed float |
| StructBytes.RunHolds | src/structs.rs:143-214 | after any run of pushes and resets, field i decodes to the value accepted for it since the last reset, whatever was refused in between |
| StructBytes.ScriptFieldHolds | src/structs.rs:532-550 | which script values each field type takes, and what the bytes stored for them decode to |
| StructBytes.FieldReads | src/structs.rs:556-579 | any bytes of a field are read as the in-range representative of the number, the float or the address they encode, or the text behind it |
| StructBytes.PushAllImage | src/structs.rs:532-550 | a list of values is accepted exactly when each fits its field, and then the bytes are their encodings and zeros |
| StructBytes.RebuildIdentity | src/structs.rs:532-579 | for arbitrary bytes, reading all fields and pushing them back succeeds exactly when no `cstr` field is non-null, and then restores every integer and pointer field bit for bit and clears padding |
| StructBytes.GuideRebuildNeedsNulls | ADAPTER_GUIDE.md:826-842 | the documented recipe for replacing one field succeeds exactly when the new value fits and every other pointer and `cstr` field is null, and then replaces that field and restores the others |
| StructBytes.FieldEcho | src/structs.rs:359-390 | what a field reads back as after a script value was pushed into it: the value wrapped or clamped to the field type |
| StructBytes.UntouchedStructReadsBack | src/structs.rs:532-579 | a struct built from values reads back as those values in field range, then zeros and nulls |
| StructObject.StructValue.FromStructType | src/structs.rs:135-141 | a fresh struct of the layout's size, all zero, no field pushed |
| StructObject.StructValue.PushField | src/structs.rs:143-201 | the in-place write gives exactly the state of one push, and a failed push changes nothing |
| StructObject.StructValue.Reset | src/structs.rs:211-214 | back to the fresh state in the same buffer |
| StructObject.StructValue.ScriptRead | src/structs.rs:556-579 | the decoded field, or an error exactly past the last one |
| StructObject.BuildFromScript | src/structs.rs:532-550 | building from a list is pushing it in order; fails exactly when some value is rejected |
| Text.TrimIsSlice | src/caller.rs:516 | trimming removes white space at both ends and nothing else |
| Text.ParseUnsignedOfText | src/caller.rs:584-592 | parsing the decimal text of a number gives it back exactly up to the type's maximum |
| Text.ParseSignedOfText | src/coerce.rs:90-97 | parsing the decimal text of an integer gives it back exactly when it fits an `i64` |
| Text.ParseUnsignedIsExact | src/caller.rs:584-592 | exactly the digit texts with an optional plus parse, to their value, up to the maximum |
| Text.ParseSignedIsExact | src/coerce.rs:90-97 | exactly the digit texts with an optional sign parse, to their value, within `i64` |
| Split.SplitTopLevel | src/caller.rs:594-627 | the scanning loop with its depth counter computes the split function, with the same error for the same text |
| Split.SplitIsUnique | src/caller.rs:594-627 | at most one way to write a text as balanced pieces without a top-level separator |
| Split.PiecesSplit | src/caller.rs:594-627 | a balanced text is the join of its pieces, each balanced and free of top-level separators |
| Split.SplitTopIsExact | src/caller.rs:594-627 | splitting succeeds exactly on brace-balanced text, which is exactly when such a decomposition exists, and returns its trimmed pieces |
| Split.SpaceHasNoPieces | src/caller.rs:594-598 | an empty list, white space included, has no pieces: it is no list of one blank type |
| Split.DepthCounts | src/caller.rs:604-613 | the depth counter is the number of open braces less that of closing ones |
| Descriptor.TypeRoundTrip | src/caller.rs:515-561 | parsing the printed form of any well-formed type gives it back, under any alias tables and without any lookup |
| Descriptor.RoundTrip | src/caller.rs:504-513 | the same for the comma-joined printed form of any list of types |
| Descriptor.SpaceIsIgnored | src/caller.rs:515-516 | white space around a type changes nothing, errors and lookups included |
| Descriptor.StarIsPointer | src/caller.rs:515-519 | `*T` is a pointer to whatever `T` parses to, or fails as `T` does |
| Descriptor.BracesAreStruct | src/caller.rs:572-582 | `{...}` is the struct of the types between its top-level commas, in order, and fails exactly for an empty list or a field that is no scalar |
| Descriptor.UnknownIsRefused | src/caller.rs:556-559 | a name neither built in nor defined, or a defined one with a qualifier, is refused |
| Descriptor.OpenBraceIsRefused | src/caller.rs:572-575 | a struct that does not end with its closing brace is refused |
| Descriptor.SecondEqualsDropsQualifier | src/caller.rs:496-503 | with a second `=` the qualifier is ignored, not refused |
| Aliases.TypeTable.DefineType | src/caller.rs:367-384 | accepted exactly when the name is an identifier and no built-in and the text parses to a non-void type under the old table; then the name parses as that type and every text not mentioning it as before; otherwise the error says which condition failed and the table is untouched |
| Aliases.DefinitionTakesEffect | src/caller.rs:367-384 | binding a name makes it parse as the type bound, and changes no text that does not mention it |
| Aliases.ReachableTablesAreOk | src/caller.rs:367-384 | whatever definitions interleave, with every lookup at an arbitrary earlier moment, each table binds identifiers that are no built-in token to non-void well-formed types |
| Aliases.ParsedTypeIsWf | src/caller.rs:515-582 | a parse over sound tables gives a type whose structs come from `StructType::new` |
| Aliases.UndisturbedParse | src/caller.rs:515-582 | a parse equals the parse on a snapshot if the names it mentions were not redefined from it meanwhile: other entries cannot matter |
| Aliases.UndisturbedTypes | src/caller.rs:504-513 | the same for a whole argument list |
| Aliases.AliasesAreAbbreviations | src/caller.rs:515-582 | parsing under a table is parsing, with no table, the text with every alias token replaced by its type's canonical text, errors included |
| Aliases.ArgumentListAbbreviates | src/caller.rs:504-513 | the same for a whole argument list |
| Signature.ValidateIsExact | src/caller.rs:451-494 | a signature is accepted exactly when every buffer has the length it needs from another integer argument and no variadic argument is of a promoted type |
| Signature.ErrorIsTheFirst | src/caller.rs:451-494 | the error names an argument that breaks the rule it states, buffer lengths before the variadic rules and the first promoted argument |
| Signature.PromotedTypes | src/caller.rs:480-494 | promoted are `f32` and the integers narrower than 4 bytes |
| Definitions.SplitOnIsUnique | src/caller.rs:274 | the fields of a descriptor are the one way to write it as bar-free pieces joined by bars |
| Definitions.ParseFlags | src/caller.rs:412-433 | the flag loop computes the flag function, with the same first error |
| Definitions.FlagsAreExact | src/caller.rs:412-433 | flags are accepted exactly when each part is one, in any order; each holds exactly when named; the last of several counts holds |
| Definitions.DefinitionIsExact | src/caller.rs:273-343 | a definition is accepted exactly when there are five fields, the types parse, every flag is one, the signature keeps the rules and the result is no struct; it holds the parsed argument and return types, `coerce` exactly when named or the default, `errno` exactly when named |
| Definitions.DefinedFunctionsAreSound | src/caller.rs:273-343 | every accepted definition has well-formed types, sound buffer lengths and no struct return, under any sound tables |
| Definitions.DefinitionRoundTrip | src/caller.rs:273-343 | defining the printed form of a signature gives its argument types, return type and both flags back, or the very fault `validate_signature` finds in it |
| Definitions.BlankReturnIsRefused | src/caller.rs:290-291 | a blank return type is refused whatever the other fields and aliases are |
| Coercion.MeaningIsWellShaped | src/args.rs:170-490 | type preservation: for every entry point and input, what is passed fits the declared type, a struct by value to the byte, if and only if it is neither a dynamic value holding a struct of another size nor a variable for a type that is no address |
| Coercion.IntegersArriveAsIntegers | src/coerce.rs:17-32 | under a declared integer type everything but a mutable variable is passed as an integer of exactly that type |
| Coercion.CoercionPathsAgree | src/coerce.rs:22-46 | scalar argument, output variable read back and struct field written and read all yield the same representative of an integer |
| Coercion.DecimalTextRoundTrip | src/coerce.rs:37-46 | an integer formatted into text and parsed into an `i64` is its 64-bit value: itself exactly when it fits |
| Coercion.ByteSlotTakesFirstCharacter | src/coerce.rs:86-89 | text in a byte slot is its first byte: the documented number comes out for 53 alone |
| Marshal.PushKeepsAll | src/invoke.rs:125-185 | a push whose two cells carry its input's meaning keeps the frame and slot invariants of all arguments |
| Memory.Reserve | src/invoke.rs:517-519 | room for the request, used bytes kept, and a changed buffer has moved |
| Memory.FirstNul | src/invoke.rs:576 | the position of the first NUL, or the length when there is none |
| Exchange.PrepareStep | src/invoke.rs:551-564 | preparing one more buffer leaves all others, all second cells and all untouched objects alone |
| Exchange.LengthsUnchanged | src/invoke.rs:483-510 | no step of pre-processing changes any resolved length or failure |
| Exchange.PreparedKeepsFrame | src/invoke.rs:512-564 | at any point of pre-processing every argument still carries its meaning |
| Exchange.PreparedKeepsSlots | src/invoke.rs:512-564 | and every output slot its object |
| Exchange.DefinitionChecksSuffice | src/caller.rs:451-475 | on a fully pushed call of an accepted definition a buffer fails only on a negative or oversized length, or exactly when its length argument was pushed as a mutable variable |
| Exchange.CallFailsOnlyOnLengths | src/invoke.rs:551-564 | the same for the first failure of the whole call |
| Exchange.PreparingLeaves | src/invoke.rs:512-564 | pre-processing stopped at any argument has kept every string's text and every borrowed variable, and cut or filled only the vectors before that argument |
| Exchange.PreparingSpares | src/invoke.rs:512-564 | and has touched no object the invocation neither borrowed nor created |
| Exchange.CallIsExact | src/invoke.rs:483-564 | pre-processing goes through exactly when every buffer length, a constant or the value the length argument means, lies between 0 and 256 MiB: a condition on the pushed inputs alone |
| Exchange.FaultIsExact | src/invoke.rs:483-510 | the failure is `negative` exactly for a length below 0 and `too large` exactly for one above 268435456 |
| Delivery.FramePointersAreLive | src/invoke.rs:417-424 | every argument pointer designates a cell of the live buffer or a live struct copy |
| Delivery.LengthAgreement | src/invoke.rs:483-564 | the length a buffer was prepared for is the very value the callee receives for its length argument, in whatever order the arguments stand |
| Delivery.PreparedIsDelivered | src/invoke.rs:375-424 | marshalling refinement: once prepared, every argument pointer is live and leads to what the input means; the buffers pre-processing manages are ready for the length the callee is told |
| Delivery.ReadsFitExactly | src/invoke.rs:417-424 | for every call that reaches libffi: it finds a number of the declared type, the whole bytes of the declared struct or an address for every argument if and only if no input is a dynamic struct of another size or a variable for a type that is no address |
| Arrival.TakenExactly | src/args.rs:170-490 | a push is accepted exactly when the declared type takes the input, by a table over input kinds, types and coerce mode |
| Arrival.TextArrives | src/args.rs:194-215 | the callee finds a text given to a `cstr` or `ocstr` as its bytes and a NUL, a byte as its first byte |
| Arrival.SpelledNumberArrives | src/coerce.rs:90-112 | any other number as the one the trimmed text spells, wrapped or narrowed to the declared type |
| Arrival.IntegerArrives | src/coerce.rs:17-49 | the callee finds an integer as its representative or nearest float, as its 64 bits in an address, or behind the argument as decimal text |
| Arrival.FloatArrives | src/coerce.rs:52-70 | a float truncated and clamped to an integer, widened or narrowed to a float |
| Arrival.AddressArrives | src/args.rs:375-425 | a dynamic pointer bit for bit |
| Arrival.StructArrives | src/args.rs:235-259 | a struct by value byte for byte |
| Arrival.VariableArrives | src/args.rs:442-490 | a borrowed variable or struct is reached itself, unchanged |
| Arrival.BufferArrives | src/invoke.rs:512-549 | a borrowed String or vector is reached itself, with its text, room for the length the callee is told and, for `ocstr`, zeros and a NUL; a vector is cut or zero-filled to that length |
| Arrival.UnmeasuredBufferArrives | src/invoke.rs:531-549 | without a length an `obuff` is reached with the contents it had |
| Arrival.ScriptStringArrives | src/invoke.rs:263-284 | a scripted `ocstr` starts with the given text, or none, then zeros with room for the length told and a NUL |
| Arrival.ScriptNumberArrives | src/invoke.rs:318-326 | a script value for a number: wrapped, clamped or narrowed, nothing as zero |
| Arrival.ScriptAddressArrives | src/invoke.rs:285-297 | a script value for a `ptr`: the address, the 64 bits of the integer, or null |
| Arrival.ScriptTextArrives | src/invoke.rs:298-313 | a script value for a `cstr`: the text and a NUL, the empty text for nothing, null for null |
| Arrival.ScriptVariableArrives | src/invoke.rs:229-262 | the variable behind a scripted `*T` starts as the given number or address in the type of `T`, or zero |
| Arrival.ScriptStructArrives | src/invoke.rs:342-363 | a scripted struct has each value in its field and zeros everywhere else, complete when by value |
| Effects.OutputStringEnds | src/invoke.rs:565-584 | whatever is written within the first len bytes, the scan stops at a NUL inside the buffer, no later than the longer of initial text and len |
| Effects.OutputStringProtocol | src/invoke.rs:512-584 | end to end, for every call and callee: an argument that is an output string comes back as the decoded bytes before a NUL strictly inside its buffer, no further than its old text or the length the callee was told |
| Effects.WritesFitExactly | src/invoke.rs:512-549 | for every call that reaches the callee: no callee keeping to the declared types can overrun memory if and only if every coerced text in an `ocstr` is at most one byte shorter than the length told and no borrowed variable is smaller than its target, be it a scalar, a struct or an address |
| Effects.SafeExactly | src/invoke.rs:417-424 | reads and writes together: a call stays inside memory with every callee if and only if what was pushed is safe |
| Effects.ShortStructIsOverread | src/args.rs:346-428 | any dynamic struct for a longer declared one leaves libffi fewer bytes than it copies |
| Effects.VariableIsMisread | src/args.rs:442-453 | a variable pushed for an integer leaves its address where libffi reads the number |
| Effects.AddressOverrunsVariable | src/args.rs:442-453 | a variable of less than 8 bytes for a `**T` is overrun by the callee's store |
| Effects.RoomIsLostOnlyBy | src/invoke.rs:516-527 | only a number or text coerced into an `ocstr` and a borrowed primitive can lack room; strings, vectors, structs and everything a script pushes fit by themselves |
| Effects.CoercedTextOverruns | src/coerce.rs:79-85 | the text "a" for `ocstr=100` leaves the callee 2 bytes where it is told 100, and a callee that writes them overruns |
| Effects.OutputStringsAre | src/invoke.rs:565-584 | the arguments that come back as strings are those declared `ocstr` and passed as a String or a script value; a coerced copy is never read back |
| Effects.CallReturns | src/invoke.rs:417-442 | after a callee whose writes fit and post-processing, output strings are cut, other targets hold what the callee left and everything else is unchanged |
| Scripts.UntouchedStructOutput | src/invoke.rs:342-363 | a `*{...}` argument the callee leaves alone reports the values given, in field range, then zeros and nulls |
| Scripts.UntouchedOutput | src/invoke.rs:36-51 | a scripted `*T` variable the callee leaves alone reports the value given, in the range of the declared type |
| Owed.SlotsAreExact | src/invoke.rs:654-664 | the slots of a call name exactly the `*T` and `ocstr` arguments pushed as script values, and the `*{...}` arguments pushed as field values, each once, in ascending order |
| Scripts.SlotsSurvive | src/invoke.rs:736-749 | every slot reads back after the call: what earlier calls left, then what this callee left |
| Scripts.StaleSlotsSpoil | src/caller.rs:74-77 | either list of what is reported is exactly what the call is owed if and only if no slot of its kind was left by an earlier call |
| Scripts.ReturnIsRepresentative | src/invoke.rs:719-733 | an integer result is the one number in the declared range (for `u64`, that of `i64`) congruent to the return register |
| Scripts.ReturnStructIsReadable | src/structs.rs:520-525 | a struct result copied from its address is a whole struct of the declared layout |
| Reports.CalleeLeaves | src/invoke.rs:417-424 | what a callee leaves behind an argument: the bytes it wrote, as far as the declared type allows, then the old ones |
| Reports.StringIsReported | src/invoke.rs:36-51 | for every scripted `ocstr` argument i the outputs hold `(i, s)`, `s` the decoded bytes the callee left before the first NUL inside the old text or the length told |
| Reports.VariableIsReported | src/invoke.rs:36-51 | for every scripted `*T` argument i the outputs hold `(i, v)`, `v` the value of the bytes the callee left |
| Reports.StructIsReported | src/invoke.rs:736-749 | for every scripted `*{...}` the struct outputs hold the value of the bytes left in each field |
| Reports.ReturnIsReported | src/invoke.rs:679-733 | the reported result for every return type: the representative, float, text, address or null, and the bytes of a returned struct |
| Invocations.Invocation.Prep | src/caller.rs:78-87 | an empty valid invocation with room for four cells per argument |
| Invocations.Invocation.PushVal | src/args.rs:178-179 | appending a cell, moving the storage only when it is full |
| Invocations.Invocation.PushPair | src/coerce.rs:9-14 | a scalar in both cells, pointer to the second |
| Invocations.Invocation.PushCoercedInt | src/coerce.rs:17-49 | places the integer's meaning, or nothing exactly when it has none |
| Invocations.Invocation.PushCoercedFloat | src/coerce.rs:52-70 | places the float's meaning, or nothing exactly when it has none |
| Invocations.Invocation.PushCoercedStr | src/coerce.rs:73-116 | places the text's meaning, or nothing exactly when it has none |
| Invocations.Invocation.ValueToArg | src/args.rs:346-428 | the same for a dynamic value |
| Invocations.Invocation.StructValueToArg | src/args.rs:346-428 | a dynamic value holding a struct: placed for any struct argument, whatever its layout |
| Invocations.Invocation.ToArg | src/args.rs:194-343 | the same for every input type |
| Invocations.Invocation.ToMutArg | src/args.rs:170-490 | the same for every borrowed output |
| Invocations.Invocation.FinishPush | src/invoke.rs:179-185 | records the pointer exactly when two cells were added |
| Invocations.Invocation.PushArg | src/invoke.rs:125-133 | succeeds exactly when an argument is free and its type takes the input by the table of `Arrival.Accepts` (a text for a `cstr` exactly when it has no NUL); keeps validity; never moves the cells; a failure changes nothing |
| Invocations.Invocation.PushMutArg | src/invoke.rs:158-166 | the same for borrowed outputs |
| Invocations.Invocation.PushScriptVal | src/invoke.rs:222-315 | the same for script values, with their output slots |
| Invocations.Invocation.PushScriptStruct | src/invoke.rs:342-363 | the same for structs given as field values |
| Invocations.Invocation.PreProcessOcString | src/invoke.rs:512-529 | room for len + 1 more bytes, all zeroed, and the first cell re-pointed; or the failure, and no change |
| Invocations.Invocation.PreProcessOByteBuffer | src/invoke.rs:531-549 | a string reserved or a vector resized, and the first cell re-pointed; or the failure, and no change |
| Invocations.Invocation.PreProcessArgs | src/invoke.rs:551-564 | all buffers in order up to the first failure |
| Invocations.Invocation.PostProcessArgs | src/invoke.rs:565-592 | reading through the pointer in the first cell, every output string is cut at its first NUL |
| Invocations.Invocation.Call | src/invoke.rs:375-442 | the end-to-end statement above, from every valid state and for every callee, failures and what they leave included |
| Invocations.Invocation.Ready | src/invoke.rs:375-384 | its first part: goes on exactly when no argument is missing and every length fits, with the buffers prepared and the invocation still valid |
| Invocations.Invocation.CallScripted | src/invoke.rs:679-752 | the same, with the return value, the returned struct and the output values (in plain terms: `Reports`); each output list exact if and only if no stale slots of its kind; slots drained on success, kept on failure |
| Runs.OverrunIsReachable | src/coerce.rs:79-85 | the overrunning text passes definition, push and call |
| Runs.OverreadIsReachable | src/args.rs:346-428 | any struct in a dynamic value for any longer declared one passes definition, push and call in strict mode |
| Runs.MisreadIsReachable | src/args.rs:442-453 | any variable for any integer argument passes definition, push and call |
| Runs.RunScript | src/invoke.rs:125-752 | over any run of pushes of every kind and scripted calls, refused ones included, the successful calls consume the accepted inputs in order, a full list each; in each libffi reads what they mean as declared and the script gets what the callee left, for exactly the arguments owed; only a call that leaves memory ends a run early, and that takes unsafe inputs |

## Left out

- Invocation.Call: returns the raw 64-bit return register; `call`'s own conversion of it to an `ArgVal` and `last_errno` are not modelled.
- Scripts.ReturnStruct: what lies behind a returned address, like text behind a `char *`, is whatever the environment says.
- Invocation.PostProcessArgs: lossy UTF-8 decoding is an arbitrary function of the bytes.
- Invocation.ValueToArg: a pointer inside a dynamic value is a raw address, even if the caller took it from an object it owns.
- Invocation.ToMutArg: exclusive borrowing is a precondition (the object exists with the size of its type, and this invocation has not borrowed it before), as the compiler ensures; primitives are passed whatever the declared type, as in the source.
- Memory.Reserve: a growing reserve always moves the storage; a real allocator may also grow in place, which invalidates nothing.
- Effects.Part: a callee that writes through raw addresses it was given, or beyond what the declared types allow, is outside the model; `ptr`, `cstr`, `buff` and `*void` name no extent, so writes through them are.
- Coercion.Meaning: float casts, float parsing and text decoding are parameters; no numeric fact about floats is claimed.
- Definitions.DefineFunction: loading the library, looking up the symbol and libffi's own preparation, which may still refuse a signature (a `void` argument, say).
- Freeing of the owned copies when an invocation is cleared or dropped.
- The contents of the buffers behind a pointer are sequences in a map of objects, not Dafny arrays: what is written in place there is modelled as replacing the sequence.
- The library cache and the default-coerce switch: plumbing around the parts above.
- 32-bit and Windows widths of `usize`, `clong` and pointers; big-endian targets.
- Typed field reads (`read_field`, `read_field_coerced`), which decode as `script_read` does.
