/** Descriptor types (`ArgType`, `LengthDef`, `StructType`) and the script bridge value. */
module Types {
  import opened Numbers

  /** How long an output buffer is. */
  datatype LengthDef = NoLength | FromArg(k: byte) | Fixed(n: u64)

  datatype ArgType =
    | Int(ty: IntType)
    | F32
    | F64
    | CString
    | OCString(length: LengthDef)
    | ByteBuffer
    | OByteBuffer(length: LengthDef)
    | OpaquePointer
    | Struct(layout: StructType)
    | Pointer(target: ArgType)
    | Void

  datatype StructField = StructField(argType: ArgType, offset: nat, size: nat)

  datatype StructType = StructType(fields: seq<StructField>, size: nat, alignment: nat)

  /** A value of a scripting language; text is its UTF-8 bytes. */
  datatype ScriptVal =
    | Number(bits: u64)
    | Integer(n: i64)
    | Str(text: seq<byte>)
    | Address(bits: u64)
    | Null
    | Nil

  /** `ScriptVal::from(*mut c_void)`: a null pointer has its own variant. */
  function FromPointer(p: u64): ScriptVal {
    if p == 0 then Null else Address(p)
  }
}
