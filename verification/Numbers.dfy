/**
 The fixed-width integers of the foreign interface, their little-endian bytes, and the `as` casts
 between them. The eight integer variants of the source's `ArgType` and `ArgVal` differ only in
 width and signedness, so they share one constructor indexed by `IntType`.
 */
module Numbers {

  type byte = x: int | 0 <= x < 0x100
  type u32 = x: int | 0 <= x < 0x1_0000_0000
  type u64 = x: int | 0 <= x < 0x1_0000_0000_0000_0000
  type i64 = x: int | -0x8000_0000_0000_0000 <= x < 0x8000_0000_0000_0000

  datatype IntType = Char | I8 | I16 | U16 | I32 | U32 | I64 | U64

  predicate Signed(ty: IntType) {
    ty.I8? || ty.I16? || ty.I32? || ty.I64?
  }

  /** The scalar sizes, which are also the scalar alignments. */
  predicate IsUnit(n: nat) {
    n == 1 || n == 2 || n == 4 || n == 8
  }

  /** Size in bytes; on the modelled target the alignment is the same number. */
  function Width(ty: IntType): (w: nat)
    ensures IsUnit(w)
  {
    match ty
    case Char | I8 => 1
    case I16 | U16 => 2
    case I32 | U32 => 4
    case I64 | U64 => 8
  }

  function Modulus(ty: IntType): (m: nat)
    ensures m % 2 == 0 && m > 0
  {
    match ty
    case Char | I8 => 0x100
    case I16 | U16 => 0x1_0000
    case I32 | U32 => 0x1_0000_0000
    case I64 | U64 => 0x1_0000_0000_0000_0000
  }

  function Low(ty: IntType): int {
    if Signed(ty) then -(Modulus(ty) / 2) else 0
  }

  function High(ty: IntType): int {
    if Signed(ty) then Modulus(ty) / 2 - 1 else Modulus(ty) - 1
  }

  predicate InRange(ty: IntType, n: int) {
    Low(ty) <= n <= High(ty)
  }

  // -- integer casts -----------------------------------------------------------------------------

  /** Rust's `n as T` between integer types: keep the low bits, reinterpret the sign. */
  function Wrap(ty: IntType, n: int): (r: int)
    ensures InRange(ty, r)
  {
    var low := n % Modulus(ty);
    if Signed(ty) && low >= Modulus(ty) / 2 then low - Modulus(ty) else low
  }

  /** Rust's `x as T` from a float whose integer part is `n`: saturating. */
  function Clamp(ty: IntType, n: int): (r: int)
    ensures InRange(ty, r)
    ensures InRange(ty, n) ==> r == n
  {
    if n < Low(ty) then Low(ty) else if n > High(ty) then High(ty) else n
  }

  lemma DivModUnique(x: int, m: int, q: int, r: int)
    requires 0 <= r < m && x == q * m + r
    ensures x / m == q && x % m == r
  {
    var d := q - x / m;
    assert d * m == x % m - r;
    assert d >= 1 ==> d * m >= m;
    assert d <= -1 ==> d * m <= -m;
  }

  lemma ModShift(n: int, k: int, m: int)
    requires m > 0
    ensures (n + k * m) % m == n % m
    ensures (k * m) % m == 0
  {
    assert n + k * m == (n / m + k) * m + n % m;
    DivModUnique(n + k * m, m, n / m + k, n % m);
    DivModUnique(k * m, m, k, 0);
  }

  /** `Wrap` differs from its argument by a multiple of 2^width. */
  lemma WrapShift(ty: IntType, n: int) returns (k: int)
    ensures Wrap(ty, n) == n + k * Modulus(ty)
  {
    var m := Modulus(ty);
    k := if Signed(ty) && n % m >= m / 2 then -(n / m) - 1 else -(n / m);
    assert n == m * (n / m) + n % m;
  }

  /** `Wrap` is the one representative of `n` modulo 2^width that lies in the type's range. */
  lemma WrapIsTheRepresentative(ty: IntType, n: int, x: int)
    ensures x == Wrap(ty, n) <==> InRange(ty, x) && (x - n) % Modulus(ty) == 0
  {
    var m := Modulus(ty);
    var k := WrapShift(ty, n);
    ModShift(0, k, m);
    if InRange(ty, x) && (x - n) % m == 0 {
      var j := (x - n) / m;
      assert x - n == j * m;
      var d := j - k;
      assert x - Wrap(ty, n) == d * m;
      assert d >= 1 ==> d * m >= m;
      assert d <= -1 ==> d * m <= -m;
    }
  }

  /** Every width divides 2^64: numbers congruent modulo 2^64 have the same low bits. */
  lemma LowBitsCongruent(ty: IntType, n: int, k: int)
    ensures (n + k * Modulus(U64)) % Modulus(ty) == n % Modulus(ty)
  {
    var m := Modulus(ty);
    var c := Modulus(U64) / m;
    assert c * m == Modulus(U64);
    assert k * (c * m) == (k * c) * m;
    ModShift(n, k * c, m);
  }

  lemma LowBitsThroughI64(ty: IntType, n: int)
    ensures Wrap(I64, n) % Modulus(ty) == n % Modulus(ty)
  {
    var k := WrapShift(I64, n);
    LowBitsCongruent(ty, n, k);
  }

  lemma LowBitsOfWrap(ty: IntType, n: int)
    ensures Wrap(ty, n) % Modulus(ty) == n % Modulus(ty)
  {
    var k := WrapShift(ty, n);
    ModShift(n, k, Modulus(ty));
  }

  /** Going through `i64` or `u64`, as the coercions of the source do, loses nothing. */
  lemma WrapThrough64(ty: IntType, n: int)
    ensures Wrap(ty, Wrap(I64, n)) == Wrap(ty, n)
    ensures Wrap(ty, Wrap(U64, n)) == Wrap(ty, n)
  {
    var k := WrapShift(I64, n);
    LowBitsCongruent(ty, n, k);
    k := WrapShift(U64, n);
    LowBitsCongruent(ty, n, k);
  }

  /** The ranges in plain numbers. */
  lemma RangesAre(ty: IntType, n: int)
    ensures InRange(ty, n) <==>
      match ty
      case Char => 0 <= n <= 255
      case I8 => -128 <= n <= 127
      case I16 => -32768 <= n <= 32767
      case U16 => 0 <= n <= 65535
      case I32 => -2147483648 <= n <= 2147483647
      case U32 => 0 <= n <= 4294967295
      case I64 => -9223372036854775808 <= n <= 9223372036854775807
      case U64 => 0 <= n <= 18446744073709551615
    ensures High(ty) - Low(ty) + 1 == Modulus(ty)
  {
  }

  /** A saturating cast gives the number in range that is nearest. */
  lemma ClampIsNearest(ty: IntType, n: int, x: int)
    requires InRange(ty, x)
    ensures InRange(ty, Clamp(ty, n))
    ensures if n <= x then Clamp(ty, n) <= x && (Clamp(ty, n) == n || n < Clamp(ty, n))
      else x <= Clamp(ty, n) && (Clamp(ty, n) == n || Clamp(ty, n) < n)
  {
  }

  // -- little-endian bytes -----------------------------------------------------------------------

  function Pow256(w: nat): (p: nat)
    ensures p > 0
  {
    if w == 0 then 1 else 256 * Pow256(w - 1)
  }

  /** The low `w` bytes of `n`, least significant first (`to_ne_bytes` on the modelled target). */
  function Encode(n: nat, w: nat): (bs: seq<byte>)
    ensures |bs| == w
  {
    if w == 0 then [] else [n % 256] + Encode(n / 256, w - 1)
  }

  /** The number little-endian bytes stand for (`from_ne_bytes`). */
  function Decode(bs: seq<byte>): (n: nat)
    ensures n < Pow256(|bs|)
  {
    if bs == [] then 0 else bs[0] + 256 * Decode(bs[1..])
  }

  lemma DivTwice(n: nat, a: nat, b: nat)
    requires a > 0 && b > 0
    ensures a * b > 0 && n / a / b == n / (a * b)
  {
    var q := n / a;
    Regroup(n, q, n % a, q / b, q % b, a, b);
    DivModUnique(n, a * b, q / b, q % b * a + n % a);
  }

  lemma MulMonotone(i: nat, j: nat, a: nat)
    requires i <= j
    ensures i * a <= j * a
  {
  }

  lemma Distribute(x: nat, y: nat, b: nat, a: nat)
    ensures (x * b + y) * a == x * (a * b) + y * a
  {
  }

  lemma Regroup(n: nat, q: nat, r: nat, q2: nat, r2: nat, a: nat, b: nat)
    requires n == q * a + r && r < a
    requires q == q2 * b + r2 && r2 < b
    ensures n == q2 * (a * b) + (r2 * a + r) && r2 * a + r < a * b
  {
    Distribute(q2, r2, b, a);
    MulMonotone(r2 + 1, b, a);
    Distribute(0, r2 + 1, 1, a);
  }

  /** Byte `i` is the `i`-th digit to base 256, least significant first. */
  lemma {:induction false} EncodeByte(n: nat, w: nat, i: nat)
    requires i < w
    ensures Encode(n, w)[i] == n / Pow256(i) % 256
  {
    if i > 0 {
      EncodeByte(n / 256, w - 1, i - 1);
      DivTwice(n, 256, Pow256(i - 1));
    }
  }

  lemma {:induction false} DecodeEncode(n: nat, w: nat)
    requires n < Pow256(w)
    ensures Decode(Encode(n, w)) == n
  {
    if w > 0 {
      DecodeEncode(n / 256, w - 1);
      assert Encode(n, w)[1..] == Encode(n / 256, w - 1);
    }
  }

  lemma {:induction false} EncodeDecode(bs: seq<byte>)
    ensures Encode(Decode(bs), |bs|) == bs
  {
    if bs != [] {
      EncodeDecode(bs[1..]);
      assert Decode(bs) / 256 == Decode(bs[1..]);
    }
  }

  lemma ModulusIsPow256(ty: IntType)
    ensures Modulus(ty) == Pow256(Width(ty))
  {
    assert Pow256(2) == 0x1_0000;
    assert Pow256(4) == 0x1_0000 * Pow256(2);
    assert Pow256(8) == 0x1_0000 * (0x1_0000 * Pow256(4));
  }

  /** Bytes of the low bits of any integer, in the width of `ty`. */
  function EncodeInt(ty: IntType, n: int): (bs: seq<byte>)
    ensures |bs| == Width(ty)
  {
    Encode(n % Modulus(ty), Width(ty))
  }

  function DecodeInt(ty: IntType, bs: seq<byte>): (n: int)
    ensures InRange(ty, n)
  {
    Wrap(ty, Decode(bs))
  }

  /** What is stored for any `n` reads back as `n`'s representative in the type. */
  lemma IntRoundTrip(ty: IntType, n: int)
    ensures DecodeInt(ty, EncodeInt(ty, n)) == Wrap(ty, n)
  {
    ModulusIsPow256(ty);
    DecodeEncode(n % Modulus(ty), Width(ty));
    DivModUnique(n % Modulus(ty), Modulus(ty), 0, n % Modulus(ty));
  }

  /** And any bytes of the right width are what the number read from them encodes to,
      even when that number first went through `i64`. */
  lemma BytesRoundTrip(ty: IntType, bs: seq<byte>)
    requires |bs| == Width(ty)
    ensures EncodeInt(ty, Wrap(I64, DecodeInt(ty, bs))) == bs
  {
    ModulusIsPow256(ty);
    EncodeDecode(bs);
    LowBitsThroughI64(ty, DecodeInt(ty, bs));
    LowBitsOfWrap(ty, Decode(bs));
    DivModUnique(Decode(bs), Modulus(ty), 0, Decode(bs));
  }

  // -- floats --------------------------------------------------------------------------------------

  /**
   Floating point values are bit patterns; the conversions the source asks the compiler for are
   parameters. `trunc` gives the integer part a saturating `as` cast starts from (0 for a NaN).
   */
  datatype FloatOps = FloatOps(
    trunc: u64 -> int,
    intToF64: i64 -> u64,
    intToF32: i64 -> u32,
    narrow: u64 -> u32,
    widen: u32 -> u64)
}
