/** The eight PLY scalar types, their names in a header, their binary widths
    and value ranges, and the numbers the two body decoders produce for them. */
module PlyTypes {
  import opened Wrappers
  import opened PlyErrors
  import opened Bytes
  import Text

  datatype PlyType = Char | UChar | Short | UShort | Int | UInt | Float | Double

  const TypeNames: set<string> := {"char", "uchar", "short", "ushort", "int", "uint", "float", "double"}

  /** Header spelling of a type. */
  function TypeName(t: PlyType): (name: string)
    ensures name in TypeNames
  {
    match t
    case Char => "char"
    case UChar => "uchar"
    case Short => "short"
    case UShort => "ushort"
    case Int => "int"
    case UInt => "uint"
    case Float => "float"
    case Double => "double"
  }

  /** Type named by a header word; exactly the eight names are accepted. */
  function ParseType(name: string): (r: Result<PlyType, PlyError>)
    ensures r.Ok? <==> name in TypeNames
    ensures r.Ok? ==> TypeName(r.value) == name
    ensures r.Err? ==> r.error == UnknownType
  {
    if name == "char" then Ok(Char)
    else if name == "uchar" then Ok(UChar)
    else if name == "short" then Ok(Short)
    else if name == "ushort" then Ok(UShort)
    else if name == "int" then Ok(Int)
    else if name == "uint" then Ok(UInt)
    else if name == "float" then Ok(Float)
    else if name == "double" then Ok(Double)
    else Err(UnknownType)
  }

  lemma ParseTypeName(t: PlyType)
    ensures ParseType(TypeName(t)) == Ok(t)
  {
  }

  predicate IsIntegral(t: PlyType) {
    t != Float && t != Double
  }

  predicate IsSigned(t: PlyType) {
    t == Char || t == Short || t == Int
  }

  /** Bytes a value of the type occupies in a binary body. */
  function Width(t: PlyType): (w: nat)
    ensures w in {1, 2, 4, 8}
  {
    match t
    case Char => 1
    case UChar => 1
    case Short => 2
    case UShort => 2
    case Int => 4
    case UInt => 4
    case Float => 4
    case Double => 8
  }

  function MinValue(t: PlyType): int
    requires IsIntegral(t)
  {
    if IsSigned(t) then -(Pow256(Width(t)) / 2) else 0
  }

  function MaxValue(t: PlyType): int
    requires IsIntegral(t)
  {
    if IsSigned(t) then Pow256(Width(t)) / 2 - 1 else Pow256(Width(t)) - 1
  }

  /** How a floating-point value is kept: as the text or the little-endian
      bytes it was decoded from (its numeric value is not modelled). */
  datatype RealRepr = Literal(token: string) | Bits(bytes: seq<byte>)

  /** A `java.lang.Number` returned by `Type.read` / `Type.parse`. */
  datatype Number = IntNum(n: int) | RealNum(repr: RealRepr)

  /** The value is one a decoder can return for the type. */
  predicate Fits(t: PlyType, v: Number) {
    if IsIntegral(t) then v.IntNum? && MinValue(t) <= v.n <= MaxValue(t) else v.RealNum?
  }

  /** `Number.intValue()` of an integral value: its low 32 bits as a signed
      Java `int` (only a `uint` value can lie outside the `int` range). */
  function JavaInt(n: int): (r: int)
    ensures Text.JavaIntMin <= r <= Text.JavaIntMax
    ensures Text.JavaIntMin <= n <= Text.JavaIntMax ==> r == n
    ensures r % 0x1_0000_0000 == n % 0x1_0000_0000
  {
    var low := n % 0x1_0000_0000;
    if low >= 0x8000_0000 then low - 0x1_0000_0000 else low
  }

  /** Decoding of one binary field of the type, given in file byte order. */
  function DecodeBinary(t: PlyType, bs: seq<byte>, order: ByteOrder): (v: Number)
    requires |bs| == Width(t)
    ensures Fits(t, v)
  {
    var le := InLittleEndian(bs, order);
    if IsIntegral(t) then IntNum(FromUnsigned(t, UnsignedLE(le)))
    else RealNum(Bits(le))
  }

  /** The value whose `Width(t)` bytes read as the unsigned `u`: two's
      complement for the signed types. */
  function FromUnsigned(t: PlyType, u: nat): (n: int)
    requires IsIntegral(t) && u < Pow256(Width(t))
    ensures MinValue(t) <= n <= MaxValue(t)
  {
    var p := Pow256(Width(t));
    if IsSigned(t) && u >= p / 2 then u - p else u
  }

  /** The unsigned reading of the bytes that store `n`. */
  function ToUnsigned(t: PlyType, n: int): (u: nat)
    requires IsIntegral(t) && MinValue(t) <= n <= MaxValue(t)
    ensures u < Pow256(Width(t))
  {
    if n < 0 then n + Pow256(Width(t)) else n
  }

  lemma FromToUnsigned(t: PlyType, n: int)
    requires IsIntegral(t) && MinValue(t) <= n <= MaxValue(t)
    ensures FromUnsigned(t, ToUnsigned(t, n)) == n
  {
    var p := Pow256(Width(t));
    assert p == 256 * Pow256(Width(t) - 1);
    if IsSigned(t) {
      TwosComplement(n, p);
    }
  }

  /** The bytes, in file byte order, that encode an integral value. */
  function EncodeBinary(t: PlyType, n: int, order: ByteOrder): (bs: seq<byte>)
    requires IsIntegral(t) && MinValue(t) <= n <= MaxValue(t)
    ensures |bs| == Width(t)
  {
    var le := EncodeLE(ToUnsigned(t, n), Width(t));
    if order == LittleEndian then le else Reverse(le)
  }

  /** Binary decoding inverts encoding, in both byte orders. */
  lemma DecodeEncodeBinary(t: PlyType, n: int, order: ByteOrder)
    requires IsIntegral(t) && MinValue(t) <= n <= MaxValue(t)
    ensures DecodeBinary(t, EncodeBinary(t, n, order), order) == IntNum(n)
  {
    var le := EncodeLE(ToUnsigned(t, n), Width(t));
    UnsignedEncodeLE(ToUnsigned(t, n), Width(t));
    EncodedInLittleEndian(le, order);
    FromToUnsigned(t, n);
  }

  lemma EncodedInLittleEndian(le: seq<byte>, order: ByteOrder)
    ensures InLittleEndian(if order == LittleEndian then le else Reverse(le), order) == le
  {
    if order == BigEndian {
      ReverseReverse(le);
    }
  }

  /** Adding `p` to a negative value in `[-p/2, p/2)` and subtracting it
      again from results at or above `p/2` gives the value back. */
  lemma TwosComplement(n: int, p: int)
    requires p > 0 && p % 2 == 0 && -(p / 2) <= n < p / 2
    ensures var u := if n < 0 then n + p else n;
            0 <= u < p && (if u >= p / 2 then u - p else u) == n
  {
  }

  /** A big-endian field decodes like the same field little-endian with its
      bytes reversed. */
  lemma DecodeBinarySwap(t: PlyType, bs: seq<byte>)
    requires |bs| == Width(t)
    ensures DecodeBinary(t, Reverse(bs), BigEndian) == DecodeBinary(t, bs, LittleEndian)
  {
    InLittleEndianSwap(bs);
  }

  /** Decoding of one ASCII token: an integral type needs a decimal integer
      within its range, a floating-point type keeps the token's text. */
  function DecodeToken(t: PlyType, token: string): (r: Result<Number, PlyError>)
    ensures r.Ok? ==> Fits(t, r.value)
    ensures r.Err? ==> r.error == BadValue
  {
    if IsIntegral(t) then
      match Text.ParseInteger(token)
      case Some(n) => if MinValue(t) <= n <= MaxValue(t) then Ok(IntNum(n)) else Err(BadValue)
      case None => Err(BadValue)
    else Ok(RealNum(Literal(token)))
  }

  /** A printed in-range integer decodes back to itself. */
  lemma DecodeTokenShowInt(t: PlyType, n: int)
    requires IsIntegral(t) && MinValue(t) <= n <= MaxValue(t)
    ensures DecodeToken(t, Text.ShowInt(n)) == Ok(IntNum(n))
  {
    Text.ParseShowInt(n);
  }
}
