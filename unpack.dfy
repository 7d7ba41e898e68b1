/** The wire types of the `dataTypes` table and `unpackData`, which hands a
    slice of the stream to `struct.unpack` with the format the type selects. */
module Unpack {
  import opened Base

  /** The type codes of the `dataTypes` table. */
  datatype DataType =
    | Byte | UInt16 | SInt16 | UInt32 | SInt32 | UInt64 | SInt64
    | String | Float | Bytes | RawReplay

  /** The number each type has in the `dataTypes` table. */
  function Code(t: DataType): (c: nat)
    ensures c <= 10
  {
    match t
    case Byte => 0
    case UInt16 => 1
    case SInt16 => 2
    case UInt32 => 3
    case SInt32 => 4
    case UInt64 => 5
    case SInt64 => 6
    case String => 7
    case Float => 8
    case Bytes => 9
    case RawReplay => 10
  }

  /** The table gives every type its own number. */
  lemma CodesDistinct(t: DataType, u: DataType)
    ensures Code(t) == Code(u) ==> t == u
  {
  }

  /** A decoded field: an integer, a text, a byte string, or the four bytes
      of a 32-bit float (their IEEE-754 reading is outside this model). */
  datatype Value =
    | Int(n: int)
    | Text(s: string)
    | Raw(bytes: seq<byte>)
    | Float32(bits: seq<byte>)

  /** The size of the struct format unpackData selects: "<H"/"<h" 2,
      "<L"/"<l" 4, "<Q"/"<q" 8, "<s" 1, "<f" 4 and the fallback "<B" 1. */
  function FormatSize(t: DataType): (r: nat)
  {
    match t
    case UInt16 | SInt16 => 2
    case UInt32 | SInt32 => 4
    case UInt64 | SInt64 => 8
    case String => 1
    case Float => 4
    case _ => 1
  }

  /** The formats that read a two's-complement integer: "<h", "<l", "<q". */
  predicate SignedFormat(t: DataType)
  {
    t == SInt16 || t == SInt32 || t == SInt64
  }

  /** The formats that read an unsigned integer: "<H", "<L", "<Q" and "<B". */
  predicate UnsignedFormat(t: DataType)
  {
    !SignedFormat(t) && t != String && t != Float
  }

  /** Unsigned little-endian reading of a byte string. */
  function LittleEndian(s: seq<byte>): (n: nat)
    ensures n < Pow2(8 * |s|)
  {
    if s == [] then 0
    else
      var rest := LittleEndian(s[1..]);
      Pow2Add(8, 8 * (|s| - 1));
      assert Pow2(8) == 256;
      s[0] + 256 * rest
  }

  /** Two's-complement reading of an unsigned value `u` of `w` bytes. */
  function Signed(u: nat, w: nat): (r: int)
    requires w >= 1
  {
    if u < Pow2(8 * w - 1) then u else u - Pow2(8 * w)
  }

  /** The integers a format can represent. */
  predicate InRange(v: int, t: DataType)
  {
    var bits := 8 * FormatSize(t);
    if SignedFormat(t) then -(Pow2(bits - 1) as int) <= v < Pow2(bits - 1)
    else UnsignedFormat(t) && 0 <= v < Pow2(bits)
  }

  /** unpackData: `struct.unpack` with the format of the type, which raises
      struct.error unless the slice has exactly the format's size. */
  function UnpackData(data: seq<byte>, t: DataType): (r: Result<Value>)
    ensures r.Success? <==> |data| == FormatSize(t)
    ensures r.Failure? ==> r.error == StructError
    ensures r.Success? && (SignedFormat(t) || UnsignedFormat(t)) ==>
      r.value.Int? && InRange(r.value.n, t)
  {
    if |data| != FormatSize(t) then Failure(StructError)
    else match t
      case UInt16 | UInt32 | UInt64 => Success(Int(LittleEndian(data)))
      case SInt16 | SInt32 | SInt64 =>
        Pow2Add(1, 8 * |data| - 1);
        Success(Int(Signed(LittleEndian(data), |data|)))
      case String => Success(Raw(data))
      case Float => Success(Float32(data))
      case _ => Success(Int(data[0]))
  }

  /** The integer formats read the little-endian value of the slice, as two's
      complement for the signed ones. */
  lemma UnpackInteger(data: seq<byte>, t: DataType)
    requires SignedFormat(t) || UnsignedFormat(t)
    requires |data| == FormatSize(t)
    ensures UnpackData(data, t).Success?
    ensures UnpackData(data, t).value ==
      Int(if SignedFormat(t) then Signed(LittleEndian(data), |data|) else LittleEndian(data))
  {
    if |data| == 1 {
      assert LittleEndian(data) == data[0] + 256 * LittleEndian(data[1..]);
    }
  }

  /** Little-endian bytes of `n` in a field of `w` bytes. */
  function EncodeLE(n: nat, w: nat): (r: seq<byte>)
    ensures |r| == w
  {
    if w == 0 then [] else [n % 256] + EncodeLE(n / 256, w - 1)
  }

  /** Reading back `w` encoded bytes gives `n` whenever `n` fits. */
  lemma {:induction false} LittleEndianOfEncode(n: nat, w: nat)
    requires n < Pow2(8 * w)
    ensures LittleEndian(EncodeLE(n, w)) == n
  {
    if w > 0 {
      Pow2Add(8, 8 * (w - 1));
      assert Pow2(8) == 256;
      assert n / 256 < Pow2(8 * (w - 1));
      LittleEndianOfEncode(n / 256, w - 1);
      assert EncodeLE(n, w)[1..] == EncodeLE(n / 256, w - 1);
    }
  }

  /** Encoding what was read reproduces the bytes: the reading is one-to-one. */
  lemma {:induction false} EncodeOfLittleEndian(s: seq<byte>)
    ensures EncodeLE(LittleEndian(s), |s|) == s
  {
    if s != [] {
      EncodeOfLittleEndian(s[1..]);
      var n := LittleEndian(s);
      assert n % 256 == s[0] && n / 256 == LittleEndian(s[1..]);
    }
  }

  /** `struct.pack` for the integer formats: two's complement for the signed ones. */
  function Pack(v: int, t: DataType): (r: seq<byte>)
    requires InRange(v, t)
    ensures |r| == FormatSize(t)
  {
    var w := FormatSize(t);
    EncodeLE(if v >= 0 then v else v + Pow2(8 * w), w)
  }

  /** Two's complement in `w` bytes, read back, gives the signed value. */
  lemma SignedOfTwosComplement(v: int, w: nat)
    requires w >= 1
    requires -(Pow2(8 * w - 1) as int) <= v < Pow2(8 * w - 1)
    ensures var u := if v >= 0 then v else v + Pow2(8 * w);
      0 <= u < Pow2(8 * w) && Signed(u, w) == v
  {
    Pow2Add(1, 8 * w - 1);
  }

  lemma UnpackPackSigned(v: int, t: DataType)
    requires SignedFormat(t) && InRange(v, t)
    ensures UnpackData(Pack(v, t), t) == Success(Int(v))
  {
    var w := FormatSize(t);
    var u := if v >= 0 then v else v + Pow2(8 * w);
    SignedOfTwosComplement(v, w);
    var data := Pack(v, t);
    assert data == EncodeLE(u, w);
    LittleEndianOfEncode(u, w);
    assert |data| == w;
    UnpackInteger(data, t);
  }

  lemma UnpackPackUnsigned(v: int, t: DataType)
    requires UnsignedFormat(t) && InRange(v, t)
    ensures UnpackData(Pack(v, t), t) == Success(Int(v))
  {
    var w := FormatSize(t);
    LittleEndianOfEncode(v, w);
    if w == 1 {
      assert LittleEndian(Pack(v, t)) == Pack(v, t)[0];
    }
  }

  /** Unpacking what was packed gives back the integer, for every integer format. */
  lemma UnpackPack(v: int, t: DataType)
    requires InRange(v, t)
    ensures UnpackData(Pack(v, t), t) == Success(Int(v))
  {
    if SignedFormat(t) {
      UnpackPackSigned(v, t);
    } else {
      UnpackPackUnsigned(v, t);
    }
  }

  /** Packing what was unpacked gives back the bytes, for every integer format. */
  lemma PackUnpack(data: seq<byte>, t: DataType)
    requires SignedFormat(t) || UnsignedFormat(t)
    requires |data| == FormatSize(t)
    ensures UnpackData(data, t).value.Int?
    ensures Pack(UnpackData(data, t).value.n, t) == data
  {
    EncodeOfLittleEndian(data);
    if |data| == 1 {
      assert LittleEndian(data) == data[0];
    }
  }
}
