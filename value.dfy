/**
 * TIFF field values: the unit-length table of section 2 of TIFF 6.0
 * (`get_type_info`), the deferred `Unknown(type, count, offset)` triple the
 * directory parser records, its one-shot decoding into typed units, and
 * `Value::get_uint`.
 */
module Value {
  import opened Endian
  import opened Wrappers

  const BYTE: nat := 1
  const ASCII: nat := 2
  const SHORT: nat := 3
  const LONG: nat := 4
  const RATIONAL: nat := 5
  const SBYTE: nat := 6
  const UNDEFINED: nat := 7
  const SSHORT: nat := 8
  const SLONG: nat := 9
  const SRATIONAL: nat := 10
  const FLOAT: nat := 11
  const DOUBLE: nat := 12

  datatype UnsignedRational = UnsignedRational(num: nat, denom: nat)
  datatype SignedRational = SignedRational(num: int, denom: int)

  /**
   * A field value. `Unknown` is both the deferred triple the parser
   * records and what an unrecognised type code stays after decoding.
   * FLOAT and DOUBLE units are kept as their IEEE bit patterns.
   */
  datatype Value =
    | Byte(u8s: seq<byte>)
    | Ascii(chars: seq<byte>)
    | Short(u16s: seq<nat>)
    | Long(u32s: seq<nat>)
    | Rational(urationals: seq<UnsignedRational>)
    | SByte(i8s: seq<int>)
    | Undefined(raw: seq<byte>, ofs: nat)
    | SShort(i16s: seq<int>)
    | SLong(i32s: seq<int>)
    | SRational(srationals: seq<SignedRational>)
    | Float(f32bits: seq<nat>)
    | Double(f64bits: seq<nat>)
    | Unknown(typ: nat, cnt: nat, ofs: nat)

  /** `get_type_info`: the byte width of one unit of a type code; 0 for an unknown code. */
  function UnitLen(typ: nat): (n: nat)
    ensures n == 0 || n == 1 || n == 2 || n == 4 || n == 8
    ensures n != 0 <==> 1 <= typ <= 12
  {
    if typ == BYTE || typ == ASCII || typ == SBYTE || typ == UNDEFINED then 1
    else if typ == SHORT || typ == SSHORT then 2
    else if typ == LONG || typ == SLONG || typ == FLOAT then 4
    else if typ == RATIONAL || typ == SRATIONAL || typ == DOUBLE then 8
    else 0
  }

  /** The type code a decoded value was built from (the inverse direction of Decode). */
  function TypeCode(v: Value): nat
  {
    match v
    case Byte(_) => BYTE
    case Ascii(_) => ASCII
    case Short(_) => SHORT
    case Long(_) => LONG
    case Rational(_) => RATIONAL
    case SByte(_) => SBYTE
    case Undefined(_, _) => UNDEFINED
    case SShort(_) => SSHORT
    case SLong(_) => SLONG
    case SRational(_) => SRATIONAL
    case Float(_) => FLOAT
    case Double(_) => DOUBLE
    case Unknown(t, _, _) => t
  }

  /** The number of units a value holds. */
  function Count(v: Value): nat
  {
    match v
    case Byte(s) => |s|
    case Ascii(s) => |s|
    case Short(s) => |s|
    case Long(s) => |s|
    case Rational(s) => |s|
    case SByte(s) => |s|
    case Undefined(s, _) => |s|
    case SShort(s) => |s|
    case SLong(s) => |s|
    case SRational(s) => |s|
    case Float(s) => |s|
    case Double(s) => |s|
    case Unknown(_, c, _) => c
  }

  /** A deferred triple whose bytes lie inside `data`, so decoding it cannot read out of bounds. */
  predicate DeferredInBounds(v: Value, data: seq<byte>)
  {
    v.Unknown? && v.ofs + UnitLen(v.typ) * v.cnt <= |data|
  }

  /** One unsigned unit of `width` bytes at `pos`. */
  function LoadUnit(data: seq<byte>, pos: nat, width: nat, le: bool): (r: nat)
    requires width == 1 || width == 2 || width == 4 || width == 8
    requires pos + width <= |data|
  {
    if width == 1 then data[pos]
    else if width == 2 then LoadU16(data, pos, le)
    else if width == 4 then LoadU32(data, pos, le)
    else LoadU64(data, pos, le)
  }

  /** `cnt` consecutive unsigned units of `width` bytes starting at `pos`. */
  function Units(data: seq<byte>, pos: nat, cnt: nat, width: nat, le: bool): (r: seq<nat>)
    requires width == 1 || width == 2 || width == 4 || width == 8
    requires pos + width * cnt <= |data|
    ensures |r| == cnt
    decreases cnt
  {
    if cnt == 0 then []
    else [LoadUnit(data, pos, width, le)] + Units(data, pos + width, cnt - 1, width, le)
  }

  /** Two's-complement reading of an unsigned `bits`-wide integer. */
  function Signed(u: nat, bits: nat): int
  {
    var half := Pow2(bits) / 2;
    if u < half then u else u - Pow2(bits)
  }

  function Pow2(n: nat): (r: nat)
    ensures r >= 1
  {
    if n == 0 then 1 else 2 * Pow2(n - 1)
  }

  function SignedAll(us: seq<nat>, bits: nat): (r: seq<int>)
    ensures |r| == |us|
  {
    seq(|us|, i requires 0 <= i < |us| => Signed(us[i], bits))
  }

  function URationals(us: seq<nat>): (r: seq<UnsignedRational>)
    requires |us| % 2 == 0
    ensures |r| == |us| / 2
  {
    seq(|us| / 2, i requires 0 <= i < |us| / 2 => UnsignedRational(us[2 * i], us[2 * i + 1]))
  }

  function SRationals(us: seq<nat>): (r: seq<SignedRational>)
    requires |us| % 2 == 0
    ensures |r| == |us| / 2
  {
    seq(|us| / 2, i requires 0 <= i < |us| / 2 => SignedRational(Signed(us[2 * i], 32), Signed(us[2 * i + 1], 32)))
  }

  /** The type's registered parser: `cnt` units of a known type at `ofs`. */
  function Decode(typ: nat, data: seq<byte>, ofs: nat, cnt: nat, le: bool): (r: Value)
    requires UnitLen(typ) != 0
    requires ofs + UnitLen(typ) * cnt <= |data|
    ensures !r.Unknown? && TypeCode(r) == typ && Count(r) == cnt
  {
    if typ == BYTE then Byte(data[ofs..ofs + cnt])
    else if typ == ASCII then Ascii(data[ofs..ofs + cnt])
    else if typ == SHORT then Short(Units(data, ofs, cnt, 2, le))
    else if typ == LONG then Long(Units(data, ofs, cnt, 4, le))
    else if typ == RATIONAL then Rational(URationals(Units(data, ofs, 2 * cnt, 4, le)))
    else if typ == SBYTE then SByte(SignedAll(data[ofs..ofs + cnt], 8))
    else if typ == UNDEFINED then Undefined(data[ofs..ofs + cnt], ofs)
    else if typ == SSHORT then SShort(SignedAll(Units(data, ofs, cnt, 2, le), 16))
    else if typ == SLONG then SLong(SignedAll(Units(data, ofs, cnt, 4, le), 32))
    else if typ == SRATIONAL then SRational(SRationals(Units(data, ofs, 2 * cnt, 4, le)))
    else if typ == FLOAT then Float(Units(data, ofs, cnt, 4, le))
    else Double(Units(data, ofs, cnt, 8, le))
  }

  /**
   * `IfdEntry::parse_value`: converts a deferred triple into a real value.
   * A known type is decoded; an unknown type code stays the same triple.
   * Calling it on an already decoded value is a panic in the source,
   * hence the precondition.
   */
  function ParseValue(v: Value, data: seq<byte>, le: bool): (r: Value)
    requires DeferredInBounds(v, data)
    ensures r.Unknown? <==> UnitLen(v.typ) == 0
    ensures r.Unknown? ==> r == v
    ensures TypeCode(r) == v.typ && Count(r) == v.cnt
  {
    if UnitLen(v.typ) != 0 then Decode(v.typ, data, v.ofs, v.cnt, le) else v
  }

  /** Unit `i` of a run of units is the unit stored `i` widths past the start. */
  lemma {:induction false} UnitsAt(data: seq<byte>, pos: nat, cnt: nat, width: nat, le: bool, i: nat)
    requires width == 1 || width == 2 || width == 4 || width == 8
    requires pos + width * cnt <= |data| && i < cnt
    ensures pos + i * width + width <= |data|
    ensures Units(data, pos, cnt, width, le)[i] == LoadUnit(data, pos + i * width, width, le)
    decreases i
  {
    assert width * cnt == width + width * (cnt - 1);
    if i > 0 {
      assert i * width == width + (i - 1) * width;
      UnitsAt(data, pos + width, cnt - 1, width, le, i - 1);
    } else {
      assert width <= width * cnt;
    }
  }

  /**
   * The decoded contents of an unsigned BYTE, SHORT or LONG value: element
   * `i` is the unit of the value's width stored at `ofs + i * width`, in the
   * buffer's byte order.
   */
  lemma DecodeUnsignedAt(typ: nat, data: seq<byte>, ofs: nat, cnt: nat, le: bool, i: nat)
    requires typ == BYTE || typ == SHORT || typ == LONG
    requires ofs + UnitLen(typ) * cnt <= |data| && i < cnt
    ensures ofs + i * UnitLen(typ) + UnitLen(typ) <= |data|
    ensures GetUint(Decode(typ, data, ofs, cnt, le), i)
         == Some(LoadUnit(data, ofs + i * UnitLen(typ), UnitLen(typ), le))
  {
    var w := UnitLen(typ);
    if typ == BYTE {
      assert w == 1;
    } else {
      UnitsAt(data, ofs, cnt, w, le, i);
    }
  }

  /**
   * The decoded contents of a signed SBYTE, SSHORT or SLONG value: element
   * `i` is the two's-complement reading of the unit stored at
   * `ofs + i * width`.
   */
  lemma DecodeSignedAt(typ: nat, data: seq<byte>, ofs: nat, cnt: nat, le: bool, i: nat)
    requires typ == SBYTE || typ == SSHORT || typ == SLONG
    requires ofs + UnitLen(typ) * cnt <= |data| && i < cnt
    ensures ofs + i * UnitLen(typ) + UnitLen(typ) <= |data|
    ensures typ == SBYTE ==> Decode(typ, data, ofs, cnt, le).i8s[i] == Signed(data[ofs + i], 8)
    ensures typ == SSHORT ==> Decode(typ, data, ofs, cnt, le).i16s[i] == Signed(LoadU16(data, ofs + 2 * i, le), 16)
    ensures typ == SLONG ==> Decode(typ, data, ofs, cnt, le).i32s[i] == Signed(LoadU32(data, ofs + 4 * i, le), 32)
  {
    var w := UnitLen(typ);
    if typ == SBYTE {
      assert w == 1;
    } else {
      UnitsAt(data, ofs, cnt, w, le, i);
      assert i * w == w * i;
    }
  }

  /**
   * A child-IFD pointer as `parse_child_ifd` reads it: a single LONG decodes
   * to the 32-bit offset stored at its position.
   */
  lemma PointerOffset(data: seq<byte>, ofs: nat, le: bool)
    requires ofs + 4 <= |data|
    ensures GetUint(ParseValue(Unknown(LONG, 1, ofs), data, le), 0) == Some(LoadU32(data, ofs, le))
  {
    DecodeUnsignedAt(LONG, data, ofs, 1, le, 0);
  }

  /** `Value::get_uint`: the index-th element of an unsigned BYTE, SHORT or LONG value. */
  function GetUint(v: Value, index: nat): (r: Option<nat>)
    ensures r.Some? <==> (v.Byte? || v.Short? || v.Long?) && index < Count(v)
  {
    match v
    case Byte(s) => if index < |s| then Some(s[index] as nat) else None
    case Short(s) => if index < |s| then Some(s[index]) else None
    case Long(s) => if index < |s| then Some(s[index]) else None
    case _ => None
  }
}
