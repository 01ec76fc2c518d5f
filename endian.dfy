/**
 * Byte-level helpers shared by the TIFF and PNG readers: the byte type,
 * the platform's `usize` width, and the big- and little-endian loads of
 * `Endian::loadu16` / `loadu32` (16-, 32- and 64-bit unsigned integers).
 */
module Endian {

  type byte = b: int | 0 <= b < 256

  /** The largest `usize` on the 64-bit targets the reader is built for. */
  const USIZE_MAX: nat := 0xFFFF_FFFF_FFFF_FFFF

  const U16_LIMIT: nat := 0x1_0000
  const U32_LIMIT: nat := 0x1_0000_0000

  /** `loadu16`: two bytes at `pos`, most significant first unless `le`. */
  function LoadU16(data: seq<byte>, pos: nat, le: bool): (r: nat)
    requires pos + 2 <= |data|
    ensures r < U16_LIMIT
  {
    if le then (data[pos + 1] as int) * 0x100 + data[pos]
    else (data[pos] as int) * 0x100 + data[pos + 1]
  }

  /** `loadu32`: four bytes at `pos`, as two 16-bit halves in byte order. */
  function LoadU32(data: seq<byte>, pos: nat, le: bool): (r: nat)
    requires pos + 4 <= |data|
    ensures r < U32_LIMIT
  {
    if le then LoadU16(data, pos + 2, le) * U16_LIMIT + LoadU16(data, pos, le)
    else LoadU16(data, pos, le) * U16_LIMIT + LoadU16(data, pos + 2, le)
  }

  /** `loadu64`: eight bytes at `pos`, as two 32-bit halves in byte order. */
  function LoadU64(data: seq<byte>, pos: nat, le: bool): (r: nat)
    requires pos + 8 <= |data|
    ensures r < U32_LIMIT * U32_LIMIT
  {
    if le then LoadU32(data, pos + 4, le) * U32_LIMIT + LoadU32(data, pos, le)
    else LoadU32(data, pos, le) * U32_LIMIT + LoadU32(data, pos + 4, le)
  }

  /** The inverse of LoadU16: the two bytes that encode `v` in the given order. */
  function StoreU16(v: nat, le: bool): (r: seq<byte>)
    requires v < U16_LIMIT
    ensures |r| == 2
  {
    if le then [v % 0x100, v / 0x100] else [v / 0x100, v % 0x100]
  }

  /** The inverse of LoadU32. */
  function StoreU32(v: nat, le: bool): (r: seq<byte>)
    requires v < U32_LIMIT
    ensures |r| == 4
  {
    if le then StoreU16(v % U16_LIMIT, le) + StoreU16(v / U16_LIMIT, le)
    else StoreU16(v / U16_LIMIT, le) + StoreU16(v % U16_LIMIT, le)
  }

  lemma LoadStoreU16(v: nat, le: bool)
    requires v < U16_LIMIT
    ensures LoadU16(StoreU16(v, le), 0, le) == v
  {
  }

  lemma {:induction false} LoadStoreU32(v: nat, le: bool, prefix: seq<byte>, suffix: seq<byte>)
    requires v < U32_LIMIT
    ensures LoadU32(prefix + StoreU32(v, le) + suffix, |prefix|, le) == v
  {
    var d := prefix + StoreU32(v, le) + suffix;
    var p := |prefix|;
    var hi, lo := v / U16_LIMIT, v % U16_LIMIT;
    assert d[p..p + 4] == StoreU32(v, le);
    if le {
      assert d[p..p + 2] == StoreU16(lo, le);
      assert d[p + 2..p + 4] == StoreU16(hi, le);
    } else {
      assert d[p..p + 2] == StoreU16(hi, le);
      assert d[p + 2..p + 4] == StoreU16(lo, le);
    }
    LoadU16At(d, p, le);
    LoadU16At(d, p + 2, le);
    LoadStoreU16(hi, le);
    LoadStoreU16(lo, le);
  }

  /** A load only looks at the bytes it covers. */
  lemma LoadU16At(data: seq<byte>, pos: nat, le: bool)
    requires pos + 2 <= |data|
    ensures LoadU16(data, pos, le) == LoadU16(data[pos..pos + 2], 0, le)
  {
  }

  lemma LoadU32Prefix(data: seq<byte>, more: seq<byte>, pos: nat, le: bool)
    requires pos + 4 <= |data|
    ensures LoadU32(data + more, pos, le) == LoadU32(data, pos, le)
  {
  }
}
