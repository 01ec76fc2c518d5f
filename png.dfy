/**
 * `png.rs`: locate the payload of the `eXIf` chunk of a PNG file. The
 * reader is a byte slice that shrinks as it is read (`&mut &[u8]`), and
 * the scan is proved to compute the function `Scan` on what is left of it.
 */
module Png {
  import opened Wrappers
  import opened Endian
  import opened ExifError

  /** The PNG file signature, section 12.12 of the PNG 1.2 specification. */
  const PNG_SIG: seq<byte> := [0x89, 0x50, 0x4E, 0x47, 0x0D, 0x0A, 0x1A, 0x0A]

  /** "eXIf", the chunk type of section 3.7 of PNG Extensions 1.5.0. */
  const EXIF_CHUNK_TYPE: seq<byte> := [0x65, 0x58, 0x49, 0x66]

  const EOF: Error := Io(UnexpectedEof)

  /**
   * A byte-slice reader: `rest` is what has not been read yet. A read that
   * runs past the end fails with UnexpectedEof and leaves the slice empty,
   * as reading a slice does.
   */
  class Reader {
    var rest: seq<byte>

    constructor (data: seq<byte>)
      ensures rest == data
    {
      rest := data;
    }

    /** `is_eof`: nothing is left to read. */
    method IsEof() returns (b: bool)
      ensures b <==> |rest| == 0
    {
      b := |rest| == 0;
    }

    /** `read_exact` into an `n`-byte buffer. */
    method ReadExact(n: nat) returns (r: Result<seq<byte>, Error>)
      modifies this
      ensures n <= |old(rest)| ==> r == Success(old(rest)[..n]) && rest == old(rest)[n..]
      ensures n > |old(rest)| ==> r == Failure(EOF) && rest == []
    {
      if n <= |rest| {
        r := Success(rest[..n]);
        rest := rest[n..];
      } else {
        r := Failure(EOF);
        rest := [];
      }
    }

    /** `discard_exact`: skip `n` bytes. */
    method DiscardExact(n: nat) returns (r: Result<(), Error>)
      modifies this
      ensures n <= |old(rest)| ==> r == Success(()) && rest == old(rest)[n..]
      ensures n > |old(rest)| ==> r == Failure(EOF) && rest == []
    {
      if n <= |rest| {
        r := Success(());
        rest := rest[n..];
      } else {
        r := Failure(EOF);
        rest := [];
      }
    }
  }

  /** `t` is what is left of `s` once some of its head has been read. */
  predicate IsSuffix(t: seq<byte>, s: seq<byte>)
  {
    |t| <= |s| && t == s[|s| - |t|..]
  }

  /**
   * The chunk loop of `get_exif_attr_sub` on the input left after the
   * signature: the result and what is left of the input afterwards.
   * Each chunk header is 4 length bytes (big-endian) and 4 type bytes; an
   * `eXIf` chunk yields its `len` payload bytes, any other chunk is
   * skipped with its CRC, `len + 4` bytes.
   */
  function Scan(rest: seq<byte>): (r: (Result<seq<byte>, Error>, seq<byte>))
    ensures |r.1| <= |rest|
    ensures r.0.Success? ==> |r.0.value| + |r.1| + 8 <= |rest|
    ensures r.0 == Failure(EOF) || r.0 == Failure(NotFound("PNG")) ==> r.1 == []
    decreases |rest|
  {
    if |rest| == 0 then (Failure(NotFound("PNG")), rest)
    else if |rest| < 8 then (Failure(EOF), [])
    else
      var len := LoadU32(rest, 0, false);
      var afterHeader := rest[8..];
      if rest[4..8] == EXIF_CHUNK_TYPE then
        if |rest| - 8 < len then (Failure(EOF), [])
        else (Success(rest[8..8 + len]), rest[8 + len..])
      else if len + 4 > USIZE_MAX then (Failure(InvalidFormat("Invalid chunk length")), afterHeader)
      else if |rest| - 8 < len + 4 then (Failure(EOF), [])
      else Scan(rest[8 + len + 4..])
  }

  /** `get_exif_attr_sub` as a function of the input. */
  function ExifAttrSub(input: seq<byte>): (r: (Result<seq<byte>, Error>, seq<byte>))
    ensures |r.1| <= |input|
    ensures r.0.Success? ==> IsPng(input) && |r.0.value| + |r.1| + 16 <= |input|
  {
    if |input| < 8 then (Failure(EOF), [])
    else if input[..8] != PNG_SIG then (Failure(InvalidFormat("Not a PNG file")), input[8..])
    else Scan(input[8..])
  }

  /** `get_exif_attr` as a function of the input: end of input anywhere is a broken file. */
  function ExifAttrState(input: seq<byte>): (r: (Result<seq<byte>, Error>, seq<byte>))
    ensures r.0 != Failure(EOF)
    ensures r.0.Success? <==> ExifAttrSub(input).0.Success?
  {
    var (res, rest) := ExifAttrSub(input);
    (if res == Failure(EOF) then Failure(InvalidFormat("Broken PNG file")) else res, rest)
  }

  /** The result of `get_exif_attr` on a whole buffer. */
  function ExifAttr(input: seq<byte>): (r: Result<seq<byte>, Error>)
    ensures r.Success? ==> IsPng(input) && |r.value| + 16 <= |input|
  {
    ExifAttrState(input).0
  }

  /** What the scan leaves is the end of its input: the reader only ever drops bytes from the front. */
  lemma {:induction false} ScanLeavesSuffix(rest: seq<byte>)
    ensures IsSuffix(Scan(rest).1, rest)
    decreases |rest|
  {
    if |rest| >= 8 {
      var len := LoadU32(rest, 0, false);
      if rest[4..8] != EXIF_CHUNK_TYPE && len + 4 <= USIZE_MAX && |rest| - 8 >= len + 4 {
        var next := rest[8 + len + 4..];
        ScanLeavesSuffix(next);
        assert next[|next| - |Scan(next).1|..] == rest[|rest| - |Scan(next).1|..];
      }
    }
  }

  /**
   * One pass of the chunk loop on a non-empty input: read a chunk header,
   * then either return the `eXIf` payload, fail, or skip the chunk and its
   * CRC (`None`). A returned result and what is left are the scan's;
   * after a skip the input has shrunk and the scan of what is left is the
   * same as before.
   */
  method NextChunk(reader: Reader) returns (r: Option<Result<seq<byte>, Error>>)
    requires |reader.rest| > 0
    modifies reader
    ensures r.Some? ==> (r.value, reader.rest) == Scan(old(reader.rest))
    ensures r.None? ==> |reader.rest| < |old(reader.rest)| && Scan(reader.rest) == Scan(old(reader.rest))
  {
    ghost var chunk := reader.rest;
    var lenbuf := reader.ReadExact(4);
    if lenbuf.Failure? {
      return Some(Failure(lenbuf.error));
    }
    var len := LoadU32(lenbuf.value, 0, false);
    var ctype := reader.ReadExact(4);
    if ctype.Failure? {
      return Some(Failure(ctype.error));
    }
    assert len == LoadU32(chunk, 0, false) && ctype.value == chunk[4..8] && reader.rest == chunk[8..];
    if ctype.value == EXIF_CHUNK_TYPE {
      var payload := reader.ReadExact(len);
      assert len <= |chunk| - 8 ==> chunk[8..][..len] == chunk[8..8 + len] && chunk[8..][len..] == chunk[8 + len..];
      return Some(payload);
    }
    if len + 4 > USIZE_MAX {
      return Some(Failure(InvalidFormat("Invalid chunk length")));
    }
    var skipped := reader.DiscardExact(len + 4);
    if skipped.Failure? {
      return Some(Failure(skipped.error));
    }
    return None;
  }

  /** `get_exif_attr_sub`: check the signature, then scan the chunks. */
  method GetExifAttrSub(reader: Reader) returns (r: Result<seq<byte>, Error>)
    modifies reader
    ensures (r, reader.rest) == ExifAttrSub(old(reader.rest))
  {
    var sig := reader.ReadExact(8);
    if sig.Failure? {
      return Failure(sig.error);
    }
    if sig.value != PNG_SIG {
      return Failure(InvalidFormat("Not a PNG file"));
    }
    while true
      invariant Scan(reader.rest) == ExifAttrSub(old(reader.rest))
      decreases |reader.rest|
    {
      var eof := reader.IsEof();
      if eof {
        return Failure(NotFound("PNG"));
      }
      var step := NextChunk(reader);
      if step.Some? {
        return step.value;
      }
    }
  }

  /** `get_exif_attr`: end of input anywhere becomes "Broken PNG file". */
  method GetExifAttr(reader: Reader) returns (r: Result<seq<byte>, Error>)
    modifies reader
    ensures (r, reader.rest) == ExifAttrState(old(reader.rest))
  {
    r := GetExifAttrSub(reader);
    if r == Failure(EOF) {
      r := Failure(InvalidFormat("Broken PNG file"));
    }
  }

  /** `is_png`: the buffer starts with the signature. */
  predicate IsPng(buf: seq<byte>)
    ensures IsPng(buf) <==> PNG_SIG <= buf
  {
    |buf| >= 8 && buf[..8] == PNG_SIG
  }

  /**
   * The signature gate: fewer than 8 bytes is a broken file, 8 bytes other
   * than the signature is not a PNG file, and after the signature the
   * result is the chunk scan's, with end of input reported as broken.
   */
  lemma SignatureGate(input: seq<byte>)
    ensures |input| < 8 ==> ExifAttr(input) == Failure(InvalidFormat("Broken PNG file"))
    ensures |input| >= 8 && !IsPng(input) ==> ExifAttr(input) == Failure(InvalidFormat("Not a PNG file"))
    ensures IsPng(input) ==> ExifAttr(input) == (if Scan(input[8..]).0 == Failure(EOF)
                                                 then Failure(InvalidFormat("Broken PNG file"))
                                                 else Scan(input[8..]).0)
  {
  }

  /** After the signature, the result is the chunk scan's. */
  lemma AfterSignature(body: seq<byte>)
    ensures ExifAttrSub(PNG_SIG + body) == Scan(body)
  {
    var d := PNG_SIG + body;
    assert d[..8] == PNG_SIG;
    assert d[8..] == body;
  }

  /** A chunk as stored: its type, its payload and its CRC, which this reader never checks. */
  datatype Chunk = Chunk(ctype: seq<byte>, payload: seq<byte>, crc: seq<byte>)

  predicate WellFormed(c: Chunk)
  {
    |c.ctype| == 4 && |c.crc| == 4 && |c.payload| < U32_LIMIT
  }

  /** The bytes of a chunk: big-endian length, type, payload, CRC. */
  function EncodeChunk(c: Chunk): (r: seq<byte>)
    requires WellFormed(c)
    ensures |r| == 12 + |c.payload|
  {
    StoreU32(|c.payload|, false) + c.ctype + c.payload + c.crc
  }

  predicate AllOther(cs: seq<Chunk>)
  {
    forall i :: 0 <= i < |cs| ==> WellFormed(cs[i]) && cs[i].ctype != EXIF_CHUNK_TYPE
  }

  function EncodeChunks(cs: seq<Chunk>): (r: seq<byte>)
    requires AllOther(cs)
  {
    if |cs| == 0 then [] else EncodeChunk(cs[0]) + EncodeChunks(cs[1..])
  }

  /** The head of an `eXIf` chunk carrying `payload`: its length and type. */
  function ExifHeader(payload: seq<byte>): (r: seq<byte>)
    requires |payload| < U32_LIMIT
    ensures |r| == 8
  {
    StoreU32(|payload|, false) + EXIF_CHUNK_TYPE
  }

  /** The scan reads a chunk's length and type back from its encoding. */
  lemma ChunkHeader(len: nat, ctype: seq<byte>, rest: seq<byte>)
    requires len < U32_LIMIT && |ctype| == 4
    ensures var d := StoreU32(len, false) + ctype + rest;
      LoadU32(d, 0, false) == len && d[4..8] == ctype && d[8..] == rest
  {
    var d := StoreU32(len, false) + ctype + rest;
    LoadStoreU32(len, false, [], ctype + rest);
    assert [] + StoreU32(len, false) + (ctype + rest) == d;
  }

  /** A chunk of another type is skipped, CRC included. */
  lemma ScanSkip(c: Chunk, rest: seq<byte>)
    requires WellFormed(c) && c.ctype != EXIF_CHUNK_TYPE
    ensures Scan(EncodeChunk(c) + rest) == Scan(rest)
  {
    var d := EncodeChunk(c) + rest;
    ChunkHeader(|c.payload|, c.ctype, c.payload + c.crc + rest);
    assert d == StoreU32(|c.payload|, false) + c.ctype + (c.payload + c.crc + rest);
    assert d[8 + |c.payload| + 4..] == rest;
  }

  /** The first `eXIf` chunk yields exactly its payload; the CRC and what follows are not read. */
  lemma ScanFound(payload: seq<byte>, rest: seq<byte>)
    requires |payload| < U32_LIMIT
    ensures Scan(ExifHeader(payload) + payload + rest) == (Success(payload), rest)
  {
    var d := ExifHeader(payload) + payload + rest;
    ChunkHeader(|payload|, EXIF_CHUNK_TYPE, payload + rest);
    assert d == StoreU32(|payload|, false) + EXIF_CHUNK_TYPE + (payload + rest);
    assert d[8..8 + |payload|] == payload;
    assert d[8 + |payload|..] == rest;
  }

  /** Chunks of other types are all skipped. */
  lemma {:induction false} ScanSkipAll(cs: seq<Chunk>, rest: seq<byte>)
    requires AllOther(cs)
    ensures Scan(EncodeChunks(cs) + rest) == Scan(rest)
    decreases |cs|
  {
    if |cs| > 0 {
      assert EncodeChunks(cs) + rest == EncodeChunk(cs[0]) + (EncodeChunks(cs[1..]) + rest);
      ScanSkip(cs[0], EncodeChunks(cs[1..]) + rest);
      ScanSkipAll(cs[1..], rest);
    } else {
      assert EncodeChunks(cs) + rest == rest;
    }
  }

  /**
   * Round trip: a PNG whose chunks before the first `eXIf` chunk are of
   * other types yields that chunk's payload, whatever follows it.
   */
  lemma ExifAttrFound(cs: seq<Chunk>, payload: seq<byte>, tail: seq<byte>)
    requires AllOther(cs) && |payload| < U32_LIMIT
    ensures ExifAttrState(PNG_SIG + EncodeChunks(cs) + ExifHeader(payload) + payload + tail)
         == (Success(payload), tail)
  {
    var body := EncodeChunks(cs) + (ExifHeader(payload) + payload + tail);
    assert PNG_SIG + EncodeChunks(cs) + ExifHeader(payload) + payload + tail == PNG_SIG + body;
    AfterSignature(body);
    ScanSkipAll(cs, ExifHeader(payload) + payload + tail);
    ScanFound(payload, tail);
  }

  /** Input that ends at a chunk boundary, with no `eXIf` chunk, has no Exif data. */
  lemma ExifAttrNotFound(cs: seq<Chunk>)
    requires AllOther(cs)
    ensures ExifAttrState(PNG_SIG + EncodeChunks(cs)) == (Failure(NotFound("PNG")), [])
  {
    AfterSignature(EncodeChunks(cs));
    assert EncodeChunks(cs) == EncodeChunks(cs) + [];
    ScanSkipAll(cs, []);
  }

  /**
   * Input that ends inside a chunk fails with end of input: in its
   * header, or before the end of its payload and CRC.
   */
  lemma ScanCutChunk(c: Chunk, k: nat)
    requires WellFormed(c) && c.ctype != EXIF_CHUNK_TYPE && 0 < k < |EncodeChunk(c)|
    ensures Scan(EncodeChunk(c)[..k]) == (Failure(EOF), [])
  {
    if k >= 8 {
      var e := EncodeChunk(c);
      ChunkHeader(|c.payload|, c.ctype, c.payload + c.crc);
      assert e == StoreU32(|c.payload|, false) + c.ctype + (c.payload + c.crc);
      assert LoadU32(e[..k], 0, false) == LoadU32(e, 0, false) by {
        assert e == e[..k] + e[k..];
        LoadU32Prefix(e[..k], e[k..], 0, false);
      }
      var cut := e[..k];
      assert cut[4..8] == e[4..8] by {
        assert forall i :: 4 <= i < 8 ==> cut[i] == e[i];
      }
    }
  }

  /** An `eXIf` chunk without its CRC: header and payload. */
  function ExifChunk(payload: seq<byte>): (r: seq<byte>)
    requires |payload| < U32_LIMIT
    ensures |r| == 8 + |payload|
  {
    ExifHeader(payload) + payload
  }

  /** The same for the `eXIf` chunk: cut anywhere before the end of its payload, the scan fails. */
  lemma ScanCutExif(payload: seq<byte>, k: nat)
    requires |payload| < U32_LIMIT && 0 < k < 8 + |payload|
    ensures Scan(ExifChunk(payload)[..k]) == (Failure(EOF), [])
  {
    if k >= 8 {
      var e := ExifChunk(payload);
      ChunkHeader(|payload|, EXIF_CHUNK_TYPE, payload);
      assert e == StoreU32(|payload|, false) + EXIF_CHUNK_TYPE + payload;
      assert LoadU32(e[..k], 0, false) == LoadU32(e, 0, false) by {
        assert e == e[..k] + e[k..];
        LoadU32Prefix(e[..k], e[k..], 0, false);
      }
      var cut := e[..k];
      assert cut[4..8] == e[4..8] by {
        assert forall i :: 4 <= i < 8 ==> cut[i] == e[i];
      }
    }
  }

  /** `k` is the end of one of the chunks `cs`, or their start. */
  predicate ChunkBoundary(cs: seq<Chunk>, k: nat)
    requires AllOther(cs)
  {
    if |cs| == 0 then k == 0
    else k == 0 || (k >= |EncodeChunk(cs[0])| && ChunkBoundary(cs[1..], k - |EncodeChunk(cs[0])|))
  }

  /** Every proper prefix of chunks followed by an `eXIf` chunk fails: at a boundary with NotFound, else with end of input. */
  lemma {:induction false} ScanPrefixFails(cs: seq<Chunk>, payload: seq<byte>, k: nat)
    requires AllOther(cs) && |payload| < U32_LIMIT
    requires k < |EncodeChunks(cs) + ExifChunk(payload)|
    ensures Scan((EncodeChunks(cs) + ExifChunk(payload))[..k]).0
         == if ChunkBoundary(cs, k) then Failure(NotFound("PNG")) else Failure(EOF)
    decreases |cs|
  {
    var tail := ExifChunk(payload);
    var d := EncodeChunks(cs) + tail;
    if k == 0 {
    } else if |cs| == 0 {
      assert d == tail;
      ScanCutExif(payload, k);
    } else {
      var e := EncodeChunk(cs[0]);
      var more := EncodeChunks(cs[1..]) + tail;
      assert d == e + more;
      if k < |e| {
        ScanCutFront(cs[0], more, k);
      } else {
        ScanAfterChunk(cs[0], more, k);
        ScanPrefixFails(cs[1..], payload, k - |e|);
      }
    }
  }

  /** Input cut inside its first chunk fails with end of input, whatever would have followed. */
  lemma ScanCutFront(c: Chunk, more: seq<byte>, k: nat)
    requires WellFormed(c) && c.ctype != EXIF_CHUNK_TYPE && 0 < k < |EncodeChunk(c)|
    ensures Scan((EncodeChunk(c) + more)[..k]) == (Failure(EOF), [])
  {
    var e := EncodeChunk(c);
    assert (e + more)[..k] == e[..k];
    ScanCutChunk(c, k);
  }

  /** Input cut after its first chunk scans as what is left of it after that chunk. */
  lemma ScanAfterChunk(c: Chunk, more: seq<byte>, k: nat)
    requires WellFormed(c) && c.ctype != EXIF_CHUNK_TYPE
    requires |EncodeChunk(c)| <= k <= |EncodeChunk(c)| + |more|
    ensures Scan((EncodeChunk(c) + more)[..k]) == Scan(more[..k - |EncodeChunk(c)|])
  {
    var e := EncodeChunk(c);
    ScanPrefixStep(e, more, k);
    ScanSkip(c, more[..k - |e|]);
  }

  lemma ScanPrefixStep(e: seq<byte>, more: seq<byte>, k: nat)
    requires |e| <= k <= |e| + |more|
    ensures (e + more)[..k] == e + more[..k - |e|]
  {
  }

  /**
   * Every proper prefix of a PNG with an `eXIf` chunk (without its CRC)
   * fails: cut at the end of the signature or of a chunk before the
   * `eXIf` one, with NotFound; cut anywhere else, as a broken file.
   */
  lemma ExifAttrPrefixFails(cs: seq<Chunk>, payload: seq<byte>, k: nat)
    requires AllOther(cs) && |payload| < U32_LIMIT
    requires k < |PNG_SIG + EncodeChunks(cs) + ExifChunk(payload)|
    ensures ExifAttr((PNG_SIG + EncodeChunks(cs) + ExifChunk(payload))[..k])
         == if k >= 8 && ChunkBoundary(cs, k - 8) then Failure(NotFound("PNG"))
            else Failure(InvalidFormat("Broken PNG file"))
  {
    var body := EncodeChunks(cs) + ExifChunk(payload);
    assert PNG_SIG + EncodeChunks(cs) + ExifChunk(payload) == PNG_SIG + body;
    SignaturePrefix(body, k);
    if k >= 8 {
      ScanPrefixFails(cs, payload, k - 8);
    }
  }

  /** A prefix of a PNG: the signature cut short is a broken file, and after it the scan of the cut body decides. */
  lemma SignaturePrefix(body: seq<byte>, k: nat)
    requires k <= 8 + |body|
    ensures k < 8 ==> ExifAttr((PNG_SIG + body)[..k]) == Failure(InvalidFormat("Broken PNG file"))
    ensures k >= 8 ==> ExifAttr((PNG_SIG + body)[..k])
                       == if Scan(body[..k - 8]).0 == Failure(EOF) then Failure(InvalidFormat("Broken PNG file"))
                          else Scan(body[..k - 8]).0
  {
    if k >= 8 {
      ScanPrefixStep(PNG_SIG, body, k);
      AfterSignature(body[..k - 8]);
    }
  }

  /**
   * The "Invalid chunk length" branch is unreachable when `usize` has 64
   * bits: a 32-bit length plus 4 never overflows.
   */
  lemma {:induction false} ScanNoLengthOverflow(rest: seq<byte>)
    ensures Scan(rest).0 != Failure(InvalidFormat("Invalid chunk length"))
    decreases |rest|
  {
    if |rest| >= 8 {
      var len := LoadU32(rest, 0, false);
      assert len + 4 <= USIZE_MAX;
      if rest[4..8] != EXIF_CHUNK_TYPE && |rest| - 8 >= len + 4 {
        ScanNoLengthOverflow(rest[8 + len + 4..]);
      }
    }
  }

  /**
   * The three ways `get_exif_attr` can fail: a broken file, a file that is
   * not a PNG, and a PNG without an `eXIf` chunk.
   */
  lemma ExifAttrErrors(input: seq<byte>)
    ensures ExifAttr(input).Failure? ==>
      ExifAttr(input).error in {InvalidFormat("Broken PNG file"), InvalidFormat("Not a PNG file"), NotFound("PNG")}
  {
    if |input| >= 8 && input[..8] == PNG_SIG {
      ScanNoLengthOverflow(input[8..]);
      ScanErrors(input[8..]);
    }
  }

  /** The chunk scan fails only with end of input, NotFound, or the length overflow. */
  lemma {:induction false} ScanErrors(rest: seq<byte>)
    ensures Scan(rest).0.Failure? ==>
      Scan(rest).0.error in {EOF, NotFound("PNG"), InvalidFormat("Invalid chunk length")}
    decreases |rest|
  {
    if |rest| >= 8 {
      var len := LoadU32(rest, 0, false);
      if rest[4..8] != EXIF_CHUNK_TYPE && len + 4 <= USIZE_MAX && |rest| - 8 >= len + 4 {
        ScanErrors(rest[8 + len + 4..]);
      }
    }
  }

  /** The unit test `truncated`: "", "\x89" and seven signature bytes are broken files. */
  lemma TruncatedExamples()
    ensures ExifAttr([]) == Failure(InvalidFormat("Broken PNG file"))
    ensures ExifAttr([0x89]) == Failure(InvalidFormat("Broken PNG file"))
    ensures ExifAttr(PNG_SIG[..7]) == Failure(InvalidFormat("Broken PNG file"))
  {
  }

  /** The unit test `truncated`: signature + `eXIf` chunk "Exif" with no CRC; of its prefixes, only the bare signature is a PNG without Exif. */
  lemma TruncatedFull(k: nat)
    requires k < 20
    ensures ExifAttr(PNG_SIG + ExifChunk([0x45, 0x78, 0x69, 0x66])) == Success([0x45, 0x78, 0x69, 0x66])
    ensures ExifAttr((PNG_SIG + ExifChunk([0x45, 0x78, 0x69, 0x66]))[..k])
         == if k == 8 then Failure(NotFound("PNG")) else Failure(InvalidFormat("Broken PNG file"))
  {
    var p: seq<byte> := [0x45, 0x78, 0x69, 0x66];
    assert PNG_SIG + EncodeChunks([]) + ExifHeader(p) + p + [] == PNG_SIG + ExifChunk(p);
    ExifAttrFound([], p, []);
    assert PNG_SIG + EncodeChunks([]) + ExifChunk(p) == PNG_SIG + ExifChunk(p);
    ExifAttrPrefixFails([], p, k);
  }

  /** The unit test `no_exif`: the signature alone. */
  lemma NoExifExample()
    ensures ExifAttr(PNG_SIG) == Failure(NotFound("PNG"))
  {
    assert PNG_SIG + EncodeChunks([]) == PNG_SIG;
    ExifAttrNotFound([]);
  }

  /** The unit test `empty`: a payload of 0 bytes, followed by "CRC_". */
  lemma EmptyPayloadExample()
    ensures ExifAttr(PNG_SIG + ExifHeader([]) + [0x43, 0x52, 0x43, 0x5f]) == Success([])
  {
    var crc: seq<byte> := [0x43, 0x52, 0x43, 0x5f];
    ExifAttrFound([], [], crc);
    assert PNG_SIG + EncodeChunks([]) + ExifHeader([]) + [] + crc == PNG_SIG + ExifHeader([]) + crc;
  }

  /** The unit test `non_empty`: a payload of 2 bytes, followed by "CRC_". */
  lemma NonEmptyPayloadExample()
    ensures ExifAttr(PNG_SIG + ExifHeader([0xbe, 0xad]) + [0xbe, 0xad, 0x43, 0x52, 0x43, 0x5f])
         == Success([0xbe, 0xad])
  {
    var crc: seq<byte> := [0x43, 0x52, 0x43, 0x5f];
    ExifAttrFound([], [0xbe, 0xad], crc);
    assert PNG_SIG + EncodeChunks([]) + ExifHeader([0xbe, 0xad]) + [0xbe, 0xad] + crc
        == PNG_SIG + ExifHeader([0xbe, 0xad]) + [0xbe, 0xad, 0x43, 0x52, 0x43, 0x5f];
  }
}
