/**
 * The TIFF/Exif directory walk of `tiff.rs`, as functions over the parser's
 * state. `ParserState` holds exactly the three fields of `Parser`
 * (`entries`, `little_endian`, `continue_on_error`), with each entry's
 * still-deferred `Field`; every walk function returns the
 * `Result` the Rust method returns together with the parser's new state.
 * The class `TiffParser.Parser` is proved to compute these functions.
 */
module TiffIfd {
  import opened Wrappers
  import opened Endian
  import opened ExifError
  import opened Value

  // TIFF header magic numbers, section 4.5.2 of Exif 2.3.
  const TIFF_BE: nat := 0x4d4d
  const TIFF_LE: nat := 0x4949
  const TIFF_FORTY_TWO: nat := 0x002a
  const TIFF_BE_SIG: seq<byte> := [0x4d, 0x4d, 0x00, 0x2a]
  const TIFF_LE_SIG: seq<byte> := [0x49, 0x49, 0x2a, 0x00]

  /** The number of top-level IFDs the parser accepts (a defence against resource exhaustion). */
  const MAX_IFDS: nat := 8

  /** The namespace a tag number is read in. */
  datatype Context = Tiff | Exif | Gps | Interop

  /** Height of a context in the directory tree: a child context is strictly lower than its parent. */
  function Rank(c: Context): nat
  {
    match c
    case Tiff => 2
    case Exif => 1
    case Gps => 0
    case Interop => 0
  }

  datatype Tag = Tag(ctx: Context, number: nat)

  // The three IFD-pointer tags of section 4.6.3 of Exif 2.3.
  const EXIF_IFD_POINTER: Tag := Tag(Tiff, 0x8769)
  const GPS_INFO_IFD_POINTER: Tag := Tag(Tiff, 0x8825)
  const INTEROP_IFD_POINTER: Tag := Tag(Exif, 0xa005)

  /** The context of the child IFD a pointer tag leads to; None for every other tag. */
  function ChildContext(t: Tag): (r: Option<Context>)
    ensures r.Some? <==> t == EXIF_IFD_POINTER || t == GPS_INFO_IFD_POINTER || t == INTEROP_IFD_POINTER
    ensures r.Some? ==> Rank(r.value) < Rank(t.ctx)
  {
    if t == EXIF_IFD_POINTER then Some(Exif)
    else if t == GPS_INFO_IFD_POINTER then Some(Gps)
    else if t == INTEROP_IFD_POINTER then Some(Interop)
    else None
  }

  /** A TIFF/Exif field: its tag, the index of its top-level IFD (`In`), and its value. */
  datatype Field = Field(tag: Tag, ifdNum: nat, value: Value)

  /** The state of a `Parser`, with each entry's cell seen as the field it holds. */
  datatype ParserState = ParserState(entries: seq<Field>, littleEndian: bool, continueOnError: Option<seq<Error>>)

  /**
   * How a walk step may change the parser state: it only appends fields,
   * each carrying an IFD index in [lo, hi), a tag no higher than `ctx`
   * that is not an IFD pointer, and a deferred value inside `data`; it only
   * appends to the error log and never switches the error mode.
   */
  ghost predicate Extends(s: ParserState, t: ParserState, data: seq<byte>, lo: nat, hi: nat, ctx: Context)
  {
    && |s.entries| <= |t.entries|
    && t.entries[..|s.entries|] == s.entries
    && (forall i :: |s.entries| <= i < |t.entries| ==> NewField(t.entries[i], data, lo, hi, ctx))
    && t.littleEndian == s.littleEndian
    && (s.continueOnError.None? <==> t.continueOnError.None?)
    && (s.continueOnError.Some? ==> s.continueOnError.value <= t.continueOnError.value)
  }

  ghost predicate NewField(f: Field, data: seq<byte>, lo: nat, hi: nat, ctx: Context)
  {
    && lo <= f.ifdNum < hi
    && Rank(f.tag.ctx) <= Rank(ctx)
    && ChildContext(f.tag).None?
    && DeferredInBounds(f.value, data)
  }

  lemma ExtendsTrans(s: ParserState, t: ParserState, u: ParserState, data: seq<byte>,
                     lo: nat, hi: nat, ctx: Context)
    requires Extends(s, t, data, lo, hi, ctx) && Extends(t, u, data, lo, hi, ctx)
    ensures Extends(s, u, data, lo, hi, ctx)
  {
    assert u.entries[..|s.entries|] == u.entries[..|t.entries|][..|s.entries|];
  }

  lemma PushExtends(s: ParserState, f: Field, data: seq<byte>, lo: nat, hi: nat, ctx: Context)
    requires NewField(f, data, lo, hi, ctx)
    ensures Extends(s, s.(entries := s.entries + [f]), data, lo, hi, ctx)
  {
    assert (s.entries + [f])[..|s.entries|] == s.entries;
  }

  lemma ExtendsWeaken(s: ParserState, t: ParserState, data: seq<byte>,
                      lo: nat, hi: nat, ctx: Context, lo': nat, hi': nat, ctx': Context)
    requires Extends(s, t, data, lo, hi, ctx)
    requires lo' <= lo && hi <= hi' && Rank(ctx) <= Rank(ctx')
    ensures Extends(s, t, data, lo', hi', ctx')
  {
  }

  /** `Parser::check_error`: log the error and go on, or hand it back in strict mode. */
  function CheckError(s: ParserState, e: Error): (r: (Result<(), Error>, ParserState))
    ensures r.0.Failure? <==> s.continueOnError.None?
    ensures r.0.Failure? ==> r.0.error == e && r.1 == s
    ensures r.0.Success? ==> r.1 == s.(continueOnError := Some(s.continueOnError.value + [e]))
  {
    match s.continueOnError
    case Some(log) => (Success(()), s.(continueOnError := Some(log + [e])))
    case None => (Failure(e), s)
  }

  /**
   * `Parser::parse_ifd_entry`: decode the 12-byte entry at `offset` into its
   * tag number and a deferred value. A value of at most 4 bytes sits in the
   * entry's own last slot (position offset + 8, cast to 32 bits); a longer one
   * is at the 32-bit offset stored there and must fit inside `data`.
   */
  function ParseIfdEntry(data: seq<byte>, offset: nat, le: bool): (r: Result<(nat, Value), Error>)
    requires offset + 12 <= |data|
    ensures r.Success? ==> DeferredInBounds(r.value.1, data)
  {
    var tag := LoadU16(data, offset, le);
    var typ := LoadU16(data, offset + 2, le);
    var cnt := LoadU32(data, offset + 4, le);
    var valofsAt := offset + 8;
    var vallen := UnitLen(typ) * cnt;
    if vallen > USIZE_MAX then Failure(InvalidFormat("Invalid entry count"))
    else if vallen <= 4 then Success((tag, Unknown(typ, cnt, valofsAt % U32_LIMIT)))
    else
      var ofs := LoadU32(data, valofsAt, le);
      if |data| < ofs || |data| - ofs < vallen then Failure(InvalidFormat("Truncated field value"))
      else Success((tag, Unknown(typ, cnt, ofs)))
  }

  /** The errors that end a directory even when errors are tolerated: its layout is cut short. */
  predicate LayoutError(e: Error)
  {
    e == InvalidFormat("Truncated IFD count") || e == InvalidFormat("Truncated IFD") ||
    e == InvalidFormat("Truncated next IFD offset")
  }

  /** A walk step never changes the byte order or switches the error mode. */
  predicate SameMode(s: ParserState, t: ParserState)
  {
    t.littleEndian == s.littleEndian && (t.continueOnError.None? <==> s.continueOnError.None?)
  }

  /**
   * `Parser::parse_ifd` (section 4.6.2 of Exif 2.3): the entry count, then
   * the entries. When errors are tolerated, only a cut-short layout fails it.
   */
  function IfdSpec(data: seq<byte>, le: bool, offset: nat, ctx: Context, ifdNum: nat, s: ParserState)
    : (r: (Result<nat, Error>, ParserState))
    ensures SameMode(s, r.1)
    ensures s.continueOnError.Some? && r.0.Failure? ==> LayoutError(r.0.error)
    decreases Rank(ctx), 2, 0
  {
    if |data| < offset || |data| - offset < 2 then (Failure(InvalidFormat("Truncated IFD count")), s)
    else EntriesSpec(data, le, offset + 2, LoadU16(data, offset, le), ctx, ifdNum, s)
  }

  /**
   * The loop of `parse_ifd` with `remaining` entries still to read at
   * `offset`, followed by the 4-byte offset of the next IFD.
   */
  function EntriesSpec(data: seq<byte>, le: bool, offset: nat, remaining: nat, ctx: Context,
                       ifdNum: nat, s: ParserState)
    : (r: (Result<nat, Error>, ParserState))
    requires offset <= |data|
    ensures SameMode(s, r.1)
    ensures s.continueOnError.Some? && r.0.Failure? ==>
              r.0.error == InvalidFormat("Truncated IFD") || r.0.error == InvalidFormat("Truncated next IFD offset")
    decreases Rank(ctx), 1, remaining
  {
    if remaining == 0 then
      if |data| - offset < 4 then (Failure(InvalidFormat("Truncated next IFD offset")), s)
      else (Success(LoadU32(data, offset, le)), s)
    else if |data| - offset < 12 then (Failure(InvalidFormat("Truncated IFD")), s)
    else
      var (c, s1) := EntrySpec(data, le, offset, ctx, ifdNum, s);
      if c.Failure? then (Failure(c.error), s1)
      else EntriesSpec(data, le, offset + 12, remaining - 1, ctx, ifdNum, s1)
  }

  /**
   * One pass of that loop over the entry at `offset`: an entry that fails to
   * decode goes through check_error and is skipped; a pointer tag leads into
   * its child IFD, whose failure also goes through check_error; any other
   * entry is appended, still deferred. A failure here stops the directory.
   */
  function EntrySpec(data: seq<byte>, le: bool, offset: nat, ctx: Context, ifdNum: nat, s: ParserState)
    : (r: (Result<(), Error>, ParserState))
    requires offset + 12 <= |data|
    ensures SameMode(s, r.1)
    ensures s.continueOnError.Some? ==> r.0.Success?
    decreases Rank(ctx), 0, 0
  {
    match ParseIfdEntry(data, offset, le)
    case Failure(e) => CheckError(s, e)
    case Success((number, val)) =>
      var tag := Tag(ctx, number);
      match ChildContext(tag)
      case None => (Success(()), s.(entries := s.entries + [Field(tag, ifdNum, val)]))
      case Some(child) =>
        var (c, s1) := ChildSpec(data, le, val, child, ifdNum, s);
        if c.Failure? then CheckError(s1, c.error) else (c, s1)
  }

  /**
   * `Parser::parse_child_ifd`: decode the pointer, read one IFD at that
   * offset in the child context, and insist that it is not chained.
   */
  function ChildSpec(data: seq<byte>, le: bool, pointer: Value, ctx: Context, ifdNum: nat, s: ParserState)
    : (r: (Result<(), Error>, ParserState))
    requires DeferredInBounds(pointer, data)
    ensures SameMode(s, r.1)
    ensures s.continueOnError.Some? && r.0.Failure? ==>
              LayoutError(r.0.error) || r.0.error == InvalidFormat("Invalid pointer") ||
              r.0.error == InvalidFormat("Unexpected next IFD")
    decreases Rank(ctx), 3, 0
  {
    match GetUint(ParseValue(pointer, data, le), 0)
    case None => (Failure(InvalidFormat("Invalid pointer")), s)
    case Some(ofs) =>
      var (n, s1) := IfdSpec(data, le, ofs, ctx, ifdNum, s);
      if n.Failure? then (Failure(n.error), s1)
      else if n.value == 0 then (Success(()), s1)
      else (Failure(InvalidFormat("Unexpected next IFD")), s1)
  }

  /** `Parser::parse_body`: the chain of top-level IFDs from index `ifdNum` on. */
  function BodySpec(data: seq<byte>, le: bool, ifdOffset: nat, ifdNum: nat, s: ParserState)
    : (r: (Result<(), Error>, ParserState))
    requires ifdNum <= MAX_IFDS
    ensures SameMode(s, r.1)
    ensures s.continueOnError.Some? && r.0.Failure? ==>
              LayoutError(r.0.error) || r.0.error == InvalidFormat("Limit the IFD count to 8")
    decreases MAX_IFDS - ifdNum
  {
    if ifdOffset == 0 then (Success(()), s)
    else if ifdNum >= MAX_IFDS then (Failure(InvalidFormat("Limit the IFD count to 8")), s)
    else
      var (n, s1) := IfdSpec(data, le, ifdOffset, Tiff, ifdNum, s);
      if n.Failure? then (Failure(n.error), s1)
      else BodySpec(data, le, n.value, ifdNum + 1, s1)
  }

  /** `Parser::parse_header`: the magic 42, then the body from the first IFD offset; body errors go through check_error. */
  function HeaderSpec(data: seq<byte>, le: bool, s: ParserState): (r: (Result<(), Error>, ParserState))
    requires |data| >= 8
    ensures SameMode(s, r.1)
    ensures s.continueOnError.Some? && r.0.Failure? ==> r.0.error == InvalidFormat("Invalid forty two")
  {
    if LoadU16(data, 2, le) != TIFF_FORTY_TWO then (Failure(InvalidFormat("Invalid forty two")), s)
    else
      var (b, s1) := BodySpec(data, le, LoadU32(data, 4, le), 0, s);
      if b.Failure? then CheckError(s1, b.error) else (b, s1)
  }

  /** `Parser::parse`: the byte-order mark picks the endianness, recorded in the state. */
  function ParseSpec(data: seq<byte>, s: ParserState): (r: (Result<(), Error>, ParserState))
    ensures r.0.Success? ==> |data| >= 8 && (r.1.littleEndian <==> LoadU16(data, 0, false) == TIFF_LE)
    ensures r.1.continueOnError.None? <==> s.continueOnError.None?
    ensures s.continueOnError.Some? && r.0.Failure? ==>
              r.0.error == InvalidFormat("Truncated TIFF header") || r.0.error == InvalidFormat("Invalid TIFF byte order") ||
              r.0.error == InvalidFormat("Invalid forty two")
  {
    if |data| < 8 then (Failure(InvalidFormat("Truncated TIFF header")), s)
    else
      var bo := LoadU16(data, 0, false);
      if bo == TIFF_BE then HeaderSpec(data, false, s.(littleEndian := false))
      else if bo == TIFF_LE then HeaderSpec(data, true, s.(littleEndian := true))
      else (Failure(InvalidFormat("Invalid TIFF byte order")), s)
  }

  // The walk only appends well-formed fields: every field it pushes carries
  // the index of the top-level IFD being scanned (also for fields of child
  // IFDs), is never an IFD pointer, and holds a deferred value inside `data`.

  lemma {:induction false} IfdExtends(data: seq<byte>, le: bool, offset: nat, ctx: Context, ifdNum: nat, s: ParserState)
    decreases Rank(ctx), 2, 0
    ensures Extends(s, IfdSpec(data, le, offset, ctx, ifdNum, s).1, data, ifdNum, ifdNum + 1, ctx)
  {
    if !(|data| < offset || |data| - offset < 2) {
      EntriesExtends(data, le, offset + 2, LoadU16(data, offset, le), ctx, ifdNum, s);
    }
  }

  lemma {:induction false} EntriesExtends(data: seq<byte>, le: bool, offset: nat, remaining: nat, ctx: Context,
                                          ifdNum: nat, s: ParserState)
    requires offset <= |data|
    decreases Rank(ctx), 1, remaining
    ensures Extends(s, EntriesSpec(data, le, offset, remaining, ctx, ifdNum, s).1, data, ifdNum, ifdNum + 1, ctx)
  {
    if remaining != 0 && |data| - offset >= 12 {
      EntryExtends(data, le, offset, ctx, ifdNum, s);
      var (c, s1) := EntrySpec(data, le, offset, ctx, ifdNum, s);
      if c.Success? {
        EntriesExtends(data, le, offset + 12, remaining - 1, ctx, ifdNum, s1);
        ExtendsTrans(s, s1, EntriesSpec(data, le, offset + 12, remaining - 1, ctx, ifdNum, s1).1,
                     data, ifdNum, ifdNum + 1, ctx);
      }
    }
  }

  lemma {:induction false} EntryExtends(data: seq<byte>, le: bool, offset: nat, ctx: Context, ifdNum: nat, s: ParserState)
    requires offset + 12 <= |data|
    decreases Rank(ctx), 0, 0
    ensures Extends(s, EntrySpec(data, le, offset, ctx, ifdNum, s).1, data, ifdNum, ifdNum + 1, ctx)
  {
    match ParseIfdEntry(data, offset, le)
    case Failure(e) =>
    case Success((number, val)) =>
      var tag := Tag(ctx, number);
      match ChildContext(tag)
      case None =>
        PushExtends(s, Field(tag, ifdNum, val), data, ifdNum, ifdNum + 1, ctx);
      case Some(child) =>
        ChildExtends(data, le, val, child, ifdNum, s);
        var (c, s1) := ChildSpec(data, le, val, child, ifdNum, s);
        ExtendsWeaken(s, s1, data, ifdNum, ifdNum + 1, child, ifdNum, ifdNum + 1, ctx);
        if c.Failure? {
          ExtendsTrans(s, s1, CheckError(s1, c.error).1, data, ifdNum, ifdNum + 1, ctx);
        }
  }

  lemma {:induction false} ChildExtends(data: seq<byte>, le: bool, pointer: Value, ctx: Context, ifdNum: nat, s: ParserState)
    requires DeferredInBounds(pointer, data)
    decreases Rank(ctx), 3, 0
    ensures Extends(s, ChildSpec(data, le, pointer, ctx, ifdNum, s).1, data, ifdNum, ifdNum + 1, ctx)
  {
    match GetUint(ParseValue(pointer, data, le), 0)
    case None =>
    case Some(ofs) => IfdExtends(data, le, ofs, ctx, ifdNum, s);
  }

  lemma {:induction false} BodyExtends(data: seq<byte>, le: bool, ifdOffset: nat, ifdNum: nat, s: ParserState)
    requires ifdNum <= MAX_IFDS
    decreases MAX_IFDS - ifdNum
    ensures Extends(s, BodySpec(data, le, ifdOffset, ifdNum, s).1, data, ifdNum, MAX_IFDS, Tiff)
  {
    if ifdOffset != 0 && ifdNum < MAX_IFDS {
      IfdExtends(data, le, ifdOffset, Tiff, ifdNum, s);
      var (n, s1) := IfdSpec(data, le, ifdOffset, Tiff, ifdNum, s);
      ExtendsWeaken(s, s1, data, ifdNum, ifdNum + 1, Tiff, ifdNum, MAX_IFDS, Tiff);
      if n.Success? {
        var t := BodySpec(data, le, n.value, ifdNum + 1, s1).1;
        BodyExtends(data, le, n.value, ifdNum + 1, s1);
        ExtendsWeaken(s1, t, data, ifdNum + 1, MAX_IFDS, Tiff, ifdNum, MAX_IFDS, Tiff);
        ExtendsTrans(s, s1, t, data, ifdNum, MAX_IFDS, Tiff);
      }
    }
  }

  lemma ParseExtends(data: seq<byte>, s: ParserState)
    ensures var t := ParseSpec(data, s).1;
      Extends(s.(littleEndian := t.littleEndian), t, data, 0, MAX_IFDS, Tiff)
  {
    if |data| >= 8 {
      var bo := LoadU16(data, 0, false);
      if bo == TIFF_BE || bo == TIFF_LE {
        var le := bo == TIFF_LE;
        var s0 := s.(littleEndian := le);
        if LoadU16(data, 2, le) == TIFF_FORTY_TWO {
          BodyExtends(data, le, LoadU32(data, 4, le), 0, s0);
          var (b, s1) := BodySpec(data, le, LoadU32(data, 4, le), 0, s0);
          if b.Failure? {
            ExtendsTrans(s0, s1, CheckError(s1, b.error).1, data, 0, MAX_IFDS, Tiff);
          }
        }
      }
    }
  }

  /** A freshly constructed `Parser` (strict mode). */
  const NEW_PARSER: ParserState := ParserState([], false, None)

  /** A fresh `Parser` whose `continue_on_error` is an empty log. */
  const TOLERANT: ParserState := ParserState([], false, Some([]))

  /** Every field still holds a deferred value that lies inside `data`. */
  ghost predicate AllDeferred(fields: seq<Field>, data: seq<byte>)
  {
    forall i :: 0 <= i < |fields| ==> DeferredInBounds(fields[i].value, data)
  }

  /** Decode every deferred field (`IfdEntry::into_field` on each entry). */
  function MaterializeAll(fields: seq<Field>, data: seq<byte>, le: bool): (r: seq<Field>)
    requires AllDeferred(fields, data)
    ensures |r| == |fields|
    ensures forall i :: 0 <= i < |r| ==> r[i].tag == fields[i].tag && r[i].ifdNum == fields[i].ifdNum
    ensures forall i :: 0 <= i < |r| ==> TypeCode(r[i].value) == fields[i].value.typ
  {
    seq(|fields|, i requires 0 <= i < |fields| =>
      fields[i].(value := ParseValue(fields[i].value, data, le)))
  }

  /** `parse_exif`: a strict parse, then every collected field decoded. */
  function ParseExifSpec(data: seq<byte>): (r: Result<(seq<Field>, bool), Error>)
    ensures r.Success? ==> |data| >= 8 && (r.value.1 <==> LoadU16(data, 0, false) == TIFF_LE)
    ensures r.Success? <==> ParseSpec(data, NEW_PARSER).0.Success?
    ensures r.Success? ==> |r.value.0| == |ParseSpec(data, NEW_PARSER).1.entries|
  {
    var (res, s) := ParseSpec(data, NEW_PARSER);
    if res.Failure? then Failure(res.error)
    else
      assert AllDeferred(s.entries, data) by { ParseExtends(data, NEW_PARSER); }
      Success((MaterializeAll(s.entries, data, s.littleEndian), s.littleEndian))
  }

  /** `is_tiff`: the buffer starts with one of the two 4-byte TIFF signatures. */
  function IsTiff(buf: seq<byte>): (r: bool)
    ensures r <==> |buf| >= 4 && (buf[..4] == TIFF_BE_SIG || buf[..4] == TIFF_LE_SIG)
  {
    TIFF_BE_SIG <= buf || TIFF_LE_SIG <= buf
  }
}
