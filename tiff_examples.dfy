/**
 * Concrete runs of the TIFF/Exif walk on the byte strings of the unit tests
 * at the end of `tiff.rs`, proved step by step.
 */
module TiffExamples {
  import opened Wrappers
  import opened Endian
  import opened ExifError
  import opened Value
  import opened TiffIfd

  // One unfolding of each walk function, for replaying a run on concrete bytes.

  lemma ParseStep(data: seq<byte>, le: bool, s: ParserState)
    requires |data| >= 8 && LoadU16(data, 0, false) == (if le then TIFF_LE else TIFF_BE)
    requires LoadU16(data, 2, le) == TIFF_FORTY_TWO
    ensures var (b, s1) := BodySpec(data, le, LoadU32(data, 4, le), 0, s.(littleEndian := le));
      ParseSpec(data, s) == (if b.Failure? then CheckError(s1, b.error) else (b, s1))
  {
  }

  lemma BodyStep(data: seq<byte>, le: bool, ifdOffset: nat, ifdNum: nat, s: ParserState)
    requires ifdOffset != 0 && ifdNum < MAX_IFDS
    ensures var (n, s1) := IfdSpec(data, le, ifdOffset, Tiff, ifdNum, s);
      BodySpec(data, le, ifdOffset, ifdNum, s)
        == (if n.Failure? then (Failure(n.error), s1) else BodySpec(data, le, n.value, ifdNum + 1, s1))
  {
  }

  lemma IfdStep(data: seq<byte>, le: bool, offset: nat, ctx: Context, ifdNum: nat, s: ParserState)
    requires offset + 2 <= |data|
    ensures IfdSpec(data, le, offset, ctx, ifdNum, s)
         == EntriesSpec(data, le, offset + 2, LoadU16(data, offset, le), ctx, ifdNum, s)
  {
  }

  lemma EntriesStep(data: seq<byte>, le: bool, offset: nat, remaining: nat, ctx: Context, ifdNum: nat,
                    s: ParserState, c: Result<(), Error>, s1: ParserState)
    requires remaining > 0 && offset + 12 <= |data|
    requires EntrySpec(data, le, offset, ctx, ifdNum, s) == (c, s1)
    ensures EntriesSpec(data, le, offset, remaining, ctx, ifdNum, s)
         == (if c.Failure? then (Failure(c.error), s1)
             else EntriesSpec(data, le, offset + 12, remaining - 1, ctx, ifdNum, s1))
  {
  }

  lemma EntriesEnd(data: seq<byte>, le: bool, offset: nat, ctx: Context, ifdNum: nat, s: ParserState)
    requires offset + 4 <= |data|
    ensures EntriesSpec(data, le, offset, 0, ctx, ifdNum, s) == (Success(LoadU32(data, offset, le)), s)
  {
  }

  lemma EntryPush(data: seq<byte>, le: bool, offset: nat, ctx: Context, ifdNum: nat, s: ParserState,
                  number: nat, val: Value)
    requires offset + 12 <= |data|
    requires ParseIfdEntry(data, offset, le) == Success((number, val))
    requires ChildContext(Tag(ctx, number)).None?
    ensures EntrySpec(data, le, offset, ctx, ifdNum, s)
         == (Success(()), s.(entries := s.entries + [Field(Tag(ctx, number), ifdNum, val)]))
  {
  }

  lemma EntryChild(data: seq<byte>, le: bool, offset: nat, ctx: Context, ifdNum: nat, s: ParserState,
                   number: nat, val: Value, child: Context)
    requires offset + 12 <= |data|
    requires ParseIfdEntry(data, offset, le) == Success((number, val))
    requires ChildContext(Tag(ctx, number)) == Some(child)
    ensures var (c, s1) := ChildSpec(data, le, val, child, ifdNum, s);
      EntrySpec(data, le, offset, ctx, ifdNum, s) == (if c.Failure? then CheckError(s1, c.error) else (c, s1))
  {
  }

  lemma ChildStep(data: seq<byte>, le: bool, pointer: Value, ctx: Context, ifdNum: nat, s: ParserState, ofs: nat)
    requires DeferredInBounds(pointer, data)
    requires GetUint(ParseValue(pointer, data, le), 0) == Some(ofs)
    ensures var (n, s1) := IfdSpec(data, le, ofs, ctx, ifdNum, s);
      ChildSpec(data, le, pointer, ctx, ifdNum, s)
        == (if n.Failure? then (Failure(n.error), s1)
            else if n.value == 0 then (Success(()), s1)
            else (Failure(InvalidFormat("Unexpected next IFD")), s1))
  {
  }

  /** A big-endian TIFF with one IFD holding ImageWidth = SHORT 20 and no next IFD. */
  const MINIMAL: seq<byte> :=
    [0x4d, 0x4d, 0x00, 0x2a, 0x00, 0x00, 0x00, 0x08,
     0x00, 0x01, 0x01, 0x00, 0x00, 0x03, 0x00, 0x00, 0x00, 0x01, 0x00, 0x14, 0x00, 0x00,
     0x00, 0x00, 0x00, 0x00]

  /** The entry of MINIMAL, still deferred. */
  const WIDTH_ENTRY: Field := Field(Tag(Tiff, 0x100), 0, Unknown(SHORT, 1, 18))

  /** The big-endian header shared by every test buffer: "MM", 42, first IFD at 8. */
  predicate HeaderAt8(d: seq<byte>)
  {
    && |d| >= 8
    && d[0] == 0x4d && d[1] == 0x4d && d[2] == 0 && d[3] == 0x2a
    && d[4] == 0 && d[5] == 0 && d[6] == 0 && d[7] == 8
  }

  lemma HeaderBytes(d: seq<byte>)
    requires HeaderAt8(d)
    ensures LoadU16(d, 0, false) == TIFF_BE && LoadU16(d, 2, false) == TIFF_FORTY_TWO
    ensures LoadU32(d, 4, false) == 8
  {
  }

  lemma MinimalHeader()
    ensures HeaderAt8(MINIMAL)
  {
  }

  lemma MinimalIfd()
    ensures LoadU16(MINIMAL, 8, false) == 1 && LoadU32(MINIMAL, 22, false) == 0
  {
  }

  lemma MinimalEntry()
    ensures ParseIfdEntry(MINIMAL, 10, false) == Success((0x100, Unknown(SHORT, 1, 18)))
  {
  }

  /** A prefix keeps the header. */
  lemma HeaderPrefix(d: seq<byte>, k: nat)
    requires HeaderAt8(d) && 8 <= k <= |d|
    ensures HeaderAt8(d[..k])
  {
  }

  /**
   * An entry whose value sits in the entry itself decodes the same in any
   * buffer holding the same 12 bytes at the same offset.
   */
  lemma InlineEntrySame(d: seq<byte>, e: seq<byte>, offset: nat, number: nat, typ: nat, cnt: nat)
    requires offset + 12 <= |d| && offset + 12 <= |e|
    requires forall i :: offset <= i < offset + 12 ==> d[i] == e[i]
    requires ParseIfdEntry(d, offset, false) == Success((number, Unknown(typ, cnt, (offset + 8) % U32_LIMIT)))
    requires UnitLen(typ) * cnt <= 4
    ensures ParseIfdEntry(e, offset, false) == ParseIfdEntry(d, offset, false)
  {
  }

  lemma MinimalWalk()
    ensures ParseSpec(MINIMAL, NEW_PARSER) == (Success(()), NEW_PARSER.(entries := [WIDTH_ENTRY]))
  {
    var d := MINIMAL;
    var s1 := NEW_PARSER.(entries := [WIDTH_ENTRY]);
    MinimalHeader();
    MinimalIfd();
    MinimalEntry();
    HeaderBytes(d);
    EntryPush(d, false, 10, Tiff, 0, NEW_PARSER, 0x100, Unknown(SHORT, 1, 18));
    assert NEW_PARSER.entries + [WIDTH_ENTRY] == [WIDTH_ENTRY];
    EntriesStep(d, false, 10, 1, Tiff, 0, NEW_PARSER, Success(()), s1);
    EntriesEnd(d, false, 22, Tiff, 0, s1);
    IfdStep(d, false, 8, Tiff, 0, NEW_PARSER);
    BodyStep(d, false, 8, 0, NEW_PARSER);
    ParseStep(d, false, NEW_PARSER);
  }

  lemma MinimalWidth()
    ensures ParseValue(WIDTH_ENTRY.value, MINIMAL, false) == Short([20])
  {
    assert Units(MINIMAL, 18, 1, 2, false) == [20];
  }

  /** `parse_exif` on MINIMAL: one primary-image field, ImageWidth = 20, big-endian. */
  lemma Minimal()
    ensures ParseExifSpec(MINIMAL) == Success(([Field(Tag(Tiff, 0x100), 0, Short([20]))], false))
  {
    MinimalWalk();
    MinimalWidth();
    assert MaterializeAll([WIDTH_ENTRY], MINIMAL, false) == [Field(Tag(Tiff, 0x100), 0, Short([20]))];
  }

  /** Past a good header, a strict parse fails as soon as the first IFD does. */
  lemma FirstIfdFails(d: seq<byte>)
    requires HeaderAt8(d) && IfdSpec(d, false, 8, Tiff, 0, NEW_PARSER).0.Failure?
    ensures ParseExifSpec(d).Failure?
  {
    HeaderBytes(d);
    IfdExtends(d, false, 8, Tiff, 0, NEW_PARSER);
    BodyStep(d, false, 8, 0, NEW_PARSER);
    ParseStep(d, false, NEW_PARSER);
  }

  /** Test `truncated`: every proper prefix of MINIMAL is rejected. */
  lemma Truncated(k: nat)
    requires k < |MINIMAL|
    ensures ParseExifSpec(MINIMAL[..k]).Failure?
  {
    var d := MINIMAL[..k];
    if k >= 8 {
      MinimalHeader();
      HeaderPrefix(MINIMAL, k);
      if 10 <= k < 22 {
        assert d[8] == 0 && d[9] == 1;
        IfdStep(d, false, 8, Tiff, 0, NEW_PARSER);
      } else if k >= 22 {
        TruncatedIfd(k);
      }
      FirstIfdFails(d);
    }
  }

  /** A prefix that keeps the entry of MINIMAL loses (part of) the next-IFD offset. */
  lemma TruncatedIfd(k: nat)
    requires 22 <= k < |MINIMAL|
    ensures IfdSpec(MINIMAL[..k], false, 8, Tiff, 0, NEW_PARSER).0.Failure?
  {
    var d := MINIMAL[..k];
    var s1 := NEW_PARSER.(entries := [WIDTH_ENTRY]);
    assert d[8] == 0 && d[9] == 1;
    MinimalEntry();
    InlineEntrySame(MINIMAL, d, 10, 0x100, SHORT, 1);
    EntryPush(d, false, 10, Tiff, 0, NEW_PARSER, 0x100, Unknown(SHORT, 1, 18));
    assert NEW_PARSER.entries + [WIDTH_ENTRY] == [WIDTH_ENTRY];
    EntriesStep(d, false, 10, 1, Tiff, 0, NEW_PARSER, Success(()), s1);
    IfdStep(d, false, 8, Tiff, 0, NEW_PARSER);
  }

  /** Test `unknown_field`: an entry of type 0xffff is kept as its raw triple. */
  const UNKNOWN_TYPE: seq<byte> :=
    [0x4d, 0x4d, 0x00, 0x2a, 0x00, 0x00, 0x00, 0x08,
     0x00, 0x01, 0x01, 0x00, 0xff, 0xff, 0x00, 0x00, 0x00, 0x01, 0x00, 0x14, 0x00, 0x00,
     0x00, 0x00, 0x00, 0x00]

  lemma UnknownTypeHeader()
    ensures HeaderAt8(UNKNOWN_TYPE)
  {
  }

  lemma UnknownTypeIfd()
    ensures LoadU16(UNKNOWN_TYPE, 8, false) == 1 && LoadU32(UNKNOWN_TYPE, 22, false) == 0
  {
  }

  lemma UnknownTypeEntry()
    ensures ParseIfdEntry(UNKNOWN_TYPE, 10, false) == Success((0x100, Unknown(0xffff, 1, 0x12)))
  {
  }

  lemma UnknownField()
    ensures ParseExifSpec(UNKNOWN_TYPE) == Success(([Field(Tag(Tiff, 0x100), 0, Unknown(0xffff, 1, 0x12))], false))
  {
    var d := UNKNOWN_TYPE;
    var f := Field(Tag(Tiff, 0x100), 0, Unknown(0xffff, 1, 0x12));
    var s1 := NEW_PARSER.(entries := [f]);
    UnknownTypeHeader();
    UnknownTypeIfd();
    UnknownTypeEntry();
    HeaderBytes(d);
    EntryPush(d, false, 10, Tiff, 0, NEW_PARSER, 0x100, Unknown(0xffff, 1, 0x12));
    assert NEW_PARSER.entries + [f] == [f];
    EntriesStep(d, false, 10, 1, Tiff, 0, NEW_PARSER, Success(()), s1);
    EntriesEnd(d, false, 22, Tiff, 0, s1);
    IfdStep(d, false, 8, Tiff, 0, NEW_PARSER);
    BodyStep(d, false, 8, 0, NEW_PARSER);
    ParseStep(d, false, NEW_PARSER);
    assert MaterializeAll([f], d, false) == [f];
  }

  /** Test `inf_loop_by_next`: the only IFD names itself as the next one. */
  const SELF_LOOP: seq<byte> :=
    [0x4d, 0x4d, 0x00, 0x2a, 0x00, 0x00, 0x00, 0x08,
     0x00, 0x01, 0x01, 0x00, 0x00, 0x03, 0x00, 0x00, 0x00, 0x01, 0x00, 0x14, 0x00, 0x00,
     0x00, 0x00, 0x00, 0x08]

  lemma SelfLoopHeader()
    ensures HeaderAt8(SELF_LOOP)
  {
  }

  lemma SelfLoopIfdBytes()
    ensures LoadU16(SELF_LOOP, 8, false) == 1 && LoadU32(SELF_LOOP, 22, false) == 8
  {
  }

  lemma SelfLoopEntry()
    ensures ParseIfdEntry(SELF_LOOP, 10, false) == Success((0x100, Unknown(SHORT, 1, 18)))
  {
  }

  /** Each pass over the self-linked IFD records ImageWidth again, under the next IFD index. */
  lemma SelfLoopIfd(n: nat, s: ParserState)
    ensures IfdSpec(SELF_LOOP, false, 8, Tiff, n, s)
         == (Success(8), s.(entries := s.entries + [Field(Tag(Tiff, 0x100), n, Unknown(SHORT, 1, 18))]))
  {
    var d := SELF_LOOP;
    var s1 := s.(entries := s.entries + [Field(Tag(Tiff, 0x100), n, Unknown(SHORT, 1, 18))]);
    SelfLoopIfdBytes();
    SelfLoopEntry();
    EntryPush(d, false, 10, Tiff, n, s, 0x100, Unknown(SHORT, 1, 18));
    EntriesStep(d, false, 10, 1, Tiff, n, s, Success(()), s1);
    EntriesEnd(d, false, 22, Tiff, n, s1);
    IfdStep(d, false, 8, Tiff, n, s);
  }

  /** A buffer whose IFD at 8 always names itself as the next one hits the cap of 8 IFDs. */
  lemma {:induction false} SelfLoopBody(d: seq<byte>, n: nat, s: ParserState)
    requires n <= MAX_IFDS
    requires forall m: nat, t: ParserState :: IfdSpec(d, false, 8, Tiff, m, t).0 == Success(8)
    decreases MAX_IFDS - n
    ensures BodySpec(d, false, 8, n, s).0 == Failure(InvalidFormat("Limit the IFD count to 8"))
  {
    if n < MAX_IFDS {
      BodyStep(d, false, 8, n, s);
      SelfLoopBody(d, n + 1, IfdSpec(d, false, 8, Tiff, n, s).1);
    }
  }

  lemma InfLoopByNext()
    ensures ParseExifSpec(SELF_LOOP) == Failure(InvalidFormat("Limit the IFD count to 8"))
  {
    SelfLoopHeader();
    HeaderBytes(SELF_LOOP);
    forall m: nat, t: ParserState
      ensures IfdSpec(SELF_LOOP, false, 8, Tiff, m, t).0 == Success(8)
    {
      SelfLoopIfd(m, t);
    }
    SelfLoopBody(SELF_LOOP, 0, NEW_PARSER);
    BodyExtends(SELF_LOOP, false, 8, 0, NEW_PARSER);
    ParseStep(SELF_LOOP, false, NEW_PARSER);
  }

  /** Test `inf_loop_by_exif_next`: the Exif IFD is chained to another IFD. */
  const EXIF_CHAINED: seq<byte> := EXIF_CHAINED_TOP + EXIF_CHAINED_CHILD

  /** The header and the 0th IFD: a single ExifIFDPointer to offset 26. */
  const EXIF_CHAINED_TOP: seq<byte> :=
    [0x4d, 0x4d, 0x00, 0x2a, 0x00, 0x00, 0x00, 0x08,
     0x00, 0x01, 0x87, 0x69, 0x00, 0x04, 0x00, 0x00, 0x00, 0x01, 0x00, 0x00, 0x00, 0x1a,
     0x00, 0x00, 0x00, 0x00]

  /** The Exif IFD at 26: ExifVersion "0231", then a next-IFD offset of 8. */
  const EXIF_CHAINED_CHILD: seq<byte> :=
    [0x00, 0x01, 0x90, 0x00, 0x00, 0x07, 0x00, 0x00, 0x00, 0x04, 0x30, 0x32, 0x33, 0x31,
     0x00, 0x00, 0x00, 0x08]

  lemma ExifChainedHeader()
    ensures HeaderAt8(EXIF_CHAINED)
  {
    assert EXIF_CHAINED[..26] == EXIF_CHAINED_TOP;
    assert HeaderAt8(EXIF_CHAINED_TOP);
  }

  lemma ExifChainedTopBytes()
    ensures LoadU16(EXIF_CHAINED_TOP, 8, false) == 1
    ensures ParseIfdEntry(EXIF_CHAINED_TOP, 10, false) == Success((0x8769, Unknown(LONG, 1, 18)))
    ensures LoadU32(EXIF_CHAINED_TOP, 18, false) == 26
  {
  }

  lemma ExifChainedTop()
    ensures LoadU16(EXIF_CHAINED, 8, false) == 1
    ensures ParseIfdEntry(EXIF_CHAINED, 10, false) == Success((0x8769, Unknown(LONG, 1, 18)))
    ensures LoadU32(EXIF_CHAINED, 18, false) == 26
  {
    var d := EXIF_CHAINED;
    ExifChainedTopBytes();
    assert d[..26] == EXIF_CHAINED_TOP;
    assert forall i :: 0 <= i < 26 ==> d[i] == EXIF_CHAINED_TOP[i];
    InlineEntrySame(EXIF_CHAINED_TOP, d, 10, 0x8769, LONG, 1);
  }

  lemma ExifChainedPointer()
    ensures GetUint(ParseValue(Unknown(LONG, 1, 18), EXIF_CHAINED, false), 0) == Some(26)
  {
    ExifChainedTop();
    assert Units(EXIF_CHAINED, 18, 1, 4, false) == [26];
  }

  lemma ExifChainedChildIfd()
    ensures LoadU16(EXIF_CHAINED, 26, false) == 1 && LoadU32(EXIF_CHAINED, 40, false) == 8
  {
  }

  lemma ExifChainedChildEntry()
    ensures ParseIfdEntry(EXIF_CHAINED, 28, false) == Success((0x9000, Unknown(UNDEFINED, 4, 36)))
  {
  }

  /** The Exif IFD of EXIF_CHAINED: ExifVersion, then a next-IFD offset of 8. */
  lemma ExifChainedChild(s: ParserState)
    ensures IfdSpec(EXIF_CHAINED, false, 26, Exif, 0, s)
         == (Success(8), s.(entries := s.entries + [Field(Tag(Exif, 0x9000), 0, Unknown(UNDEFINED, 4, 36))]))
  {
    var d := EXIF_CHAINED;
    var s1 := s.(entries := s.entries + [Field(Tag(Exif, 0x9000), 0, Unknown(UNDEFINED, 4, 36))]);
    ExifChainedChildIfd();
    ExifChainedChildEntry();
    EntryPush(d, false, 28, Exif, 0, s, 0x9000, Unknown(UNDEFINED, 4, 36));
    EntriesStep(d, false, 28, 1, Exif, 0, s, Success(()), s1);
    EntriesEnd(d, false, 40, Exif, 0, s1);
    IfdStep(d, false, 26, Exif, 0, s);
  }

  lemma InfLoopByExifNext()
    ensures ParseExifSpec(EXIF_CHAINED) == Failure(InvalidFormat("Unexpected next IFD"))
  {
    var d := EXIF_CHAINED;
    var s := NEW_PARSER;
    var ptr := Unknown(LONG, 1, 18);
    ExifChainedHeader();
    ExifChainedTop();
    HeaderBytes(d);
    ExifChainedPointer();
    ExifChainedChild(s);
    ChildStep(d, false, ptr, Exif, 0, s, 26);
    EntryChild(d, false, 10, Tiff, 0, s, 0x8769, ptr, Exif);
    var (c, s1) := EntrySpec(d, false, 10, Tiff, 0, s);
    EntriesStep(d, false, 10, 1, Tiff, 0, s, c, s1);
    IfdStep(d, false, 8, Tiff, 0, s);
    BodyStep(d, false, 8, 0, s);
    ParseStep(d, false, s);
  }

  // Test `parse_ifd_entry`: BYTE, SHORT and unknown entries, in place and out of line.

  lemma EntryByteInline()
    ensures ParseIfdEntry([0x02, 0x03, 0x00, 0x01, 0, 0, 0, 0x04, 0x41, 0x42, 0x43, 0x44], 0, false)
         == Success((0x0203, Unknown(BYTE, 4, 8)))
  {
  }

  lemma EntryByteOutOfLine()
    ensures ParseIfdEntry([0x02, 0x03, 0x00, 0x01, 0, 0, 0, 0x05, 0, 0, 0, 0x0c,
                           0x41, 0x42, 0x43, 0x44, 0x45], 0, false)
         == Success((0x0203, Unknown(BYTE, 5, 12)))
  {
  }

  lemma EntryByteTruncated()
    ensures ParseIfdEntry([0x02, 0x03, 0x00, 0x01, 0, 0, 0, 0x05, 0, 0, 0, 0x0c,
                           0x41, 0x42, 0x43, 0x44], 0, false)
         == Failure(InvalidFormat("Truncated field value"))
  {
  }

  lemma EntryShortInline()
    ensures ParseIfdEntry([0x58, 0x04, 0x05, 0x00, 0x03, 0, 0, 0, 0x02, 0x41, 0x42, 0x43, 0x44], 1, false)
         == Success((0x0405, Unknown(SHORT, 2, 9)))
  {
  }

  lemma EntryShortOutOfLine()
    ensures ParseIfdEntry([0x58, 0x04, 0x05, 0x00, 0x03, 0, 0, 0, 0x03, 0, 0, 0, 0x0e,
                           0x58, 0x41, 0x42, 0x43, 0x44, 0x45, 0x46], 1, false)
         == Success((0x0405, Unknown(SHORT, 3, 14)))
  {
  }

  lemma EntryShortTruncated()
    ensures ParseIfdEntry([0x58, 0x04, 0x05, 0x00, 0x03, 0, 0, 0, 0x03, 0, 0, 0, 0x0e,
                           0x58, 0x41, 0x42, 0x43, 0x44, 0x45], 1, false)
         == Failure(InvalidFormat("Truncated field value"))
  {
  }

  lemma EntryUnknownType()
    ensures ParseIfdEntry([0x58, 0x01, 0x02, 0x03, 0x04, 0x05, 0x06, 0x07, 0x08, 0x41, 0x42, 0x43, 0x44], 1, false)
         == Success((0x0102, Unknown(0x0304, 0x05060708, 9)))
  {
  }
}
