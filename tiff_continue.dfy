/**
 * Concrete runs of the test `continue_on_error` at the end of `tiff.rs`:
 * six damaged big-endian buffers, each parsed once strictly and once with
 * an empty error log. The strict parse stops with the first error; the
 * tolerant one succeeds, keeps the fields it could read and logs every
 * error in the order it met them.
 */
module TiffContinueExamples {
  import opened Wrappers
  import opened Endian
  import opened ExifError
  import opened Value
  import opened TiffIfd
  import opened TiffExamples

  /** The state a tolerant parse of a big-endian buffer ends in. */
  function Tolerated(entries: seq<Field>, log: seq<Error>): ParserState
  {
    ParserState(entries, false, Some(log))
  }

  /** The first error of a fresh tolerant parser is logged, not returned. */
  lemma FirstLogged(entries: seq<Field>, e: Error)
    ensures CheckError(Tolerated(entries, []), e) == (Success(()), Tolerated(entries, [e]))
  {
    assert [] + [e] == [e];
  }

  // Reading entries from the 16- and 32-bit words of a big-endian buffer.

  /** An entry whose value fits in its last four bytes keeps it there, deferred. */
  lemma InlineEntry(d: seq<byte>, offset: nat, number: nat, typ: nat, cnt: nat)
    requires offset + 12 <= |d| && offset + 8 < U32_LIMIT
    requires LoadU16(d, offset, false) == number && LoadU16(d, offset + 2, false) == typ
    requires LoadU32(d, offset + 4, false) == cnt && UnitLen(typ) * cnt <= 4
    ensures ParseIfdEntry(d, offset, false) == Success((number, Unknown(typ, cnt, offset + 8)))
  {
  }

  /** An entry whose out-of-line value runs past the end of the buffer. */
  lemma TruncatedValueEntry(d: seq<byte>, offset: nat, typ: nat, cnt: nat, ofs: nat)
    requires offset + 12 <= |d|
    requires LoadU16(d, offset + 2, false) == typ && LoadU32(d, offset + 4, false) == cnt
    requires LoadU32(d, offset + 8, false) == ofs
    requires 4 < UnitLen(typ) * cnt <= USIZE_MAX && |d| < ofs + UnitLen(typ) * cnt
    ensures ParseIfdEntry(d, offset, false) == Failure(InvalidFormat("Truncated field value"))
  {
  }

  /** An entry that `parse_ifd_entry` rejects goes straight to check_error. */
  lemma EntryRejected(d: seq<byte>, offset: nat, ctx: Context, ifdNum: nat, s: ParserState, e: Error)
    requires offset + 12 <= |d| && ParseIfdEntry(d, offset, false) == Failure(e)
    ensures EntrySpec(d, false, offset, ctx, ifdNum, s) == CheckError(s, e)
  {
  }

  /** The 16- and 32-bit words inside the first piece are those of the piece alone. */
  lemma LoadsInPrefix(a: seq<byte>, b: seq<byte>, pos: nat)
    requires pos + 4 <= |a|
    ensures LoadU16(a + b, pos, false) == LoadU16(a, pos, false)
    ensures LoadU32(a + b, pos, false) == LoadU32(a, pos, false)
  {
  }

  /** The 16- and 32-bit words inside the second piece are those of the piece alone, shifted. */
  lemma LoadsInSuffix(a: seq<byte>, b: seq<byte>, pos: nat)
    requires pos + 4 <= |b|
    ensures LoadU16(a + b, |a| + pos, false) == LoadU16(b, pos, false)
    ensures LoadU32(a + b, |a| + pos, false) == LoadU32(b, pos, false)
  {
  }

  // Shared shapes of the walk on a buffer with the standard header.

  /** The 0th IFD fails: the body fails with it and the header passes it to check_error. */
  lemma FirstIfdPolicy(d: seq<byte>, s: ParserState, e: Error, s1: ParserState)
    requires HeaderAt8(d) && !s.littleEndian
    requires IfdSpec(d, false, 8, Tiff, 0, s) == (Failure(e), s1)
    ensures ParseSpec(d, s) == CheckError(s1, e)
  {
    HeaderBytes(d);
    BodyStep(d, false, 8, 0, s);
    ParseStep(d, false, s);
    assert s.(littleEndian := false) == s;
  }

  /** The 0th IFD is the last one: the parse succeeds with what it collected. */
  lemma OnlyIfd(d: seq<byte>, s: ParserState, s1: ParserState)
    requires HeaderAt8(d) && !s.littleEndian
    requires IfdSpec(d, false, 8, Tiff, 0, s) == (Success(0), s1)
    ensures ParseSpec(d, s) == (Success(()), s1)
  {
    HeaderBytes(d);
    BodyStep(d, false, 8, 0, s);
    ParseStep(d, false, s);
    assert s.(littleEndian := false) == s;
  }

  // Case "0th IFD is missing": the header and nothing else.

  const NO_IFD: seq<byte> := [0x4d, 0x4d, 0x00, 0x2a, 0x00, 0x00, 0x00, 0x08]

  lemma NoIfdWalk(s: ParserState)
    requires !s.littleEndian
    ensures ParseSpec(NO_IFD, s) == CheckError(s, InvalidFormat("Truncated IFD count"))
  {
    assert HeaderAt8(NO_IFD);
    FirstIfdPolicy(NO_IFD, s, InvalidFormat("Truncated IFD count"), s);
  }

  lemma ContinueNoIfd()
    ensures ParseSpec(NO_IFD, NEW_PARSER).0 == Failure(InvalidFormat("Truncated IFD count"))
    ensures ParseSpec(NO_IFD, TOLERANT) == (Success(()), Tolerated([], [InvalidFormat("Truncated IFD count")]))
  {
    NoIfdWalk(NEW_PARSER);
    NoIfdWalk(TOLERANT);
    FirstLogged([], InvalidFormat("Truncated IFD count"));
  }

  // Case "2nd entry is truncated": two entries announced, only 11 bytes of the second present.

  const TRUNCATED_ENTRY: seq<byte> :=
    [0x4d, 0x4d, 0x00, 0x2a, 0x00, 0x00, 0x00, 0x08,
     0x00, 0x02, 0x01, 0x00, 0x00, 0x03, 0x00, 0x00, 0x00, 0x01, 0x00, 0x14, 0x00, 0x00,
     0x01, 0x01, 0x00, 0x03, 0x00, 0x00, 0x00, 0x01, 0x00, 0x15, 0x00]

  lemma TruncatedEntryHeader()
    ensures HeaderAt8(TRUNCATED_ENTRY) && |TRUNCATED_ENTRY| == 33
  {
  }

  lemma TruncatedEntryWords()
    ensures LoadU16(TRUNCATED_ENTRY, 8, false) == 2
    ensures LoadU16(TRUNCATED_ENTRY, 10, false) == 0x100 && LoadU16(TRUNCATED_ENTRY, 12, false) == SHORT
    ensures LoadU32(TRUNCATED_ENTRY, 14, false) == 1
  {
  }

  /** ImageWidth is read, then "Truncated IFD" ends the IFD outside check_error. */
  lemma TruncatedEntryIfd(s: ParserState)
    ensures IfdSpec(TRUNCATED_ENTRY, false, 8, Tiff, 0, s)
         == (Failure(InvalidFormat("Truncated IFD")), s.(entries := s.entries + [WIDTH_ENTRY]))
  {
    var d := TRUNCATED_ENTRY;
    var s1 := s.(entries := s.entries + [WIDTH_ENTRY]);
    TruncatedEntryHeader();
    TruncatedEntryWords();
    InlineEntry(d, 10, 0x100, SHORT, 1);
    EntryPush(d, false, 10, Tiff, 0, s, 0x100, Unknown(SHORT, 1, 18));
    EntriesStep(d, false, 10, 2, Tiff, 0, s, Success(()), s1);
    IfdStep(d, false, 8, Tiff, 0, s);
  }

  lemma ContinueTruncatedEntry()
    ensures ParseSpec(TRUNCATED_ENTRY, NEW_PARSER).0 == Failure(InvalidFormat("Truncated IFD"))
    ensures ParseSpec(TRUNCATED_ENTRY, TOLERANT)
         == (Success(()), Tolerated([WIDTH_ENTRY], [InvalidFormat("Truncated IFD")]))
    ensures ParseValue(WIDTH_ENTRY.value, TRUNCATED_ENTRY, false).Short?
  {
    var e := InvalidFormat("Truncated IFD");
    TruncatedEntryHeader();
    TruncatedEntryIfd(NEW_PARSER);
    assert NEW_PARSER.(entries := [] + [WIDTH_ENTRY]) == NEW_PARSER.(entries := [WIDTH_ENTRY]);
    FirstIfdPolicy(TRUNCATED_ENTRY, NEW_PARSER, e, NEW_PARSER.(entries := [WIDTH_ENTRY]));
    TruncatedEntryIfd(TOLERANT);
    assert TOLERANT.(entries := [] + [WIDTH_ENTRY]) == Tolerated([WIDTH_ENTRY], []);
    FirstIfdPolicy(TRUNCATED_ENTRY, TOLERANT, e, Tolerated([WIDTH_ENTRY], []));
    FirstLogged([WIDTH_ENTRY], e);
  }

  // Case "1st entry broken": three SHORTs at 33 in a 38-byte buffer, then a good ImageLength.

  const BROKEN_ENTRY: seq<byte> :=
    [0x4d, 0x4d, 0x00, 0x2a, 0x00, 0x00, 0x00, 0x08,
     0x00, 0x02, 0x01, 0x00, 0x00, 0x03, 0x00, 0x00, 0x00, 0x03, 0x00, 0x00, 0x00, 0x21,
     0x01, 0x01, 0x00, 0x03, 0x00, 0x00, 0x00, 0x01, 0x00, 0x15, 0x00, 0x00,
     0x00, 0x00, 0x00, 0x00]

  /** The ImageLength entry of BROKEN_ENTRY, still deferred. */
  const LENGTH_ENTRY: Field := Field(Tag(Tiff, 0x101), 0, Unknown(SHORT, 1, 30))

  lemma BrokenEntryHeader()
    ensures HeaderAt8(BROKEN_ENTRY) && |BROKEN_ENTRY| == 38
  {
  }

  lemma BrokenEntryFirstWords()
    ensures LoadU16(BROKEN_ENTRY, 8, false) == 2
    ensures LoadU16(BROKEN_ENTRY, 12, false) == SHORT && LoadU32(BROKEN_ENTRY, 14, false) == 3
    ensures LoadU32(BROKEN_ENTRY, 18, false) == 33
  {
  }

  lemma BrokenEntrySecondWords()
    ensures LoadU16(BROKEN_ENTRY, 22, false) == 0x101 && LoadU16(BROKEN_ENTRY, 24, false) == SHORT
    ensures LoadU32(BROKEN_ENTRY, 26, false) == 1 && LoadU32(BROKEN_ENTRY, 34, false) == 0
  {
  }

  lemma BrokenEntryEntries()
    ensures LoadU16(BROKEN_ENTRY, 8, false) == 2 && LoadU32(BROKEN_ENTRY, 34, false) == 0
    ensures ParseIfdEntry(BROKEN_ENTRY, 10, false) == Failure(InvalidFormat("Truncated field value"))
    ensures ParseIfdEntry(BROKEN_ENTRY, 22, false) == Success((0x101, Unknown(SHORT, 1, 30)))
  {
    BrokenEntryHeader();
    BrokenEntryFirstWords();
    BrokenEntrySecondWords();
    TruncatedValueEntry(BROKEN_ENTRY, 10, SHORT, 3, 33);
    InlineEntry(BROKEN_ENTRY, 22, 0x101, SHORT, 1);
  }

  lemma BrokenEntryStrict()
    ensures ParseSpec(BROKEN_ENTRY, NEW_PARSER).0 == Failure(InvalidFormat("Truncated field value"))
  {
    var d := BROKEN_ENTRY;
    var e := InvalidFormat("Truncated field value");
    BrokenEntryHeader();
    BrokenEntryEntries();
    EntryRejected(d, 10, Tiff, 0, NEW_PARSER, e);
    EntriesStep(d, false, 10, 2, Tiff, 0, NEW_PARSER, Failure(e), NEW_PARSER);
    IfdStep(d, false, 8, Tiff, 0, NEW_PARSER);
    FirstIfdPolicy(d, NEW_PARSER, e, NEW_PARSER);
  }

  lemma BrokenEntryTolerant()
    ensures ParseSpec(BROKEN_ENTRY, TOLERANT)
         == (Success(()), Tolerated([LENGTH_ENTRY], [InvalidFormat("Truncated field value")]))
  {
    var d := BROKEN_ENTRY;
    var e := InvalidFormat("Truncated field value");
    var s1 := Tolerated([], [e]);
    var s2 := Tolerated([LENGTH_ENTRY], [e]);
    BrokenEntryHeader();
    BrokenEntryEntries();
    EntryRejected(d, 10, Tiff, 0, TOLERANT, e);
    FirstLogged([], e);
    EntriesStep(d, false, 10, 2, Tiff, 0, TOLERANT, Success(()), s1);
    EntryPush(d, false, 22, Tiff, 0, s1, 0x101, Unknown(SHORT, 1, 30));
    assert s1.(entries := [] + [LENGTH_ENTRY]) == s2;
    EntriesStep(d, false, 22, 1, Tiff, 0, s1, Success(()), s2);
    EntriesEnd(d, false, 34, Tiff, 0, s2);
    IfdStep(d, false, 8, Tiff, 0, TOLERANT);
    OnlyIfd(d, TOLERANT, s2);
  }

  lemma ContinueBrokenEntry()
    ensures ParseSpec(BROKEN_ENTRY, NEW_PARSER).0 == Failure(InvalidFormat("Truncated field value"))
    ensures ParseSpec(BROKEN_ENTRY, TOLERANT)
         == (Success(()), Tolerated([LENGTH_ENTRY], [InvalidFormat("Truncated field value")]))
    ensures ParseValue(LENGTH_ENTRY.value, BROKEN_ENTRY, false).Short?
  {
    BrokenEntryStrict();
    BrokenEntryTolerant();
  }

  // The last three buffers share a layout: a 38-byte top part (header, 0th IFD with an
  // ExifIFDPointer at 10 and private tag 65000 at 22, next-IFD offset at 34) followed by
  // an Exif IFD at 38.

  /** The words of the top part that the walk reads. */
  predicate TopWords(d: seq<byte>, ptrTyp: nat, ptrCnt: nat, otherTyp: nat, otherCnt: nat, next: nat)
  {
    && HeaderAt8(d) && |d| >= 38 && LoadU16(d, 8, false) == 2
    && LoadU16(d, 10, false) == 0x8769 && LoadU16(d, 12, false) == ptrTyp && LoadU32(d, 14, false) == ptrCnt
    && LoadU16(d, 22, false) == 65000 && LoadU16(d, 24, false) == otherTyp && LoadU32(d, 26, false) == otherCnt
    && LoadU32(d, 34, false) == next
  }

  /** The same top part at the head of a longer buffer. */
  lemma TopWordsPrefix(a: seq<byte>, b: seq<byte>, ptrTyp: nat, ptrCnt: nat, otherTyp: nat, otherCnt: nat,
                       next: nat)
    requires TopWords(a, ptrTyp, ptrCnt, otherTyp, otherCnt, next)
    ensures TopWords(a + b, ptrTyp, ptrCnt, otherTyp, otherCnt, next)
  {
    assert forall i :: 0 <= i < |a| ==> (a + b)[i] == a[i];
    LoadsInPrefix(a, b, 8);
    LoadsInPrefix(a, b, 10);
    LoadsInPrefix(a, b, 12);
    LoadsInPrefix(a, b, 14);
    LoadsInPrefix(a, b, 22);
    LoadsInPrefix(a, b, 24);
    LoadsInPrefix(a, b, 26);
    LoadsInPrefix(a, b, 34);
  }

  /** The 0th IFD as the walk sees it. */
  predicate TopLayout(d: seq<byte>, ptr: Value, other: Value, next: nat)
  {
    && HeaderAt8(d) && |d| >= 38 && LoadU16(d, 8, false) == 2
    && ParseIfdEntry(d, 10, false) == Success((0x8769, ptr))
    && ParseIfdEntry(d, 22, false) == Success((65000, other))
    && LoadU32(d, 34, false) == next
  }

  /** Both entries of the top part hold their values in place. */
  lemma TopLayoutOf(d: seq<byte>, ptrTyp: nat, ptrCnt: nat, otherTyp: nat, otherCnt: nat, next: nat)
    requires TopWords(d, ptrTyp, ptrCnt, otherTyp, otherCnt, next)
    requires UnitLen(ptrTyp) * ptrCnt <= 4 && UnitLen(otherTyp) * otherCnt <= 4
    ensures TopLayout(d, Unknown(ptrTyp, ptrCnt, 18), Unknown(otherTyp, otherCnt, 30), next)
  {
    InlineEntry(d, 10, 0x8769, ptrTyp, ptrCnt);
    InlineEntry(d, 22, 65000, otherTyp, otherCnt);
  }

  /** A pointer that does not decode to an unsigned element 0 fails the entry with "Invalid pointer". */
  lemma RejectedPointer(d: seq<byte>, ptr: Value, other: Value, next: nat, s: ParserState)
    requires TopLayout(d, ptr, other, next) && GetUint(ParseValue(ptr, d, false), 0).None?
    ensures EntrySpec(d, false, 10, Tiff, 0, s) == CheckError(s, InvalidFormat("Invalid pointer"))
  {
    EntryChild(d, false, 10, Tiff, 0, s, 0x8769, ptr, Exif);
  }

  /** After the pointer entry, the private entry is collected and the next-IFD offset read. */
  lemma TopRest(d: seq<byte>, ptr: Value, other: Value, next: nat, s: ParserState)
    requires TopLayout(d, ptr, other, next)
    ensures EntriesSpec(d, false, 22, 1, Tiff, 0, s)
         == (Success(next), s.(entries := s.entries + [Field(Tag(Tiff, 65000), 0, other)]))
  {
    var s1 := s.(entries := s.entries + [Field(Tag(Tiff, 65000), 0, other)]);
    EntryPush(d, false, 22, Tiff, 0, s, 65000, other);
    EntriesStep(d, false, 22, 1, Tiff, 0, s, Success(()), s1);
    EntriesEnd(d, false, 34, Tiff, 0, s1);
  }

  /** Strict mode: the 0th IFD, and with it the parse, fails with the pointer entry's error. */
  lemma TopStrict(d: seq<byte>, ptr: Value, other: Value, next: nat, e: Error, s1: ParserState)
    requires TopLayout(d, ptr, other, next)
    requires EntrySpec(d, false, 10, Tiff, 0, NEW_PARSER) == (Failure(e), s1)
    ensures ParseSpec(d, NEW_PARSER).0 == Failure(e)
  {
    EntriesStep(d, false, 10, 2, Tiff, 0, NEW_PARSER, Failure(e), s1);
    IfdStep(d, false, 8, Tiff, 0, NEW_PARSER);
    FirstIfdPolicy(d, NEW_PARSER, e, s1);
  }

  /** Tolerant mode: the pointer entry's error is logged and the 0th IFD read to its end. */
  lemma TopTolerant(d: seq<byte>, ptr: Value, other: Value, next: nat, s1: ParserState)
    requires TopLayout(d, ptr, other, next)
    requires EntrySpec(d, false, 10, Tiff, 0, TOLERANT) == (Success(()), s1)
    ensures IfdSpec(d, false, 8, Tiff, 0, TOLERANT)
         == (Success(next), s1.(entries := s1.entries + [Field(Tag(Tiff, 65000), 0, other)]))
  {
    EntriesStep(d, false, 10, 2, Tiff, 0, TOLERANT, Success(()), s1);
    TopRest(d, ptr, other, next, s1);
    IfdStep(d, false, 8, Tiff, 0, TOLERANT);
  }

  /** Both runs over a buffer whose Exif pointer is unusable and whose 0th IFD is the last. */
  lemma BadPointerRun(d: seq<byte>, ptr: Value, other: Value)
    requires TopLayout(d, ptr, other, 0) && GetUint(ParseValue(ptr, d, false), 0).None?
    ensures ParseSpec(d, NEW_PARSER).0 == Failure(InvalidFormat("Invalid pointer"))
    ensures ParseSpec(d, TOLERANT)
         == (Success(()), Tolerated([Field(Tag(Tiff, 65000), 0, other)], [InvalidFormat("Invalid pointer")]))
  {
    var e := InvalidFormat("Invalid pointer");
    var f := Field(Tag(Tiff, 65000), 0, other);
    RejectedPointer(d, ptr, other, 0, NEW_PARSER);
    TopStrict(d, ptr, other, 0, e, NEW_PARSER);
    RejectedPointer(d, ptr, other, 0, TOLERANT);
    FirstLogged([], e);
    TopTolerant(d, ptr, other, 0, Tolerated([], [e]));
    assert Tolerated([], [e]).(entries := [] + [f]) == Tolerated([f], [e]);
    OnlyIfd(d, TOLERANT, Tolerated([f], [e]));
  }

  /** The Exif IFD shared by the last three buffers: ExifVersion, then a next-IFD offset of 1. */
  const EXIF_WITH_NEXT: seq<byte> :=
    [0x00, 0x01, 0x90, 0x00, 0x00, 0x07, 0x00, 0x00, 0x00, 0x04, 0x00, 0x02, 0x03, 0x02,
     0x00, 0x00, 0x00, 0x01]

  lemma ExifWithNextWords()
    ensures LoadU16(EXIF_WITH_NEXT, 0, false) == 1
    ensures LoadU16(EXIF_WITH_NEXT, 2, false) == 0x9000 && LoadU16(EXIF_WITH_NEXT, 4, false) == UNDEFINED
    ensures LoadU32(EXIF_WITH_NEXT, 6, false) == 4 && LoadU32(EXIF_WITH_NEXT, 14, false) == 1
  {
  }

  // Case "Exif IFD has non-zero next IFD offset; top-level next IFD is also broken".

  const EXIF_NEXT_TOP: seq<byte> :=
    [0x4d, 0x4d, 0x00, 0x2a, 0x00, 0x00, 0x00, 0x08,
     0x00, 0x02, 0x87, 0x69, 0x00, 0x04, 0x00, 0x00, 0x00, 0x01, 0x00, 0x00, 0x00, 0x26,
     0xfd, 0xe8, 0x00, 0x09, 0x00, 0x00, 0x00, 0x01, 0xfe, 0xdc, 0xba, 0x98,
     0xff, 0xff, 0xff, 0xff]

  const EXIF_NEXT: seq<byte> := EXIF_NEXT_TOP + EXIF_WITH_NEXT

  /** ExifVersion in the Exif IFD, still deferred; it counts as part of the 0th IFD. */
  const VERSION_ENTRY: Field := Field(Tag(Exif, 0x9000), 0, Unknown(UNDEFINED, 4, 48))

  /** Private tag 65000 of the 0th IFD, one SLONG, still deferred. */
  const PRIVATE_SLONG: Field := Field(Tag(Tiff, 65000), 0, Unknown(SLONG, 1, 30))

  lemma ExifNextTopHeader()
    ensures HeaderAt8(EXIF_NEXT_TOP)
  {
  }

  lemma ExifNextTopCount()
    ensures |EXIF_NEXT_TOP| == 38 && LoadU16(EXIF_NEXT_TOP, 8, false) == 2
  {
  }

  lemma ExifNextTopPointer()
    ensures LoadU16(EXIF_NEXT_TOP, 10, false) == 0x8769 && LoadU16(EXIF_NEXT_TOP, 12, false) == LONG
    ensures LoadU32(EXIF_NEXT_TOP, 14, false) == 1 && LoadU32(EXIF_NEXT_TOP, 18, false) == 38
  {
  }

  lemma ExifNextTopPrivate()
    ensures LoadU16(EXIF_NEXT_TOP, 22, false) == 65000 && LoadU16(EXIF_NEXT_TOP, 24, false) == SLONG
    ensures LoadU32(EXIF_NEXT_TOP, 26, false) == 1 && LoadU32(EXIF_NEXT_TOP, 34, false) == 0xffff_ffff
  {
  }

  /** Everything the run reads from EXIF_NEXT. */
  lemma ExifNextBytes()
    ensures |EXIF_NEXT| == 56
    ensures TopLayout(EXIF_NEXT, Unknown(LONG, 1, 18), Unknown(SLONG, 1, 30), 0xffff_ffff)
    ensures LoadU32(EXIF_NEXT, 18, false) == 38
    ensures LoadU16(EXIF_NEXT, 38, false) == 1 && LoadU32(EXIF_NEXT, 52, false) == 1
    ensures ParseIfdEntry(EXIF_NEXT, 40, false) == Success((0x9000, Unknown(UNDEFINED, 4, 48)))
  {
    var a, b := EXIF_NEXT_TOP, EXIF_WITH_NEXT;
    ExifNextTopHeader();
    ExifNextTopCount();
    ExifNextTopPointer();
    ExifNextTopPrivate();
    TopWordsPrefix(a, b, LONG, 1, SLONG, 1, 0xffff_ffff);
    TopLayoutOf(EXIF_NEXT, LONG, 1, SLONG, 1, 0xffff_ffff);
    LoadsInPrefix(a, b, 18);
    ExifWithNextWords();
    LoadsInSuffix(a, b, 0);
    LoadsInSuffix(a, b, 2);
    LoadsInSuffix(a, b, 4);
    LoadsInSuffix(a, b, 6);
    LoadsInSuffix(a, b, 14);
    InlineEntry(EXIF_NEXT, 40, 0x9000, UNDEFINED, 4);
  }

  /** The Exif IFD is read, but its next-IFD offset 1 makes the child fail. */
  lemma ExifNextEntry(s: ParserState)
    ensures var s1 := s.(entries := s.entries + [VERSION_ENTRY]);
      EntrySpec(EXIF_NEXT, false, 10, Tiff, 0, s) == CheckError(s1, InvalidFormat("Unexpected next IFD"))
  {
    var d := EXIF_NEXT;
    var ptr := Unknown(LONG, 1, 18);
    var s1 := s.(entries := s.entries + [VERSION_ENTRY]);
    ExifNextBytes();
    PointerOffset(d, 18, false);
    EntryPush(d, false, 40, Exif, 0, s, 0x9000, Unknown(UNDEFINED, 4, 48));
    EntriesStep(d, false, 40, 1, Exif, 0, s, Success(()), s1);
    EntriesEnd(d, false, 52, Exif, 0, s1);
    IfdStep(d, false, 38, Exif, 0, s);
    ChildStep(d, false, ptr, Exif, 0, s, 38);
    EntryChild(d, false, 10, Tiff, 0, s, 0x8769, ptr, Exif);
  }

  lemma ExifNextStrict()
    ensures ParseSpec(EXIF_NEXT, NEW_PARSER).0 == Failure(InvalidFormat("Unexpected next IFD"))
  {
    var s1 := NEW_PARSER.(entries := [VERSION_ENTRY]);
    ExifNextBytes();
    ExifNextEntry(NEW_PARSER);
    assert NEW_PARSER.(entries := [] + [VERSION_ENTRY]) == s1;
    TopStrict(EXIF_NEXT, Unknown(LONG, 1, 18), Unknown(SLONG, 1, 30), 0xffff_ffff,
              InvalidFormat("Unexpected next IFD"), s1);
  }

  /** The tolerant run reads the whole 0th IFD; IFD 1 at 0xffffffff then lies past the end. */
  lemma ExifNextTolerant()
    ensures ParseSpec(EXIF_NEXT, TOLERANT)
         == (Success(()), Tolerated([VERSION_ENTRY, PRIVATE_SLONG],
                                    [InvalidFormat("Unexpected next IFD"), InvalidFormat("Truncated IFD count")]))
  {
    var d := EXIF_NEXT;
    var e := InvalidFormat("Unexpected next IFD");
    var s1 := Tolerated([VERSION_ENTRY], [e]);
    var s2 := Tolerated([VERSION_ENTRY, PRIVATE_SLONG], [e]);
    ExifNextBytes();
    ExifNextEntry(TOLERANT);
    assert TOLERANT.(entries := [] + [VERSION_ENTRY]) == Tolerated([VERSION_ENTRY], []);
    FirstLogged([VERSION_ENTRY], e);
    TopTolerant(d, Unknown(LONG, 1, 18), Unknown(SLONG, 1, 30), 0xffff_ffff, s1);
    assert s1.(entries := s1.entries + [PRIVATE_SLONG]) == s2;
    var e2 := InvalidFormat("Truncated IFD count");
    assert IfdSpec(d, false, 0xffff_ffff, Tiff, 1, s2) == (Failure(e2), s2);
    BodyStep(d, false, 0xffff_ffff, 1, s2);
    HeaderBytes(d);
    BodyStep(d, false, 8, 0, TOLERANT);
    ParseStep(d, false, TOLERANT);
    assert [e] + [e2] == [e, e2];
  }

  lemma ContinueExifNext()
    ensures ParseSpec(EXIF_NEXT, NEW_PARSER).0 == Failure(InvalidFormat("Unexpected next IFD"))
    ensures ParseSpec(EXIF_NEXT, TOLERANT)
         == (Success(()), Tolerated([VERSION_ENTRY, PRIVATE_SLONG],
                                    [InvalidFormat("Unexpected next IFD"), InvalidFormat("Truncated IFD count")]))
    ensures ParseValue(VERSION_ENTRY.value, EXIF_NEXT, false).Undefined?
    ensures ParseValue(PRIVATE_SLONG.value, EXIF_NEXT, false).SLong?
  {
    ExifNextStrict();
    ExifNextTolerant();
  }

  // Case "Exif IFD pointer has a bad type": the pointer is one SLONG, which `get_uint` refuses.

  const BAD_PTR_TYPE_TOP: seq<byte> :=
    [0x4d, 0x4d, 0x00, 0x2a, 0x00, 0x00, 0x00, 0x08,
     0x00, 0x02, 0x87, 0x69, 0x00, 0x09, 0x00, 0x00, 0x00, 0x01, 0x00, 0x00, 0x00, 0x26,
     0xfd, 0xe8, 0x00, 0x06, 0x00, 0x00, 0x00, 0x03, 0xfe, 0xdc, 0xba, 0x98,
     0x00, 0x00, 0x00, 0x00]

  const BAD_PTR_TYPE: seq<byte> := BAD_PTR_TYPE_TOP + EXIF_WITH_NEXT

  lemma BadPointerTypeHeader()
    ensures HeaderAt8(BAD_PTR_TYPE_TOP)
  {
  }

  lemma BadPointerTypeCount()
    ensures |BAD_PTR_TYPE_TOP| == 38 && LoadU16(BAD_PTR_TYPE_TOP, 8, false) == 2
  {
  }

  lemma BadPointerTypeWords()
    ensures LoadU16(BAD_PTR_TYPE_TOP, 10, false) == 0x8769 && LoadU16(BAD_PTR_TYPE_TOP, 12, false) == SLONG
    ensures LoadU32(BAD_PTR_TYPE_TOP, 14, false) == 1
    ensures LoadU16(BAD_PTR_TYPE_TOP, 22, false) == 65000 && LoadU16(BAD_PTR_TYPE_TOP, 24, false) == SBYTE
    ensures LoadU32(BAD_PTR_TYPE_TOP, 26, false) == 3 && LoadU32(BAD_PTR_TYPE_TOP, 34, false) == 0
  {
  }

  lemma ContinueBadPointerType()
    ensures ParseSpec(BAD_PTR_TYPE, NEW_PARSER).0 == Failure(InvalidFormat("Invalid pointer"))
    ensures ParseSpec(BAD_PTR_TYPE, TOLERANT)
         == (Success(()), Tolerated([Field(Tag(Tiff, 65000), 0, Unknown(SBYTE, 3, 30))],
                                    [InvalidFormat("Invalid pointer")]))
    ensures ParseValue(Unknown(SBYTE, 3, 30), BAD_PTR_TYPE, false).SByte?
  {
    BadPointerTypeHeader();
    BadPointerTypeCount();
    BadPointerTypeWords();
    TopWordsPrefix(BAD_PTR_TYPE_TOP, EXIF_WITH_NEXT, SLONG, 1, SBYTE, 3, 0);
    TopLayoutOf(BAD_PTR_TYPE, SLONG, 1, SBYTE, 3, 0);
    BadPointerRun(BAD_PTR_TYPE, Unknown(SLONG, 1, 18), Unknown(SBYTE, 3, 30));
  }

  // Case "Exif IFD pointer is empty": the pointer is a LONG with count 0, so it has no element 0.

  const EMPTY_PTR_TOP: seq<byte> :=
    [0x4d, 0x4d, 0x00, 0x2a, 0x00, 0x00, 0x00, 0x08,
     0x00, 0x02, 0x87, 0x69, 0x00, 0x04, 0x00, 0x00, 0x00, 0x00, 0x00, 0x00, 0x00, 0x26,
     0xfd, 0xe8, 0x00, 0x08, 0x00, 0x00, 0x00, 0x02, 0xfe, 0xdc, 0xba, 0x98,
     0x00, 0x00, 0x00, 0x00]

  const EMPTY_PTR: seq<byte> := EMPTY_PTR_TOP + EXIF_WITH_NEXT

  lemma EmptyPointerHeader()
    ensures HeaderAt8(EMPTY_PTR_TOP)
  {
  }

  lemma EmptyPointerCount()
    ensures |EMPTY_PTR_TOP| == 38 && LoadU16(EMPTY_PTR_TOP, 8, false) == 2
  {
  }

  lemma EmptyPointerWords()
    ensures LoadU16(EMPTY_PTR_TOP, 10, false) == 0x8769 && LoadU16(EMPTY_PTR_TOP, 12, false) == LONG
    ensures LoadU32(EMPTY_PTR_TOP, 14, false) == 0
    ensures LoadU16(EMPTY_PTR_TOP, 22, false) == 65000 && LoadU16(EMPTY_PTR_TOP, 24, false) == SSHORT
    ensures LoadU32(EMPTY_PTR_TOP, 26, false) == 2 && LoadU32(EMPTY_PTR_TOP, 34, false) == 0
  {
  }

  lemma ContinueEmptyPointer()
    ensures ParseSpec(EMPTY_PTR, NEW_PARSER).0 == Failure(InvalidFormat("Invalid pointer"))
    ensures ParseSpec(EMPTY_PTR, TOLERANT)
         == (Success(()), Tolerated([Field(Tag(Tiff, 65000), 0, Unknown(SSHORT, 2, 30))],
                                    [InvalidFormat("Invalid pointer")]))
    ensures ParseValue(Unknown(SSHORT, 2, 30), EMPTY_PTR, false).SShort?
  {
    EmptyPointerHeader();
    EmptyPointerCount();
    EmptyPointerWords();
    TopWordsPrefix(EMPTY_PTR_TOP, EXIF_WITH_NEXT, LONG, 0, SSHORT, 2, 0);
    TopLayoutOf(EMPTY_PTR, LONG, 0, SSHORT, 2, 0);
    BadPointerRun(EMPTY_PTR, Unknown(LONG, 0, 18), Unknown(SSHORT, 2, 30));
  }
}
