/**
 * The imperative side of `tiff.rs`: the `MutOnce` cell of an `IfdEntry`,
 * the `Parser` object whose methods push entries and log errors in place,
 * and `parse_exif`. Every method is proved to compute the corresponding
 * function of module TiffIfd.
 */
module TiffParser {
  import opened Wrappers
  import opened Endian
  import opened ExifError
  import opened Value
  import opened TiffIfd

  /**
   * A partially parsed TIFF field in a decode-once cell. While `fixed` is
   * false the field may still be replaced; `ref_field` fixes it, after which
   * it is never decoded again.
   */
  class IfdEntry {
    var field: Field
    var fixed: bool

    constructor (f: Field)
      ensures field == f && !fixed
    {
      field := f;
      fixed := false;
    }

    /** `ifd_num_tag`: the IFD index and tag, which decoding never changes. */
    method IfdNumTag() returns (ifdNum: nat, tag: Tag)
      ensures ifdNum == field.ifdNum && tag == field.tag
    {
      ifdNum, tag := field.ifdNum, field.tag;
    }

    /**
     * `IfdEntry::parse`: decode the value unless the cell is fixed. Decoding
     * an already decoded value panics in the source, so an unfixed cell must
     * still hold its deferred triple.
     */
    method Parse(data: seq<byte>, le: bool)
      requires !fixed ==> DeferredInBounds(field.value, data)
      modifies this
      ensures fixed == old(fixed)
      ensures old(fixed) ==> field == old(field)
      ensures !old(fixed) ==> field == old(field).(value := ParseValue(old(field.value), data, le))
    {
      if !fixed {
        field := field.(value := ParseValue(field.value, data, le));
      }
    }

    /** `ref_field`: decode at most once, fix the cell, and return the field it holds. */
    method RefField(data: seq<byte>, le: bool) returns (f: Field)
      requires !fixed ==> DeferredInBounds(field.value, data)
      modifies this
      ensures fixed && f == field
      ensures old(fixed) ==> f == old(field)
      ensures !old(fixed) ==> f == old(field).(value := ParseValue(old(field.value), data, le))
    {
      Parse(data, le);
      fixed := true;
      f := field;
    }

    /** `into_field`: decode at most once and hand the field out of the cell. */
    method IntoField(data: seq<byte>, le: bool) returns (f: Field)
      requires !fixed ==> DeferredInBounds(field.value, data)
      modifies this
      ensures old(fixed) ==> f == old(field)
      ensures !old(fixed) ==> f == old(field).(value := ParseValue(old(field.value), data, le))
    {
      Parse(data, le);
      f := field;
    }
  }

  class Parser {
    var entries: seq<IfdEntry>
    var littleEndian: bool
    /** `Some(log)` enables continue-on-error mode; `None` is strict mode. */
    var continueOnError: Option<seq<Error>>
    /** The fields the entries' cells hold. */
    ghost var fields: seq<Field>

    /** Each entry is a distinct, unfixed cell holding the matching field. */
    ghost predicate Valid()
      reads this, entries
    {
      && |fields| == |entries|
      && (forall i :: 0 <= i < |entries| ==> entries[i].field == fields[i] && !entries[i].fixed)
      && (forall i, j :: 0 <= i < j < |entries| ==> entries[i] != entries[j])
    }

    ghost function State(): ParserState
      reads this
    {
      ParserState(fields, littleEndian, continueOnError)
    }

    /** New entries are fresh objects appended after the old ones. */
    twostate predicate Grown()
      reads this
    {
      && old(entries) <= entries
      && forall i :: |old(entries)| <= i < |entries| ==> fresh(entries[i])
    }

    /** `Parser::new`: no entries, big-endian, strict mode. */
    constructor ()
      ensures Valid() && State() == NEW_PARSER && entries == []
    {
      entries := [];
      littleEndian := false;
      continueOnError := None;
      fields := [];
    }

    /** `Parser::parse`. */
    method Parse(data: seq<byte>) returns (r: Result<(), Error>)
      requires Valid()
      modifies this
      ensures Valid() && Grown()
      ensures (r, State()) == ParseSpec(data, old(State()))
    {
      if |data| < 8 {
        return Failure(InvalidFormat("Truncated TIFF header"));
      }
      var bo := LoadU16(data, 0, false);
      if bo == TIFF_BE {
        littleEndian := false;
        r := ParseHeader(data, false);
      } else if bo == TIFF_LE {
        littleEndian := true;
        r := ParseHeader(data, true);
      } else {
        r := Failure(InvalidFormat("Invalid TIFF byte order"));
      }
    }

    /** `Parser::parse_header`; the endianness type parameter is `le`. */
    method ParseHeader(data: seq<byte>, le: bool) returns (r: Result<(), Error>)
      requires Valid() && |data| >= 8
      modifies this
      ensures Valid() && Grown()
      ensures (r, State()) == HeaderSpec(data, le, old(State()))
    {
      if LoadU16(data, 2, le) != TIFF_FORTY_TWO {
        return Failure(InvalidFormat("Invalid forty two"));
      }
      var ifdOffset := LoadU32(data, 4, le);
      r := ParseBody(data, ifdOffset, le);
      if r.Failure? {
        r := CheckError(r.error);
      }
    }

    /** `Parser::parse_body`: follow the chain of top-level IFDs, at most MAX_IFDS of them. */
    method ParseBody(data: seq<byte>, ifdOffset: nat, le: bool) returns (r: Result<(), Error>)
      requires Valid()
      modifies this
      ensures Valid() && Grown()
      ensures (r, State()) == BodySpec(data, le, ifdOffset, 0, old(State()))
    {
      var offset: nat := ifdOffset;
      var ifdNum: nat := 0;
      while offset != 0
        invariant ifdNum <= MAX_IFDS
        invariant Valid() && Grown()
        invariant BodySpec(data, le, offset, ifdNum, State()) == BodySpec(data, le, ifdOffset, 0, old(State()))
        decreases MAX_IFDS - ifdNum
      {
        if ifdNum >= MAX_IFDS {
          return Failure(InvalidFormat("Limit the IFD count to 8"));
        }
        var next := ParseIfd(data, offset, Tiff, ifdNum, le);
        if next.Failure? {
          return Failure(next.error);
        }
        offset := next.value;
        ifdNum := ifdNum + 1;
      }
      r := Success(());
    }

    /** `Parser::parse_ifd`: returns the offset of the next IFD. */
    method ParseIfd(data: seq<byte>, offset: nat, ctx: Context, ifdNum: nat, le: bool)
      returns (r: Result<nat, Error>)
      requires Valid()
      modifies this
      decreases Rank(ctx), 2
      ensures Valid() && Grown()
      ensures (r, State()) == IfdSpec(data, le, offset, ctx, ifdNum, old(State()))
    {
      if |data| < offset || |data| - offset < 2 {
        return Failure(InvalidFormat("Truncated IFD count"));
      }
      var count := LoadU16(data, offset, le);
      r := ParseEntries(data, offset + 2, count, ctx, ifdNum, le);
    }

    /** The entry loop of `parse_ifd` and the read of the next-IFD offset after it. */
    method ParseEntries(data: seq<byte>, start: nat, count: nat, ctx: Context, ifdNum: nat, le: bool)
      returns (r: Result<nat, Error>)
      requires Valid() && start <= |data|
      modifies this
      decreases Rank(ctx), 1
      ensures Valid() && Grown()
      ensures (r, State()) == EntriesSpec(data, le, start, count, ctx, ifdNum, old(State()))
    {
      var pos: nat := start;
      for i := 0 to count
        invariant pos <= |data|
        invariant Valid() && Grown()
        invariant EntriesSpec(data, le, pos, count - i, ctx, ifdNum, State())
               == EntriesSpec(data, le, start, count, ctx, ifdNum, old(State()))
      {
        if |data| - pos < 12 {
          return Failure(InvalidFormat("Truncated IFD"));
        }
        var c := ParseEntry(data, pos, ctx, ifdNum, le);
        if c.Failure? {
          return Failure(c.error);
        }
        pos := pos + 12;
      }
      if |data| - pos < 4 {
        return Failure(InvalidFormat("Truncated next IFD offset"));
      }
      r := Success(LoadU32(data, pos, le));
    }

    /** The body of the entry loop of `parse_ifd`, for the entry at `pos`. */
    method ParseEntry(data: seq<byte>, pos: nat, ctx: Context, ifdNum: nat, le: bool)
      returns (r: Result<(), Error>)
      requires Valid() && pos + 12 <= |data|
      modifies this
      decreases Rank(ctx), 0
      ensures Valid() && Grown()
      ensures (r, State()) == EntrySpec(data, le, pos, ctx, ifdNum, old(State()))
    {
      var entry := ParseIfdEntry(data, pos, le);
      if entry.Failure? {
        r := CheckError(entry.error);
        return;
      }
      var (number, val) := entry.value;
      var tag := Tag(ctx, number);
      var child := ChildContext(tag);
      if child.None? {
        var f := Field(tag, ifdNum, val);
        var e := new IfdEntry(f);
        entries := entries + [e];
        fields := fields + [f];
        return Success(());
      }
      r := ParseChildIfd(data, val, child.value, ifdNum, le);
      if r.Failure? {
        r := CheckError(r.error);
      }
    }

    /** `Parser::parse_child_ifd`. */
    method ParseChildIfd(data: seq<byte>, pointer: Value, ctx: Context, ifdNum: nat, le: bool)
      returns (r: Result<(), Error>)
      requires Valid() && DeferredInBounds(pointer, data)
      modifies this
      decreases Rank(ctx), 3
      ensures Valid() && Grown()
      ensures (r, State()) == ChildSpec(data, le, pointer, ctx, ifdNum, old(State()))
    {
      // The pointer is not decoded yet, so decode it here.
      var p := ParseValue(pointer, data, le);
      var ofs := GetUint(p, 0);
      if ofs.None? {
        return Failure(InvalidFormat("Invalid pointer"));
      }
      var next := ParseIfd(data, ofs.value, ctx, ifdNum, le);
      if next.Failure? {
        return Failure(next.error);
      }
      if next.value == 0 {
        r := Success(());
      } else {
        r := Failure(InvalidFormat("Unexpected next IFD"));
      }
    }

    /** `Parser::check_error`. */
    method CheckError(e: Error) returns (r: Result<(), Error>)
      requires Valid()
      modifies this
      ensures Valid() && entries == old(entries)
      ensures (r, State()) == TiffIfd.CheckError(old(State()), e)
    {
      match continueOnError
      case Some(log) =>
        continueOnError := Some(log + [e]);
        r := Success(());
      case None =>
        r := Failure(e);
    }
  }

  /** `parse_exif`: a strict parse, then each entry decoded exactly once. */
  method ParseExif(data: seq<byte>) returns (r: Result<(seq<Field>, bool), Error>)
    ensures r == ParseExifSpec(data)
  {
    var parser := new Parser();
    var res := parser.Parse(data);
    if res.Failure? {
      return Failure(res.error);
    }
    assert AllDeferred(parser.fields, data) by { ParseExtends(data, NEW_PARSER); }
    var fields := IntoFields(parser.entries, parser.fields, data, parser.littleEndian);
    r := Success((fields, parser.littleEndian));
  }

  /** The loop of `parse_exif` that moves every entry's field out of its cell. */
  method IntoFields(ents: seq<IfdEntry>, ghost fs: seq<Field>, data: seq<byte>, le: bool)
    returns (out: seq<Field>)
    requires |ents| == |fs| && AllDeferred(fs, data)
    requires forall j :: 0 <= j < |ents| ==> ents[j].field == fs[j] && !ents[j].fixed
    requires forall i, j :: 0 <= i < j < |ents| ==> ents[i] != ents[j]
    modifies set e | e in ents
    ensures out == MaterializeAll(fs, data, le)
  {
    out := [];
    for i := 0 to |ents|
      invariant |out| == i
      invariant forall j :: 0 <= j < i ==> out[j] == fs[j].(value := ParseValue(fs[j].value, data, le))
      invariant forall j :: i <= j < |ents| ==> ents[j].field == fs[j] && !ents[j].fixed
    {
      var f := ents[i].IntoField(data, le);
      out := out + [f];
    }
  }
}
