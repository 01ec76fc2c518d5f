/**
 * Properties of the TIFF/Exif walk of module TiffIfd: what the header gate
 * accepts, what continue-on-error mode changes (only the reporting of
 * errors), what one 12-byte entry decodes to, and what `parse_exif` hands
 * back.
 */
module TiffProps {
  import opened Wrappers
  import opened Endian
  import opened ExifError
  import opened Value
  import opened TiffIfd

  /**
   * `parse` gets past the header only when the buffer is at least 8 bytes
   * long and starts with one of the two TIFF signatures, and the byte-order
   * mark decides `little_endian` ("II" little, "MM" big). Each way the
   * header can be wrong has its own error, in either error mode.
   */
  lemma {:induction false} HeaderGate(data: seq<byte>, s: ParserState)
    ensures ParseSpec(data, s).0.Success? ==> |data| >= 8 && IsTiff(data)
    ensures |data| >= 8 && data[0] == 0x49 && data[1] == 0x49 ==> ParseSpec(data, s).1.littleEndian
    ensures |data| >= 8 && data[0] == 0x4d && data[1] == 0x4d ==> !ParseSpec(data, s).1.littleEndian
    ensures |data| < 8 ==> ParseSpec(data, s) == (Failure(InvalidFormat("Truncated TIFF header")), s)
    ensures |data| >= 8 && !(data[0] == data[1] == 0x49) && !(data[0] == data[1] == 0x4d) ==>
              ParseSpec(data, s) == (Failure(InvalidFormat("Invalid TIFF byte order")), s)
    ensures |data| >= 8 && data[0] == data[1] == 0x4d && LoadU16(data, 2, false) != TIFF_FORTY_TWO ==>
              ParseSpec(data, s) == (Failure(InvalidFormat("Invalid forty two")), s.(littleEndian := false))
    ensures |data| >= 8 && data[0] == data[1] == 0x49 && LoadU16(data, 2, true) != TIFF_FORTY_TWO ==>
              ParseSpec(data, s) == (Failure(InvalidFormat("Invalid forty two")), s.(littleEndian := true))
  {
    if |data| >= 8 {
      SignatureBytes(data);
      var bo := LoadU16(data, 0, false);
      if bo == TIFF_BE || bo == TIFF_LE {
        var le := bo == TIFF_LE;
        if LoadU16(data, 2, le) == TIFF_FORTY_TWO {
          BodyExtends(data, le, LoadU32(data, 4, le), 0, s.(littleEndian := le));
        }
      }
    }
  }

  /** The two signature tests of `is_tiff`, read as the byte-order mark and the magic 42. */
  lemma SignatureBytes(data: seq<byte>)
    requires |data| >= 8
    ensures LoadU16(data, 0, false) == TIFF_BE && LoadU16(data, 2, false) == TIFF_FORTY_TWO
        <==> data[..4] == TIFF_BE_SIG
    ensures LoadU16(data, 0, false) == TIFF_LE && LoadU16(data, 2, true) == TIFF_FORTY_TWO
        <==> data[..4] == TIFF_LE_SIG
    ensures LoadU16(data, 0, false) == TIFF_BE <==> data[0] == 0x4d && data[1] == 0x4d
    ensures LoadU16(data, 0, false) == TIFF_LE <==> data[0] == 0x49 && data[1] == 0x49
  {
    assert data[..4] == [data[0], data[1], data[2], data[3]];
  }

  /**
   * In continue-on-error mode every error past the header is logged rather
   * than returned: `parse` fails exactly when the buffer is not a TIFF
   * header.
   */
  lemma {:induction false} ContinueFailsOnlyOnHeader(data: seq<byte>, s: ParserState)
    requires s.continueOnError.Some?
    ensures ParseSpec(data, s).0.Success? <==> |data| >= 8 && IsTiff(data)
    ensures ParseSpec(data, s).0.Failure? ==> ParseSpec(data, s).1 == s.(littleEndian := ParseSpec(data, s).1.littleEndian)
  {
    if |data| >= 8 {
      SignatureBytes(data);
      var bo := LoadU16(data, 0, false);
      if bo == TIFF_BE || bo == TIFF_LE {
        var le := bo == TIFF_LE;
        var s0 := s.(littleEndian := le);
        if LoadU16(data, 2, le) == TIFF_FORTY_TWO {
          BodyExtends(data, le, LoadU32(data, 4, le), 0, s0);
        }
      }
    }
  }

  /**
   * In continue-on-error mode an entry that `parse_ifd_entry` rejects is
   * logged and the IFD goes on with the next entry.
   */
  lemma TolerantSkipsEntry(data: seq<byte>, le: bool, offset: nat, remaining: nat, ctx: Context, ifdNum: nat,
                           s: ParserState, e: Error)
    requires offset + 12 <= |data| && remaining != 0 && s.continueOnError.Some?
    requires ParseIfdEntry(data, offset, le) == Failure(e)
    ensures EntriesSpec(data, le, offset, remaining, ctx, ifdNum, s)
         == EntriesSpec(data, le, offset + 12, remaining - 1, ctx, ifdNum,
                        s.(continueOnError := Some(s.continueOnError.value + [e])))
  {
  }

  /**
   * In continue-on-error mode a child IFD that fails is logged after
   * whatever it logged and collected itself, and the parent IFD goes on
   * with its next entry.
   */
  lemma TolerantSkipsChild(data: seq<byte>, le: bool, offset: nat, remaining: nat, ctx: Context, ifdNum: nat,
                           s: ParserState, number: nat, val: Value, child: Context, e: Error, s1: ParserState)
    requires offset + 12 <= |data| && remaining != 0 && s.continueOnError.Some?
    requires ParseIfdEntry(data, offset, le) == Success((number, val))
    requires ChildContext(Tag(ctx, number)) == Some(child)
    requires ChildSpec(data, le, val, child, ifdNum, s) == (Failure(e), s1)
    ensures s1.continueOnError.Some?
    ensures EntriesSpec(data, le, offset, remaining, ctx, ifdNum, s)
         == EntriesSpec(data, le, offset + 12, remaining - 1, ctx, ifdNum,
                        s1.(continueOnError := Some(s1.continueOnError.value + [e])))
  {
  }

  /**
   * In continue-on-error mode the IFD chain stops at the first IFD that
   * fails; that error is logged last and `parse` still succeeds with
   * everything collected so far.
   */
  lemma TolerantChainStops(data: seq<byte>, s: ParserState)
    requires s.continueOnError.Some? && |data| >= 8 && IsTiff(data)
    ensures var le := data[0] == 0x49;
      var r := BodySpec(data, le, LoadU32(data, 4, le), 0, s.(littleEndian := le));
      && r.1.continueOnError.Some?
      && ParseSpec(data, s)
         == (Success(()), if r.0.Success? then r.1 else r.1.(continueOnError := Some(r.1.continueOnError.value + [r.0.error])))
  {
    var le := data[0] == 0x49;
    HeaderDispatch(data, s);
    TolerantHeader(data, le, s.(littleEndian := le));
  }

  /** Past a TIFF signature, `parse` hands over to `parse_header` in the byte order of the mark. */
  lemma HeaderDispatch(data: seq<byte>, s: ParserState)
    requires |data| >= 8 && IsTiff(data)
    ensures var le := data[0] == 0x49;
      LoadU16(data, 2, le) == TIFF_FORTY_TWO && ParseSpec(data, s) == HeaderSpec(data, le, s.(littleEndian := le))
  {
    SignatureBytes(data);
    var le := data[0] == 0x49;
    assert data[..4] == TIFF_LE_SIG <==> le by {
      assert data[..4][0] == data[0];
    }
    assert LoadU16(data, 0, false) == (if le then TIFF_LE else TIFF_BE);
  }

  /** `parse_header` in continue-on-error mode: a failing IFD chain is logged by `check_error`. */
  lemma TolerantHeader(data: seq<byte>, le: bool, s: ParserState)
    requires |data| >= 8 && LoadU16(data, 2, le) == TIFF_FORTY_TWO && s.continueOnError.Some?
    ensures var r := BodySpec(data, le, LoadU32(data, 4, le), 0, s);
      && r.1.continueOnError.Some?
      && HeaderSpec(data, le, s)
         == (Success(()), if r.0.Success? then r.1 else r.1.(continueOnError := Some(r.1.continueOnError.value + [r.0.error])))
  {
  }

  /**
   * How a walk step run in continue-on-error mode (from the same state with
   * the error log `log`) relates to the same step run in strict mode: either
   * it did exactly the same, or strict mode failed and the continuing run
   * logged that very error first and kept every field strict mode had
   * collected.
   */
  ghost predicate SameRun<T>(r: Result<T, Error>, t: ParserState, r': Result<T, Error>, t': ParserState,
                             log: seq<Error>)
  {
    || (r' == r && t' == t.(continueOnError := Some(log)))
    || (r.Failure? && t'.continueOnError.Some? && t.entries <= t'.entries
        && log + [r.error] <= t'.continueOnError.value)
  }

  /** A continuing run that went on past the divergence point still satisfies SameRun. */
  lemma SameRunExtends<T>(r: Result<T, Error>, t: ParserState, t1: ParserState, r': Result<T, Error>,
                          t': ParserState, log: seq<Error>, data: seq<byte>, lo: nat, hi: nat, ctx: Context)
    requires r.Failure? && t1.continueOnError.Some? && t.entries <= t1.entries
    requires log + [r.error] <= t1.continueOnError.value
    requires Extends(t1, t', data, lo, hi, ctx)
    ensures SameRun(r, t, r', t', log)
  {
    assert t1.entries <= t'.entries;
  }

  lemma {:induction false} SameIfd(data: seq<byte>, le: bool, offset: nat, ctx: Context, ifdNum: nat,
                                   s: ParserState, log: seq<Error>)
    requires s.continueOnError.None?
    decreases Rank(ctx), 2, 0
    ensures var (r, t) := IfdSpec(data, le, offset, ctx, ifdNum, s);
      var (r', t') := IfdSpec(data, le, offset, ctx, ifdNum, s.(continueOnError := Some(log)));
      SameRun(r, t, r', t', log)
  {
    if !(|data| < offset || |data| - offset < 2) {
      SameEntries(data, le, offset + 2, LoadU16(data, offset, le), ctx, ifdNum, s, log);
    }
  }

  lemma {:induction false} SameEntries(data: seq<byte>, le: bool, offset: nat, remaining: nat, ctx: Context,
                                       ifdNum: nat, s: ParserState, log: seq<Error>)
    requires offset <= |data| && s.continueOnError.None?
    decreases Rank(ctx), 1, remaining
    ensures var (r, t) := EntriesSpec(data, le, offset, remaining, ctx, ifdNum, s);
      var (r', t') := EntriesSpec(data, le, offset, remaining, ctx, ifdNum, s.(continueOnError := Some(log)));
      SameRun(r, t, r', t', log)
  {
    if remaining != 0 && |data| - offset >= 12 {
      var s' := s.(continueOnError := Some(log));
      SameEntry(data, le, offset, ctx, ifdNum, s, log);
      EntryExtends(data, le, offset, ctx, ifdNum, s);
      var (c, s1) := EntrySpec(data, le, offset, ctx, ifdNum, s);
      var (c', s1') := EntrySpec(data, le, offset, ctx, ifdNum, s');
      if c' == c && s1' == s1.(continueOnError := Some(log)) {
        if c.Success? {
          SameEntries(data, le, offset + 12, remaining - 1, ctx, ifdNum, s1, log);
        }
      } else if c'.Success? {
        EntriesDiverge(data, le, offset, remaining, ctx, ifdNum, c.error, s1, s1', log);
      }
    }
  }

  /**
   * The entry at `offset` failed in strict mode but not in continue-on-error
   * mode: the strict loop stops there, the continuing one carries on.
   */
  lemma EntriesDiverge(data: seq<byte>, le: bool, offset: nat, remaining: nat, ctx: Context, ifdNum: nat,
                       e: Error, s1: ParserState, s1': ParserState, log: seq<Error>)
    requires offset + 12 <= |data| && remaining != 0
    requires s1'.continueOnError.Some? && s1.entries <= s1'.entries
    requires log + [e] <= s1'.continueOnError.value
    ensures var (r', t') := EntriesSpec(data, le, offset + 12, remaining - 1, ctx, ifdNum, s1');
      SameRun(Failure(e), s1, r', t', log)
  {
    var (r', t') := EntriesSpec(data, le, offset + 12, remaining - 1, ctx, ifdNum, s1');
    EntriesExtends(data, le, offset + 12, remaining - 1, ctx, ifdNum, s1');
    SameRunExtends(Failure(e), s1, s1', r', t', log, data, ifdNum, ifdNum + 1, ctx);
  }

  lemma {:induction false} SameEntry(data: seq<byte>, le: bool, offset: nat, ctx: Context, ifdNum: nat,
                                     s: ParserState, log: seq<Error>)
    requires offset + 12 <= |data| && s.continueOnError.None?
    decreases Rank(ctx), 0, 0
    ensures var (r, t) := EntrySpec(data, le, offset, ctx, ifdNum, s);
      var (r', t') := EntrySpec(data, le, offset, ctx, ifdNum, s.(continueOnError := Some(log)));
      SameRun(r, t, r', t', log)
  {
    match ParseIfdEntry(data, offset, le)
    case Failure(e) =>
    case Success((number, val)) =>
      match ChildContext(Tag(ctx, number))
      case None =>
      case Some(child) =>
        var s' := s.(continueOnError := Some(log));
        SameChild(data, le, val, child, ifdNum, s, log);
        ChildExtends(data, le, val, child, ifdNum, s);
        var (c, s1) := ChildSpec(data, le, val, child, ifdNum, s);
        var (c', s1') := ChildSpec(data, le, val, child, ifdNum, s');
        if c'.Failure? {
          var t' := CheckError(s1', c'.error).1;
          assert s1'.continueOnError.value <= t'.continueOnError.value;
        }
  }

  lemma {:induction false} SameChild(data: seq<byte>, le: bool, pointer: Value, ctx: Context, ifdNum: nat,
                                     s: ParserState, log: seq<Error>)
    requires DeferredInBounds(pointer, data) && s.continueOnError.None?
    decreases Rank(ctx), 3, 0
    ensures var (r, t) := ChildSpec(data, le, pointer, ctx, ifdNum, s);
      var (r', t') := ChildSpec(data, le, pointer, ctx, ifdNum, s.(continueOnError := Some(log)));
      SameRun(r, t, r', t', log)
  {
    match GetUint(ParseValue(pointer, data, le), 0)
    case None =>
    case Some(ofs) =>
      var s' := s.(continueOnError := Some(log));
      SameIfd(data, le, ofs, ctx, ifdNum, s, log);
      var (n, s1) := IfdSpec(data, le, ofs, ctx, ifdNum, s);
      var (n', s1') := IfdSpec(data, le, ofs, ctx, ifdNum, s');
      var (r, t) := ChildSpec(data, le, pointer, ctx, ifdNum, s);
      var (r', t') := ChildSpec(data, le, pointer, ctx, ifdNum, s');
      assert t == s1 && t' == s1';
      if n' == n && s1' == s1.(continueOnError := Some(log)) {
        assert r' == r;
      } else {
        assert n.Failure? && r == Failure(n.error);
      }
  }

  lemma {:induction false} SameBody(data: seq<byte>, le: bool, ifdOffset: nat, ifdNum: nat, s: ParserState,
                                    log: seq<Error>)
    requires ifdNum <= MAX_IFDS && s.continueOnError.None?
    decreases MAX_IFDS - ifdNum
    ensures var (r, t) := BodySpec(data, le, ifdOffset, ifdNum, s);
      var (r', t') := BodySpec(data, le, ifdOffset, ifdNum, s.(continueOnError := Some(log)));
      SameRun(r, t, r', t', log)
  {
    if ifdOffset != 0 && ifdNum < MAX_IFDS {
      var s' := s.(continueOnError := Some(log));
      SameIfd(data, le, ifdOffset, Tiff, ifdNum, s, log);
      IfdExtends(data, le, ifdOffset, Tiff, ifdNum, s);
      var (n, s1) := IfdSpec(data, le, ifdOffset, Tiff, ifdNum, s);
      var (n', s1') := IfdSpec(data, le, ifdOffset, Tiff, ifdNum, s');
      if n' == n && s1' == s1.(continueOnError := Some(log)) {
        if n.Success? {
          SameBody(data, le, n.value, ifdNum + 1, s1, log);
        }
      } else if n'.Success? {
        var (r', t') := BodySpec(data, le, n'.value, ifdNum + 1, s1');
        var r: Result<(), Error> := Failure(n.error);
        BodyExtends(data, le, n'.value, ifdNum + 1, s1');
        SameRunExtends(r, s1, s1', r', t', log, data, ifdNum + 1, MAX_IFDS, Tiff);
      }
    }
  }

  lemma {:induction false} SameParse(data: seq<byte>, s: ParserState, log: seq<Error>)
    requires s.continueOnError.None?
    ensures var (r, t) := ParseSpec(data, s);
      var (r', t') := ParseSpec(data, s.(continueOnError := Some(log)));
      SameRun(r, t, r', t', log)
  {
    if |data| >= 8 {
      var bo := LoadU16(data, 0, false);
      if bo == TIFF_BE || bo == TIFF_LE {
        var le := bo == TIFF_LE;
        var s0 := s.(littleEndian := le);
        assert s.(continueOnError := Some(log)).(littleEndian := le) == s0.(continueOnError := Some(log));
        if LoadU16(data, 2, le) == TIFF_FORTY_TWO {
          var ofs := LoadU32(data, 4, le);
          SameBody(data, le, ofs, 0, s0, log);
          BodyExtends(data, le, ofs, 0, s0);
          var (b, s1) := BodySpec(data, le, ofs, 0, s0);
          var (b', s1') := BodySpec(data, le, ofs, 0, s0.(continueOnError := Some(log)));
          if b'.Failure? {
            var t' := CheckError(s1', b'.error).1;
            assert s1'.continueOnError.value <= t'.continueOnError.value;
          }
        }
      }
    }
  }

  /**
   * A parser run in continue-on-error mode reports, as the first entry of
   * its log, exactly the error a strict parser stops with, and collects at
   * least the fields the strict parser had collected; when the strict parse
   * succeeds, the continuing one collects the same fields and logs nothing.
   */
  lemma StrictAndContinueAgree(data: seq<byte>)
    ensures var (r, t) := ParseSpec(data, NEW_PARSER);
      var (r', t') := ParseSpec(data, TOLERANT);
      && (r.Success? ==> r'.Success? && t'.entries == t.entries && t'.continueOnError == Some([]))
      && (r.Failure? && r'.Success? ==>
            t.entries <= t'.entries && t'.continueOnError.Some? && |t'.continueOnError.value| > 0 && t'.continueOnError.value[0] == r.error)
  {
    SameParse(data, NEW_PARSER, []);
  }

  /**
   * `parse_ifd_entry` on the 12 bytes at `offset`: the entry-count overflow
   * check never fires (a unit is at most 8 bytes and the count is 32-bit),
   * so the only error is a value longer than 4 bytes whose stored offset
   * points past the end of `data`. A value of at most 4 bytes (including
   * every value of unknown type) is read in place at `offset + 8`.
   */
  lemma ParseIfdEntryCases(data: seq<byte>, offset: nat, le: bool)
    requires offset + 12 <= |data|
    ensures var r := ParseIfdEntry(data, offset, le);
      var typ := LoadU16(data, offset + 2, le);
      var cnt := LoadU32(data, offset + 4, le);
      var vallen := UnitLen(typ) * cnt;
      && (r.Failure? <==> 4 < vallen && |data| < LoadU32(data, offset + 8, le) + vallen)
      && (r.Failure? ==> r.error == InvalidFormat("Truncated field value"))
      && (r.Success? ==>
            && r.value.0 == LoadU16(data, offset, le)
            && r.value.1 == Unknown(typ, cnt, r.value.1.ofs)
            && r.value.1.ofs + vallen <= |data|
            && (vallen <= 4 ==> r.value.1.ofs == (offset + 8) % U32_LIMIT)
            && (4 < vallen ==> r.value.1.ofs == LoadU32(data, offset + 8, le)))
  {
    var cnt := LoadU32(data, offset + 4, le);
    var unit := UnitLen(LoadU16(data, offset + 2, le));
    assert unit * cnt <= 8 * cnt < USIZE_MAX;
  }

  /**
   * Every field `parse_exif` returns belongs to one of the first 8 top-level
   * IFDs, is not an IFD pointer, and has been decoded: it keeps the type and
   * count of its entry and is left `Unknown` exactly when that type is not
   * one of the twelve TIFF types.
   */
  lemma ParseExifFields(data: seq<byte>)
    ensures var r := ParseExifSpec(data);
      r.Success? ==>
        && (r.value.1 <==> data[0] == 0x49)
        && forall f :: f in r.value.0 ==>
             && f.ifdNum < MAX_IFDS
             && ChildContext(f.tag).None?
             && (f.value.Unknown? <==> UnitLen(TypeCode(f.value)) == 0)
  {
    HeaderGate(data, NEW_PARSER);
    ParseExtends(data, NEW_PARSER);
    var (res, s) := ParseSpec(data, NEW_PARSER);
    if res.Success? {
      SignatureBytes(data);
      var fs := MaterializeAll(s.entries, data, s.littleEndian);
      forall f | f in fs
        ensures f.ifdNum < MAX_IFDS && ChildContext(f.tag).None?
        ensures f.value.Unknown? <==> UnitLen(TypeCode(f.value)) == 0
      {
        var i :| 0 <= i < |fs| && fs[i] == f;
        assert NewField(s.entries[i], data, 0, MAX_IFDS, Tiff);
      }
    }
  }
}
