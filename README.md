# Exif reading in argus, modelled in Dafny

argus is a photo manager. It reads the Exif metadata of images with a vendored
copy of the `exif` crate (exif-rs). It also tags images from the text output of
exiftool, and it stores files in a content-addressed layout. This project
models the core of that metadata path and proves properties of the model:

- **TIFF/Exif attribute walk** (`tiff.rs`): the `Parser` checks the header,
  then walks IFD 0, IFD 1 and so on, up to eight directories. It follows the
  Exif, GPS and Interoperability pointers into child directories. Each 12-byte
  entry becomes an `IfdEntry` whose value stays deferred (`Value::Unknown`)
  until `parse`/`ref_field`/`into_field` decode it. With `continue_on_error`
  the parser collects recoverable errors instead of stopping. `parse_exif`
  runs the parser and decodes every entry. `is_tiff` recognises the two
  signatures.
- **Exif date/time text** (`tiff.rs`): `DateTime::from_ascii`,
  `parse_subsec` and `parse_offset`.
- **Exif in PNG** (`png.rs`): `get_exif_attr` checks the PNG signature, then
  scans the chunks for `eXIf`. `is_png` is also modelled.
- **exiftool output** (`tag.rs`): `Tag::parse` turns `name: value` lines into
  a map where the last occurrence wins. `Tag::get` looks up an entry.
  `pack_tags` selects the front-page fields of `EXIF_INFOS_FRONT` that are
  present, in table order.
- **GPS values** (`gps_util.rs`): `Direction`, with its one-letter
  `Display`, its lenient `from_str` and its `South` default, and
  `GpsInfo::new`.
- **Storage layout** (`file_hash_util.rs`): `hash_to_file_path` builds the
  nested hash-prefix directories. The buffer-size rule picks the read buffer
  for hashing.

The model takes the source's own form:

- State that the source changes in place becomes a Dafny `class`:
  - the TIFF `Parser` and its `IfdEntry` cells;
  - the `DateTime` that `parse_subsec`/`parse_offset` fill in;
  - the PNG byte reader;
  - the exiftool `Tag` map.
- Each of its methods ensures that its result and new state are those of a
  pure specification function of the old state. The properties are proved
  about those functions.
- Pure code becomes functions and lemmas.
- Loops stay loops, with invariants: the top-level IFD chain
  (`Parser.ParseBody`), the entry loop, the chunk scan, the sub-second digit
  loops, the `into_field` loop of `parse_exif` (`IntoFields`), the
  `Tag::parse` line loop, the `pack_tags` selection and the directory-level
  loop.

`value.rs`, `endian.rs`, `util.rs`, `error.rs` and the crate's `tag.rs` are
not part of this model. Their behaviour comes from section 2 of TIFF 6.0 and
from the call sites:

- the type widths;
- big/little-endian loads;
- the decoded value kinds;
- `get_uint`;
- the error kinds.

Module map:
- `Endian`: byte loads and stores.
- `Value`: TIFF field types and decoding.
- `ExifError`: error kinds.
- `TiffIfd`: the specification of the walk and its lemmas.
- `TiffParser`: the `Parser` and `IfdEntry` classes.
- `TiffProps`: header, signature and error-policy theorems.
- `TiffExamples`: the crate's TIFF test inputs.
- `TiffContinueExamples`: the crate's `continue_on_error` test inputs.
- `TiffDateTime`: date/time text.
- `Png`: PNG.
- `Text`: the `str` operations the argus helpers use.
- `ExiftoolTag`: the exiftool `Tag` map.
- `GpsUtil` and `GpsUtilExamples`: GPS directions.
- `FileHashUtil`: the storage layout.
- `Wrappers`: `Option` and `Result`.

## Model

| member | source | states |
|---|---|---|
| Endian.LoadStoreU16 | rp/rust/exif-rs-master/src/tiff.rs:157 | a 16-bit load reads back the stored value in either byte order |
| Endian.LoadStoreU32 | rp/rust/exif-rs-master/src/png.rs:39 | a 32-bit load reads back a stored value at any position, in either byte order |
| Endian.LoadU32Prefix | rp/rust/exif-rs-master/src/tiff.rs:247 | a 32-bit load depends only on the four bytes it covers, not on what follows |
| Value.UnitLen | rp/rust/exif-rs-master/src/tiff.rs:66-67 | the unit width is 1, 2, 4 or 8 for the twelve TIFF types and 0 for any other type code (iff) |
| Value.Decode | rp/rust/exif-rs-master/src/tiff.rs:67-69 | decoding a known type never yields Unknown, and keeps the type code and the unit count |
| Value.ParseValue | rp/rust/exif-rs-master/src/tiff.rs:63-74 | a deferred value stays Unknown iff its type is unknown, and is then unchanged; type and count are kept |
| Value.GetUint | rp/rust/exif-rs-master/src/tiff.rs:280-281 | an element is returned iff the value is BYTE, SHORT or LONG and the index is below its count |
| Value.DecodeUnsignedAt | rp/rust/exif-rs-master/src/tiff.rs:280-281 | element `i` of a decoded BYTE, SHORT or LONG value, read with `get_uint`, is the unsigned unit stored at `offset + i * width` in the value's byte order |
| Value.DecodeSignedAt | rp/rust/exif-rs-master/src/tiff.rs:63-74 | element `i` of a decoded SBYTE, SSHORT or SLONG value is the two's-complement reading of the unit at `offset + i * width` |
| Value.PointerOffset | rp/rust/exif-rs-master/src/tiff.rs:276-281 | a LONG pointer of count one yields, through `get_uint(0)`, the 32-bit word stored at its offset |
| TiffIfd.ChildContext | rp/rust/exif-rs-master/src/tiff.rs:225-238 | exactly the Exif, GPS and Interoperability pointer tags open a child directory, each of strictly lower rank than its parent |
| TiffIfd.CheckError | rp/rust/exif-rs-master/src/tiff.rs:288-293 | in strict mode the error is returned unchanged; in tolerant mode it is appended to the collected errors and parsing goes on |
| TiffIfd.ParseIfdEntry | rp/rust/exif-rs-master/src/tiff.rs:251-271 | a successfully read entry has a deferred value whose bytes lie inside the data |
| TiffIfd.IfdSpec | rp/rust/exif-rs-master/src/tiff.rs:200-249 | reading a directory keeps the byte order and the error mode; in continue-on-error mode it fails only on the directory layout: a truncated count, entry array or next-IFD offset |
| TiffIfd.EntriesSpec | rp/rust/exif-rs-master/src/tiff.rs:210-248 | the entry loop keeps the byte order and mode; in continue-on-error mode it fails only with "Truncated IFD" or "Truncated next IFD offset" |
| TiffIfd.EntrySpec | rp/rust/exif-rs-master/src/tiff.rs:215-240 | one entry keeps the byte order and mode, and never fails in continue-on-error mode: a bad entry or child is logged instead |
| TiffIfd.ChildSpec | rp/rust/exif-rs-master/src/tiff.rs:273-286 | following a pointer keeps the byte order and mode; in continue-on-error mode it fails only on the child's layout, an "Invalid pointer" or an "Unexpected next IFD" |
| TiffIfd.BodySpec | rp/rust/exif-rs-master/src/tiff.rs:181-197 | the IFD chain keeps the byte order and mode; in continue-on-error mode it fails only on a directory's layout or on "Limit the IFD count to 8" |
| TiffIfd.HeaderSpec | rp/rust/exif-rs-master/src/tiff.rs:170-179 | the header keeps the byte order and mode, and in continue-on-error mode fails only with "Invalid forty two", since the chain's error is logged |
| TiffIfd.ParseSpec | rp/rust/exif-rs-master/src/tiff.rs:152-168 | a successful parse had at least 8 bytes and records little-endian iff they start with `II`; the error mode is kept; in continue-on-error mode only the three header errors are returned |
| TiffIfd.ParseExifSpec | rp/rust/exif-rs-master/src/tiff.rs:128-133 | `parse_exif` succeeds iff the parse of a fresh parser does, returns one field per collected entry, and reports little-endian iff the data starts with `II` |
| TiffIfd.MaterializeAll | rp/rust/exif-rs-master/src/tiff.rs:132 | decoding every entry keeps their number, order, tags and IFD numbers, and gives each the type code it was read with |
| TiffIfd.IfdExtends | rp/rust/exif-rs-master/src/tiff.rs:200-249 | reading a directory only appends fields, each with an in-bounds deferred value, and keeps the error log growing |
| TiffIfd.EntriesExtends | rp/rust/exif-rs-master/src/tiff.rs:211-241 | the entry loop only appends well-formed fields |
| TiffIfd.EntryExtends | rp/rust/exif-rs-master/src/tiff.rs:215-240 | one entry, and the child directory it may point to, only append well-formed fields |
| TiffIfd.ChildExtends | rp/rust/exif-rs-master/src/tiff.rs:273-286 | following a pointer only appends well-formed fields |
| TiffIfd.BodyExtends | rp/rust/exif-rs-master/src/tiff.rs:181-197 | the IFD chain only appends well-formed fields with IFD numbers below eight |
| TiffIfd.ParseExtends | rp/rust/exif-rs-master/src/tiff.rs:152-179 | a whole parse only appends well-formed fields to a fresh parser |
| TiffIfd.IsTiff | rp/rust/exif-rs-master/src/tiff.rs:296-298 | true iff the buffer starts with the big-endian or the little-endian TIFF signature |
| TiffParser.IfdEntry.constructor | rp/rust/exif-rs-master/src/tiff.rs:234-235 | a new entry holds the field as read, not yet fixed |
| TiffParser.IfdEntry.IfdNumTag | rp/rust/exif-rs-master/src/tiff.rs:31-39 | returns the entry's IFD number and tag without changing it |
| TiffParser.IfdEntry.Parse | rp/rust/exif-rs-master/src/tiff.rs:51-61 | decodes a deferred value in place; an already fixed entry is left unchanged |
| TiffParser.IfdEntry.RefField | rp/rust/exif-rs-master/src/tiff.rs:41-44 | returns the field, decoded if it was still deferred, and leaves the entry fixed |
| TiffParser.IfdEntry.IntoField | rp/rust/exif-rs-master/src/tiff.rs:46-49 | returns the field, decoded if it was still deferred, and unchanged if already fixed |
| TiffParser.Parser.constructor | rp/rust/exif-rs-master/src/tiff.rs:144-150 | a new parser has no entries, big-endian order and strict error handling |
| TiffParser.Parser.Parse | rp/rust/exif-rs-master/src/tiff.rs:152-168 | result and new state are those of the specification of the whole walk |
| TiffParser.Parser.ParseHeader | rp/rust/exif-rs-master/src/tiff.rs:170-179 | checks the magic 42, records the byte order and walks from the first IFD offset, as the specification does |
| TiffParser.Parser.ParseBody | rp/rust/exif-rs-master/src/tiff.rs:181-197 | the IFD chain, as the specification does |
| TiffParser.Parser.ParseIfd | rp/rust/exif-rs-master/src/tiff.rs:200-208 | one directory, as the specification does |
| TiffParser.Parser.ParseEntries | rp/rust/exif-rs-master/src/tiff.rs:210-248 | the entry loop, as the specification does |
| TiffParser.Parser.ParseEntry | rp/rust/exif-rs-master/src/tiff.rs:212-240 | one entry, as the specification does |
| TiffParser.Parser.ParseChildIfd | rp/rust/exif-rs-master/src/tiff.rs:273-286 | following a pointer, as the specification does |
| TiffParser.Parser.CheckError | rp/rust/exif-rs-master/src/tiff.rs:288-293 | the strict/tolerant error policy on the parser's state |
| TiffParser.ParseExif | rp/rust/exif-rs-master/src/tiff.rs:128-133 | the fields are the decoded entries of the specified walk, with the byte order |
| TiffParser.IntoFields | rp/rust/exif-rs-master/src/tiff.rs:132 | every entry decoded, in order |
| TiffProps.HeaderGate | rp/rust/exif-rs-master/src/tiff.rs:152-176 | a parse succeeds only on at least 8 bytes carrying a TIFF signature; `II` selects little-endian and `MM` big-endian; under 8 bytes is exactly "Truncated TIFF header", any other byte-order mark "Invalid TIFF byte order", and a mark without 42 "Invalid forty two" with that mark's byte order recorded, the state otherwise unchanged |
| TiffProps.SignatureBytes | rp/rust/exif-rs-master/src/tiff.rs:296-298 | the byte-order and magic-42 loads succeed exactly on the two four-byte TIFF signatures |
| TiffProps.ContinueFailsOnlyOnHeader | rp/rust/exif-rs-master/src/tiff.rs:170-179 | in tolerant mode a parse succeeds iff the data has at least 8 bytes and a TIFF signature |
| TiffProps.TolerantSkipsEntry | rp/rust/exif-rs-master/src/tiff.rs:219-223 | in continue-on-error mode an entry that cannot be read is appended to the error log and the loop goes on with the next entry |
| TiffProps.TolerantSkipsChild | rp/rust/exif-rs-master/src/tiff.rs:225-240 | in continue-on-error mode a child directory that fails is appended to the log after what it collected and logged itself, and the loop goes on with the next entry |
| TiffProps.TolerantChainStops | rp/rust/exif-rs-master/src/tiff.rs:170-197 | in continue-on-error mode a TIFF parse succeeds; the IFD chain stops at its first failing directory, whose error is logged last, after everything collected before it |
| TiffProps.HeaderDispatch | rp/rust/exif-rs-master/src/tiff.rs:152-176 | past a TIFF signature, `parse` is `parse_header` in the byte order of the mark, and the magic 42 is in place |
| TiffProps.TolerantHeader | rp/rust/exif-rs-master/src/tiff.rs:170-179 | `parse_header` in continue-on-error mode succeeds and logs the chain's error last |
| TiffProps.SameIfd | rp/rust/exif-rs-master/src/tiff.rs:200-249 | a strict and a tolerant run of one directory agree as long as the strict one succeeds, and the tolerant one logs the strict error otherwise |
| TiffProps.SameEntries | rp/rust/exif-rs-master/src/tiff.rs:210-241 | the same for the entry loop |
| TiffProps.SameEntry | rp/rust/exif-rs-master/src/tiff.rs:215-240 | the same for one entry |
| TiffProps.SameChild | rp/rust/exif-rs-master/src/tiff.rs:273-293 | the same for a child directory |
| TiffProps.SameBody | rp/rust/exif-rs-master/src/tiff.rs:181-197 | the same for the IFD chain |
| TiffProps.SameParse | rp/rust/exif-rs-master/src/tiff.rs:152-197 | the same for a whole parse |
| TiffProps.StrictAndContinueAgree | rp/rust/exif-rs-master/src/tiff.rs:754-783 | when a strict parse succeeds, a tolerant one yields the same entries and logs nothing; when the strict one fails and the tolerant one succeeds, the tolerant one keeps at least the strict entries and logs the strict error first |
| TiffProps.ParseIfdEntryCases | rp/rust/exif-rs-master/src/tiff.rs:251-271 | an entry fails with "Truncated field value" iff its value is longer than four bytes and runs past the data; otherwise it is deferred with its tag, type and count, at the inline position when it fits in four bytes and at the stored offset when not |
| TiffProps.ParseExifFields | rp/rust/exif-rs-master/src/tiff.rs:128-133 | the little-endian flag is set iff the data starts with `II`; every returned field has an IFD number below eight, is not a pointer tag, and stays Unknown iff its type is unknown |
| TiffExamples.MinimalWalk | rp/rust/exif-rs-master/src/tiff.rs:562-567 | the minimal big-endian TIFF walks to one deferred ImageWidth entry |
| TiffExamples.Minimal | rp/rust/exif-rs-master/src/tiff.rs:562-567 | `parse_exif` on it gives ImageWidth = SHORT 20 in IFD 0, big-endian |
| TiffExamples.MinimalWidth | rp/rust/exif-rs-master/src/tiff.rs:562-567 | its ImageWidth entry decodes to SHORT 20 |
| TiffExamples.Truncated | rp/rust/exif-rs-master/src/tiff.rs:562-571 | every proper prefix of the minimal TIFF fails to parse |
| TiffExamples.FirstIfdFails | rp/rust/exif-rs-master/src/tiff.rs:191-193 | a TIFF whose IFD 0 cannot be read fails to parse |
| TiffExamples.SelfLoopBody | rp/rust/exif-rs-master/src/tiff.rs:183-190 | an IFD chain in which every IFD points back to offset 8 stops with "Limit the IFD count to 8" |
| TiffExamples.SelfLoopIfd | rp/rust/exif-rs-master/src/tiff.rs:575-581 | the self-pointing IFD of the loop test reads one entry and points back to offset 8 |
| TiffExamples.InfLoopByNext | rp/rust/exif-rs-master/src/tiff.rs:575-581 | the next-IFD loop of the test fails with "Limit the IFD count to 8" instead of diverging |
| TiffExamples.InfLoopByExifNext | rp/rust/exif-rs-master/src/tiff.rs:583-592 | an Exif IFD with a next-IFD pointer fails with "Unexpected next IFD" |
| TiffExamples.UnknownField | rp/rust/exif-rs-master/src/tiff.rs:594-601 | an entry of unknown type stays Unknown with its type, count and offset |
| TiffExamples.EntryByteInline | rp/rust/exif-rs-master/src/tiff.rs:606-608 | a BYTE entry of four units is read inline |
| TiffExamples.EntryByteOutOfLine | rp/rust/exif-rs-master/src/tiff.rs:609-611 | a BYTE entry of five units is read through its offset |
| TiffExamples.EntryByteTruncated | rp/rust/exif-rs-master/src/tiff.rs:612-614 | a BYTE entry past the data is Truncated |
| TiffExamples.EntryShortInline | rp/rust/exif-rs-master/src/tiff.rs:617-619 | a SHORT entry of two units is read inline |
| TiffExamples.EntryShortOutOfLine | rp/rust/exif-rs-master/src/tiff.rs:620-622 | a SHORT entry of three units is read through its offset |
| TiffExamples.EntryShortTruncated | rp/rust/exif-rs-master/src/tiff.rs:623-625 | a SHORT entry past the data is Truncated |
| TiffExamples.EntryUnknownType | rp/rust/exif-rs-master/src/tiff.rs:628-630 | an entry of unknown type is deferred with its raw type, count and offset |
| TiffContinueExamples.ContinueNoIfd | rp/rust/exif-rs-master/src/tiff.rs:785-790 | without IFD 0 a strict parse fails with "Truncated IFD count"; a tolerant one succeeds with no fields and logs that error |
| TiffContinueExamples.ContinueTruncatedEntry | rp/rust/exif-rs-master/src/tiff.rs:791-799 | a cut second entry fails a strict parse with "Truncated IFD"; a tolerant one keeps the ImageWidth SHORT field and logs that error |
| TiffContinueExamples.ContinueBrokenEntry | rp/rust/exif-rs-master/src/tiff.rs:800-808 | a first entry whose value runs past the data fails a strict parse with "Truncated field value"; a tolerant one skips it, keeps the ImageLength SHORT field and logs that error |
| TiffContinueExamples.ContinueExifNext | rp/rust/exif-rs-master/src/tiff.rs:809-822 | an Exif IFD with a next-IFD offset fails a strict parse with "Unexpected next IFD"; a tolerant one keeps ExifVersion (UNDEFINED) and tag 65000 (SLONG) and logs "Unexpected next IFD" then "Truncated IFD count" |
| TiffContinueExamples.ContinueBadPointerType | rp/rust/exif-rs-master/src/tiff.rs:823-835 | an Exif pointer of SLONG type, which `get_uint` refuses, fails a strict parse with "Invalid pointer"; a tolerant parse keeps tag 65000 (SBYTE) and logs that error |
| TiffContinueExamples.ContinueEmptyPointer | rp/rust/exif-rs-master/src/tiff.rs:836-848 | an Exif pointer of count zero fails a strict parse with "Invalid pointer"; a tolerant one keeps tag 65000 (SSHORT) and logs that error |
| TiffContinueExamples.FirstIfdPolicy | rp/rust/exif-rs-master/src/tiff.rs:181-197 | when IFD 0 fails, the whole parse is the error policy applied to that error |
| TiffDateTime.Ctou32 | rp/rust/exif-rs-master/src/tiff.rs:360 | a character's digit value is defined iff it is an ASCII digit |
| TiffDateTime.Atou16 | rp/rust/exif-rs-master/src/tiff.rs:341-346 | an all-digit field reads as its decimal value, and anything else fails |
| TiffDateTime.FromAscii | rp/rust/exif-rs-master/src/tiff.rs:331-350 | a parsed date and time came from at least 19 bytes with the delimiters in place; a failure is BlankValue, "DateTime too short", "Invalid DateTime delimiter" or "Not a number" |
| TiffDateTime.FromAsciiExifText | rp/rust/exif-rs-master/src/tiff.rs:331-350 | the Exif text of a date and time parses back to that date and time |
| TiffDateTime.FromAsciiOfFields | rp/rust/exif-rs-master/src/tiff.rs:331-350 | text with digit fields in the right places parses to those fields' values |
| TiffDateTime.FromAsciiFields | rp/rust/exif-rs-master/src/tiff.rs:331-350 | a successful parse means a 19-byte prefix with the delimiters in place, not blank, with the six fields read as decimals |
| TiffDateTime.FromAsciiOnlyExifText | rp/rust/exif-rs-master/src/tiff.rs:331-350 | the first 19 bytes of any successfully parsed text are the Exif text of the parsed date and time |
| TiffDateTime.SubsecField | rp/rust/exif-rs-master/src/tiff.rs:356-365 | the sub-second field is a prefix of the data of at most nine bytes |
| TiffDateTime.SubsecSpec | rp/rust/exif-rs-master/src/tiff.rs:353-375 | a parsed sub-second value is below one billion nanoseconds |
| TiffDateTime.Nanos | rp/rust/exif-rs-master/src/tiff.rs:366-373 | scaling a value of up to nine digits to nine decimal places stays below one billion |
| TiffDateTime.OffsetSpec | rp/rust/exif-rs-master/src/tiff.rs:378-395 | a parsed offset lies within plus or minus 6039 minutes |
| TiffDateTime.OffsetTextRoundTrip | rp/rust/exif-rs-master/src/tiff.rs:378-395 | every offset written as `±HH:MM` parses back to itself |
| TiffDateTime.DateTime.constructor | rp/rust/exif-rs-master/src/tiff.rs:331-350 | builds the date and time of `from_ascii`, with no sub-second or offset yet |
| TiffDateTime.DateTime.ParseSubsec | rp/rust/exif-rs-master/src/tiff.rs:353-375 | sets the nanoseconds as the specification says and changes nothing on failure |
| TiffDateTime.DateTime.ParseOffset | rp/rust/exif-rs-master/src/tiff.rs:378-395 | sets the offset as the specification says and changes nothing on failure |
| TiffDateTime.ReadSubsecDigits | rp/rust/exif-rs-master/src/tiff.rs:356-365 | the digit loop computes the sub-second field's decimal value and its length, or the first non-digit error |
| TiffDateTime.ScaleToNanos | rp/rust/exif-rs-master/src/tiff.rs:369-371 | the scaling loop computes the value scaled to nine decimal places |
| TiffDateTime.DateTimeExample | rp/rust/exif-rs-master/src/tiff.rs:635-636 | the test date parses to its six fields |
| TiffDateTime.SubsecExample987 | rp/rust/exif-rs-master/src/tiff.rs:639-640 | `987` gives 987000000 ns |
| TiffDateTime.SubsecExample000987 | rp/rust/exif-rs-master/src/tiff.rs:641-642 | `000987` gives 987000 ns |
| TiffDateTime.SubsecExampleTenDigits | rp/rust/exif-rs-master/src/tiff.rs:645-646 | digits past the ninth are ignored |
| TiffDateTime.SubsecExampleTrailingSpaces | rp/rust/exif-rs-master/src/tiff.rs:647-648 | trailing spaces end the field |
| TiffDateTime.SubsecExamplesShort | rp/rust/exif-rs-master/src/tiff.rs:649-654 | short and empty fields scale as the tests expect |
| TiffDateTime.SubsecNonDigit | rp/rust/exif-rs-master/src/tiff.rs:356-362 | a non-digit before a space is InvalidFormat; anything after a space is ignored |
| TiffDateTime.OffsetExample0123 | rp/rust/exif-rs-master/src/tiff.rs:658-663 | `+01:23` and `-01:23` give plus and minus 83 minutes |
| TiffDateTime.OffsetExample9999 | rp/rust/exif-rs-master/src/tiff.rs:660-665 | `±99:99` is accepted as plus or minus 6039 minutes |
| TiffDateTime.OffsetBlank | rp/rust/exif-rs-master/src/tiff.rs:379-380 | both blank forms of the offset are BlankValue |
| TiffDateTime.OffsetBadSign | rp/rust/exif-rs-master/src/tiff.rs:386-391 | an offset without a sign is InvalidFormat, and a non-digit hour is "Not a number" |
| Png.Reader.IsEof | rp/rust/exif-rs-master/src/png.rs:34 | true iff no bytes are left |
| Png.Reader.ReadExact | rp/rust/exif-rs-master/src/png.rs:28 | takes exactly the requested bytes off the front, or fails with UnexpectedEof and consumes what was left |
| Png.Reader.DiscardExact | rp/rust/exif-rs-master/src/png.rs:48-49 | drops exactly the requested bytes, or fails with UnexpectedEof |
| Png.NextChunk | rp/rust/exif-rs-master/src/png.rs:37-49 | one chunk step: the eXIf payload or an error ends the scan as the specification says, and any other chunk is consumed without changing the scan's outcome |
| Png.GetExifAttrSub | rp/rust/exif-rs-master/src/png.rs:25-51 | the result is the specified signature check followed by the chunk scan |
| Png.GetExifAttr | rp/rust/exif-rs-master/src/png.rs:14-21 | the result and the remaining input are those of the specification: the signature check, the chunk scan, and end of file reported as "Broken PNG file" |
| Png.Scan | rp/rust/exif-rs-master/src/png.rs:33-50 | the scan leaves no more than its input; a found payload and what is left fit after an 8-byte chunk header; end of input and NotFound leave nothing |
| Png.ScanLeavesSuffix | rp/rust/exif-rs-master/src/png.rs:28-49 | what the scan leaves is the end of its input: the reader only drops bytes from the front |
| Png.ExifAttrSub | rp/rust/exif-rs-master/src/png.rs:25-51 | what is left is no more than the input; a found payload comes from a PNG and fits, with what is left, after the signature and a chunk header |
| Png.ExifAttrState | rp/rust/exif-rs-master/src/png.rs:14-21 | end of input never escapes `get_exif_attr`, and it succeeds iff `get_exif_attr_sub` does |
| Png.ExifAttr | rp/rust/exif-rs-master/src/png.rs:14-21 | a found payload comes from a PNG at least 16 bytes longer than it: signature and chunk header |
| Png.IsPng | rp/rust/exif-rs-master/src/png.rs:53-55 | true iff the buffer starts with the eight-byte PNG signature |
| Png.SignatureGate | rp/rust/exif-rs-master/src/png.rs:16-31 | under 8 bytes is "Broken PNG file"; without the PNG signature, "Not a PNG file"; otherwise the chunk scan decides, with end of file turned into "Broken PNG file" |
| Png.AfterSignature | rp/rust/exif-rs-master/src/png.rs:27-33 | with the signature, the result is that of the chunk scan over the rest |
| Png.ChunkHeader | rp/rust/exif-rs-master/src/png.rs:37-41 | a chunk's length and type are read from its first eight bytes |
| Png.ScanSkip | rp/rust/exif-rs-master/src/png.rs:47-49 | a whole non-eXIf chunk with its CRC is skipped |
| Png.ScanFound | rp/rust/exif-rs-master/src/png.rs:42-46 | a whole eXIf chunk's data is returned |
| Png.ScanSkipAll | rp/rust/exif-rs-master/src/png.rs:33-50 | any run of well-formed non-eXIf chunks is skipped |
| Png.ExifAttrFound | rp/rust/exif-rs-master/src/png.rs:25-51 | a PNG whose eXIf chunk follows other chunks yields that chunk's data |
| Png.ExifAttrNotFound | rp/rust/exif-rs-master/src/png.rs:34-36 | a PNG without an eXIf chunk is NotFound("PNG") |
| Png.ScanCutChunk | rp/rust/exif-rs-master/src/png.rs:37-49 | a chunk cut short ends the scan with UnexpectedEof |
| Png.ScanCutExif | rp/rust/exif-rs-master/src/png.rs:37-45 | an eXIf chunk cut short ends the scan with UnexpectedEof |
| Png.ScanPrefixFails | rp/rust/exif-rs-master/src/png.rs:33-50 | every proper prefix of a run of other chunks followed by an eXIf chunk fails: with NotFound when it ends at a chunk boundary, with UnexpectedEof otherwise |
| Png.ExifAttrPrefixFails | rp/rust/exif-rs-master/src/png.rs:14-51 | every proper prefix of such a PNG fails: NotFound when it ends after the signature at a chunk boundary, InvalidFormat("Broken PNG file") otherwise |
| Png.ScanNoLengthOverflow | rp/rust/exif-rs-master/src/png.rs:48-49 | the "Invalid chunk length" branch cannot be taken with a 64-bit `usize` |
| Png.ExifAttrErrors | rp/rust/exif-rs-master/src/png.rs:16-20 | `get_exif_attr` fails only with "Broken PNG file", "Not a PNG file" or NotFound |
| Png.ScanErrors | rp/rust/exif-rs-master/src/png.rs:33-50 | the chunk scan fails only with UnexpectedEof, NotFound or "Invalid chunk length" |
| Png.TruncatedExamples | rp/rust/exif-rs-master/src/png.rs:62-71 | the short inputs of the truncation test fail as expected |
| Png.TruncatedFull | rp/rust/exif-rs-master/src/png.rs:73-77 | the test PNG yields its eXIf data; every proper prefix of it fails, the bare signature with NotFound and every other one as a broken file |
| Png.NoExifExample | rp/rust/exif-rs-master/src/png.rs:81-85 | the bare PNG signature, with no chunks, is NotFound |
| Png.EmptyPayloadExample | rp/rust/exif-rs-master/src/png.rs:87-90 | an empty eXIf chunk yields no data |
| Png.NonEmptyPayloadExample | rp/rust/exif-rs-master/src/png.rs:93-96 | a two-byte eXIf chunk yields its two bytes |
| Text.TrimStart | argus-src/src-tauri/src/utils/exif_utils/gps_util.rs:149 | the result is a suffix of the input that does not begin with white space |
| Text.TrimStartRemoves | argus-src/src-tauri/src/utils/exif_utils/gps_util.rs:149 | what `trim_start` removes is white space |
| Text.TrimEnd | argus-src/src-tauri/src/utils/exif_utils/gps_util.rs:149 | the result is a prefix of the input that does not end with white space |
| Text.TrimEndRemoves | argus-src/src-tauri/src/utils/exif_utils/gps_util.rs:149 | what `trim_end` removes is white space |
| Text.TrimSlice | argus-src/src-tauri/src/utils/exif_utils/tag.rs:61-62 | `trim` returns a slice of its input with only white space around it |
| Text.Trim | argus-src/src-tauri/src/utils/exif_utils/tag.rs:61-62 | a trimmed string neither begins nor ends with white space |
| Text.TrimUntrimmed | argus-src/src-tauri/src/utils/exif_utils/gps_util.rs:149 | trimming a string with no white space at its ends changes nothing |
| Text.TrimStartPrefix | argus-src/src-tauri/src/utils/exif_utils/gps_util.rs:149 | `trim_start` removes exactly a leading white-space run |
| Text.TrimEndSuffix | argus-src/src-tauri/src/utils/exif_utils/gps_util.rs:149 | `trim_end` removes exactly a trailing white-space run |
| Text.TrimPadded | argus-src/src-tauri/src/utils/exif_utils/gps_util.rs:149 | a word between white-space runs trims back to the word |
| Text.TrimIdempotent | argus-src/src-tauri/src/utils/exif_utils/gps_util.rs:149 | trimming twice is trimming once |
| Text.LowerChar | argus-src/src-tauri/src/utils/exif_utils/gps_util.rs:149 | an ASCII capital maps to its lower-case letter and every other character to itself |
| Text.ToLower | argus-src/src-tauri/src/utils/exif_utils/gps_util.rs:149 | lower-casing keeps the length |
| Text.ToLowerIdempotent | argus-src/src-tauri/src/utils/exif_utils/gps_util.rs:149 | lower-casing twice is lower-casing once, and no ASCII capital is left |
| Text.FirstIndex | argus-src/src-tauri/src/utils/exif_utils/tag.rs:60 | none iff the character is absent; otherwise the index of its first occurrence |
| Text.SplitOnce | argus-src/src-tauri/src/utils/exif_utils/tag.rs:60 | `split_once` fails iff the separator is absent, and otherwise the first half ends at a separator |
| Text.SplitOnceSpec | argus-src/src-tauri/src/utils/exif_utils/tag.rs:60 | a successful `split_once` splits the text as first half, separator, second half, with no separator in the first half |
| Text.SplitOnceOf | argus-src/src-tauri/src/utils/exif_utils/tag.rs:60 | a split around the first separator is the one `split_once` returns |
| Text.StripCr | argus-src/src-tauri/src/utils/exif_utils/tag.rs:59 | a line loses at most one trailing carriage return |
| Text.LinesCons | argus-src/src-tauri/src/utils/exif_utils/tag.rs:59 | a newline-terminated line in front adds exactly that line, without its carriage return |
| Text.LinesLast | argus-src/src-tauri/src/utils/exif_utils/tag.rs:59 | text without a newline is a single line |
| Text.Lines | argus-src/src-tauri/src/utils/exif_utils/tag.rs:59 | no line contains a newline |
| ExiftoolTag.Tag.constructor | argus-src/src-tauri/src/utils/exif_utils/tag.rs:230-235 | a new tag starts with an empty entry list and an empty map, which agree |
| ExiftoolTag.Tag.Parse | argus-src/src-tauri/src/utils/exif_utils/tag.rs:58-68 | every `name: value` line of the text, trimmed, is appended to the entry list in order, and the map becomes the old map updated with them in order, so later lines win; a map that agreed with the list still does |
| ExiftoolTag.Tag.AddLine | argus-src/src-tauri/src/utils/exif_utils/tag.rs:60-64 | one line updates the map as the specification says |
| ExiftoolTag.Tag.AddLineAt | argus-src/src-tauri/src/utils/exif_utils/tag.rs:59-65 | one pass of the line loop: the entry list and the map gain exactly what line `k` contributes |
| ExiftoolTag.LineEntry | argus-src/src-tauri/src/utils/exif_utils/tag.rs:60-62 | a line contributes an entry whose name and value together are shorter than the line, since a colon separates them |
| ExiftoolTag.Tag.Get | argus-src/src-tauri/src/utils/exif_utils/tag.rs:70-72 | returns the value of the last parsed line with that name, if any |
| ExiftoolTag.Tag.PackTags | argus-src/src-tauri/src/utils/exif_utils/tag.rs:75-88 | the packed pairs are the front-page fields that are present, in table order, with their values |
| ExiftoolTag.Tag.PackSelected | argus-src/src-tauri/src/utils/exif_utils/tag.rs:77-86 | the selection loop over any field table computes the specified selection |
| ExiftoolTag.AddAllAppend | argus-src/src-tauri/src/utils/exif_utils/tag.rs:58-68 | adding two runs of entries is adding their concatenation |
| ExiftoolTag.LookupLast | argus-src/src-tauri/src/utils/exif_utils/tag.rs:63-72 | the built map holds a name iff some entry has it, with the value of the last such entry |
| ExiftoolTag.LastValueNone | argus-src/src-tauri/src/utils/exif_utils/tag.rs:70-72 | no value is found iff no entry has that name |
| ExiftoolTag.LastValueFound | argus-src/src-tauri/src/utils/exif_utils/tag.rs:63-64 | a found value is that of an entry with the name, after which no entry has the name |
| ExiftoolTag.CollectAppend | argus-src/src-tauri/src/utils/exif_utils/tag.rs:59-65 | the entries of two line runs are the entries of each, in order |
| ExiftoolTag.LineWithoutColon | argus-src/src-tauri/src/utils/exif_utils/tag.rs:60 | a line without a colon adds nothing |
| ExiftoolTag.LineWithColon | argus-src/src-tauri/src/utils/exif_utils/tag.rs:60-62 | a line `name: value` adds the trimmed name and value |
| ExiftoolTag.CollectSkipsNone | argus-src/src-tauri/src/utils/exif_utils/tag.rs:59-60 | lines without a colon do not change the collected entries |
| ExiftoolTag.SelectedMember | argus-src/src-tauri/src/utils/exif_utils/tag.rs:77-86 | a pair is selected iff its field is in the table and its name is present, with the stored value |
| ExiftoolTag.SelectedAppend | argus-src/src-tauri/src/utils/exif_utils/tag.rs:77-86 | selecting over two tables is selecting over each, in order |
| ExiftoolTag.SelectedAllPresent | argus-src/src-tauri/src/utils/exif_utils/tag.rs:77-86 | when every name is present, every field of the table is selected |
| ExiftoolTag.SelectedNone | argus-src/src-tauri/src/utils/exif_utils/tag.rs:77-86 | from an empty map nothing is selected |
| GpsUtil.ToString | argus-src/src-tauri/src/utils/exif_utils/gps_util.rs:134-143 | a direction renders as one upper-case letter |
| GpsUtil.Named | argus-src/src-tauri/src/utils/exif_utils/gps_util.rs:151-157 | a word names a direction only as its lower-case full name or its lower-case initial |
| GpsUtil.FromStr | argus-src/src-tauri/src/utils/exif_utils/gps_util.rs:148-158 | an accepted text, once trimmed and lower-cased, is a direction's full name or its initial |
| GpsUtil.DisplayRoundTrip | argus-src/src-tauri/src/utils/exif_utils/gps_util.rs:134-158 | parsing a direction's rendering gives the direction back |
| GpsUtil.LowerRendering | argus-src/src-tauri/src/utils/exif_utils/gps_util.rs:136-141 | the lower-cased rendering is the initial of the direction's name |
| GpsUtil.NamedSpelling | argus-src/src-tauri/src/utils/exif_utils/gps_util.rs:151-157 | a word names a direction iff it is that direction's lower-case initial or full name |
| GpsUtil.FromStrAccepts | argus-src/src-tauri/src/utils/exif_utils/gps_util.rs:148-158 | `from_str` accepts exactly the initial and the full name, up to case and surrounding white space |
| GpsUtil.FromStrPadded | argus-src/src-tauri/src/utils/exif_utils/gps_util.rs:149 | the rendering is accepted between white-space runs |
| GpsUtil.FromStrTrimmed | argus-src/src-tauri/src/utils/exif_utils/gps_util.rs:149 | surrounding white space does not change the result |
| GpsUtil.FromStrCaseInsensitive | argus-src/src-tauri/src/utils/exif_utils/gps_util.rs:149 | case does not change the result |
| GpsUtil.LowerTrimCommute | argus-src/src-tauri/src/utils/exif_utils/gps_util.rs:149 | lower-casing and trimming commute |
| GpsUtil.NewGpsInfo | argus-src/src-tauri/src/utils/exif_utils/gps_util.rs:104-121 | the six fields are as given and errors are tolerated |
| GpsUtil.NewDiffersFromDefault | argus-src/src-tauri/src/utils/exif_utils/gps_util.rs:12-37 | `new` with nothing known differs from the default only in error tolerance |
| GpsUtilExamples.FromStrUpperCase | argus-src/src-tauri/src/utils/exif_utils/gps_util.rs:149-155 | `EAST` is East |
| GpsUtilExamples.FromStrInitial | argus-src/src-tauri/src/utils/exif_utils/gps_util.rs:154 | `w` is West |
| GpsUtilExamples.FromStrBlank | argus-src/src-tauri/src/utils/exif_utils/gps_util.rs:156 | blank text names no direction |
| GpsUtilExamples.FromStrCompound | argus-src/src-tauri/src/utils/exif_utils/gps_util.rs:156 | `south-east` names no direction |
| FileHashUtil.BufferSize | argus-src/src-tauri/src/utils/file_hash_util.rs:30-38 | the buffer is 16, 64 or 256 KiB |
| FileHashUtil.BufferSizeMonotone | argus-src/src-tauri/src/utils/file_hash_util.rs:30-38 | a larger file never gets a smaller buffer |
| FileHashUtil.BufferSizeTiers | argus-src/src-tauri/src/utils/file_hash_util.rs:30-38 | 16 KiB iff below 10 MiB, 64 KiB iff in [10 MiB, 100 MiB), 256 KiB iff from 100 MiB on |
| FileHashUtil.DecimalString | argus-src/src-tauri/src/utils/file_hash_util.rs:154 | a number renders as decimal digits that read back as the number, with no leading zero |
| FileHashUtil.Push | argus-src/src-tauri/src/utils/file_hash_util.rs:149-154 | `PathBuf::push` puts the component last; an absolute component replaces the path, a relative one keeps it in front |
| FileHashUtil.FileName | argus-src/src-tauri/src/utils/file_hash_util.rs:154 | the file name is the compression level's digits, which read back as the level, then `.`, then the suffix |
| FileHashUtil.HashToFilePath | argus-src/src-tauri/src/utils/file_hash_util.rs:133-157 | the path is the base path with the level directories, the hash and the file name pushed in order |
| FileHashUtil.PushAllRelative | argus-src/src-tauri/src/utils/file_hash_util.rs:149-154 | pushing relative components appends them |
| FileHashUtil.HashPathLayout | argus-src/src-tauri/src/utils/file_hash_util.rs:142-156 | for a hash without `/`, the path is the base, one two-character slice per level, the hash, then `<level>.<suffix>` |
| FileHashUtil.LevelDirsJoin | argus-src/src-tauri/src/utils/file_hash_util.rs:145-150 | the level directories together spell the start of the hash |

## Left out

- Display of values, units and IFD numbers (`tiff.rs` `In`'s `Display`, `DisplayValue`, `with_unit`, the `ProvideUnit` lookups): these only format text. `In` is modelled as its IFD number.
- FLOAT and DOUBLE values are kept as their bit patterns. Floating-point arithmetic is not modelled.
- ASCII values are kept as raw bytes. The NUL splitting of `value.rs` is not visible in the modelled files.
- The "Too many IFDs" branch (`tiff.rs:185-186`) is dropped. It cannot be reached, because the walk stops at eight IFDs first.
- `usize` is taken as 64 bits wide. So the `checked_mul` overflow in `parse_ifd_entry` and the `len + 4` overflow in the PNG scan cannot happen. `Png.ScanNoLengthOverflow` proves the latter.
- The stray `Tag::Artist.1` in the pointer match (`tiff.rs:228`) is not modelled. Only the Exif, GPS and Interoperability pointer tags open child directories.
- The Interoperability pointer is recognised inside the Exif directory, where the code looks for it.
- `value.rs`, `endian.rs`, `util.rs`, `error.rs` and the crate's `tag.rs` are not part of this model. Their behaviour is stated from section 2 of TIFF 6.0 and from the call sites.
- `MutOnce` is modelled as a field plus a "fixed" flag. Its run-time borrow checks and panics are not modelled.
- The PNG reader's `BufRead` generality is not modelled. The reader is a byte slice that is consumed from the front. I/O errors other than end of file are not modelled.
- `Tag::parse` consumes and returns the tag. It is modelled as an in-place update of the map.
- The `value_type` of the `ExifInfo` table entries is not modelled. `pack_tags` only selects and copies values.
- `pack_front_tags`, `pack_object` and the JSON rendering are I/O or serialisation, so they are not modelled.
- `DMS::parse_with_exiftool` (`gps_util.rs:179-203`) and `SeaLevel::parse_with_exiftool` (`gps_util.rs:218-223`) are regex and floating-point parsing of exiftool's text output, so they are not modelled. `GpsInfo::parse`, which is built on them, is not modelled either. Note: the altitude reads `GPS_LONGITUDE` at `gps_util.rs:80`.
- `Text.LowerChar` models `to_lowercase` on ASCII only. Other characters are kept.
- `FileHashUtil.HashToFilePath` indexes the hash by characters rather than bytes. A hex digest makes the two the same.
- `FileHashUtil.HashToFilePath` takes the configured directory level as a parameter instead of reading the system configuration.
- Paths are modelled as Unix component lists. The Windows-path tests are not modelled.
- The file hashing itself (`sha256`, `sha256_async`, file reads) and the unfinished `get_hash_dir` are I/O, so they are not modelled.
- `FileHashUtil.BufferSize` follows the code's strict `<` comparisons. The comment at `file_hash_util.rs:33` reads "≤10MB", but the code is followed.
- Concurrency, storage, commands and `constant.rs` are outside the modelled core.
