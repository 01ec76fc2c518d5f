/**
 * The Exif date and time helpers of `tiff.rs`: `DateTime::from_ascii`
 * (the 19-byte "YYYY:MM:DD HH:MM:SS" form), `parse_subsec` (SubsecTime
 * digits scaled to nanoseconds) and `parse_offset` (OffsetTime "+HH:MM"
 * in minutes), with the decimal readers `atou16` and `ctou32` they use.
 */
module TiffDateTime {
  import opened Wrappers
  import opened Endian
  import opened ExifError

  const SPACE: byte := 0x20
  const COLON: byte := 0x3a
  const PLUS: byte := 0x2b
  const MINUS: byte := 0x2d
  const DIGIT_ZERO: byte := 0x30

  /** Number of digits `parse_subsec` reads at most: nanosecond precision. */
  const SUBSEC_DIGITS: nat := 9

  predicate IsDigit(c: byte)
  {
    0x30 <= c <= 0x39
  }

  predicate AllDigits(s: seq<byte>)
  {
    forall i :: 0 <= i < |s| ==> IsDigit(s[i])
  }

  function Pow10(n: nat): (r: nat)
    ensures r >= 1
  {
    if n == 0 then 1 else 10 * Pow10(n - 1)
  }

  /** Helper: the powers of ten that the sub-second examples scale by. */
  lemma Pow10Values()
    ensures Pow10(3) == 1000 && Pow10(6) == 1000000 && Pow10(7) == 10000000 && Pow10(9) == 1000000000
  {
    assert Pow10(3) == 1000;
    assert Pow10(6) == 1000000;
    assert Pow10(7) == 10000000;
  }

  /** The number a string of decimal digits denotes, most significant first. */
  function DecimalValue(s: seq<byte>): (r: nat)
    requires AllDigits(s)
    ensures r < Pow10(|s|)
  {
    if |s| == 0 then 0 else DecimalValue(s[..|s| - 1]) * 10 + (s[|s| - 1] - DIGIT_ZERO)
  }

  /** The `width` decimal digits of `n`, zero-padded on the left (`{:0width}`). */
  function Digits(n: nat, width: nat): (r: seq<byte>)
    ensures |r| == width && AllDigits(r)
  {
    if width == 0 then [] else Digits(n / 10, width - 1) + [DIGIT_ZERO + n % 10]
  }

  /** Reading back the zero-padded rendering of a number gives the number. */
  lemma {:induction false} DecimalDigits(n: nat, width: nat)
    requires n < Pow10(width)
    ensures DecimalValue(Digits(n, width)) == n
  {
    if width > 0 {
      var s := Digits(n, width);
      assert s[..|s| - 1] == Digits(n / 10, width - 1);
      DecimalDigits(n / 10, width - 1);
    }
  }

  /** `ctou32`: one decimal digit. */
  function Ctou32(c: byte): (r: Result<nat, Error>)
    ensures r.Success? <==> IsDigit(c)
    ensures r.Success? ==> r.value == DecimalValue([c]) && r.value < 10
    ensures r.Failure? ==> r.error == InvalidFormat("Not a number")
  {
    if IsDigit(c) then Success(c - DIGIT_ZERO) else Failure(InvalidFormat("Not a number"))
  }

  /** `atou16`: a non-empty string of decimal digits (at most 4, so it fits in 16 bits). */
  function Atou16(s: seq<byte>): (r: Result<nat, Error>)
    requires |s| <= 4
    ensures r.Success? <==> |s| > 0 && AllDigits(s)
    ensures r.Success? ==> r.value == DecimalValue(s) && r.value < U16_LIMIT
    ensures r.Failure? ==> r.error == InvalidFormat("Not a number")
  {
    if |s| == 0 || !AllDigits(s) then Failure(InvalidFormat("Not a number"))
    else
      assert Pow10(|s|) <= 10000 by { if |s| < 4 { assert Pow10(|s|) <= Pow10(4); } }
      Success(DecimalValue(s))
  }

  /** The six numbers of a DateTime value, none of them range-checked. */
  datatype Civil = Civil(year: nat, month: nat, day: nat, hour: nat, minute: nat, second: nat)

  const BLANK_DATETIME: seq<byte> :=
    [SPACE, SPACE, SPACE, SPACE, COLON, SPACE, SPACE, COLON, SPACE, SPACE, SPACE,
     SPACE, SPACE, COLON, SPACE, SPACE, COLON, SPACE, SPACE]
  const SPACES_19: seq<byte> := [SPACE, SPACE, SPACE, SPACE, SPACE, SPACE, SPACE, SPACE, SPACE, SPACE, SPACE, SPACE, SPACE, SPACE, SPACE, SPACE, SPACE, SPACE, SPACE]

  /** The delimiter positions of "YYYY:MM:DD HH:MM:SS". */
  predicate DelimitersOk(data: seq<byte>)
    requires |data| >= 19
  {
    data[4] == COLON && data[7] == COLON && data[10] == SPACE && data[13] == COLON && data[16] == COLON
  }

  /**
   * `DateTime::from_ascii`: the blank forms fail with BlankValue; shorter
   * than 19 bytes or a misplaced delimiter is InvalidFormat; then the six
   * numbers are read in order, the first non-number failing.
   */
  function FromAscii(data: seq<byte>): (r: Result<Civil, Error>)
    ensures r.Success? ==> |data| >= 19 && DelimitersOk(data)
    ensures r.Failure? ==> r.error in {BlankValue("DateTime is blank"), InvalidFormat("DateTime too short"),
                                       InvalidFormat("Invalid DateTime delimiter"), InvalidFormat("Not a number")}
  {
    if data == BLANK_DATETIME || data == SPACES_19 then Failure(BlankValue("DateTime is blank"))
    else if |data| < 19 then Failure(InvalidFormat("DateTime too short"))
    else if !DelimitersOk(data) then Failure(InvalidFormat("Invalid DateTime delimiter"))
    else
      var year :- Atou16(data[0..4]);
      var month :- Atou16(data[5..7]);
      var day :- Atou16(data[8..10]);
      var hour :- Atou16(data[11..13]);
      var minute :- Atou16(data[14..16]);
      var second :- Atou16(data[17..19]);
      Success(Civil(year, month, day, hour, minute, second))
  }

  /** The Exif rendering "YYYY:MM:DD HH:MM:SS" of a value whose fields fit their widths. */
  predicate Representable(c: Civil)
  {
    c.year < 10000 && c.month < 100 && c.day < 100 && c.hour < 100 && c.minute < 100 && c.second < 100
  }

  function ExifText(c: Civil): (r: seq<byte>)
    ensures |r| == 19
  {
    Fields3(Digits(c.year, 4), Digits(c.month, 2), Digits(c.day, 2))
      + [SPACE] + Fields3(Digits(c.hour, 2), Digits(c.minute, 2), Digits(c.second, 2))
  }

  /** Three fields separated by colons, as in "YYYY:MM:DD" and "HH:MM:SS". */
  function Fields3(a: seq<byte>, b: seq<byte>, c: seq<byte>): (r: seq<byte>)
    ensures |r| == |a| + |b| + |c| + 2
  {
    a + [COLON] + b + [COLON] + c
  }

  /** The pieces of colon-separated text with fields of widths `w`, 2 and 2. */
  lemma Fields3Split(s: seq<byte>, w: nat)
    requires |s| == w + 6 && s[w] == COLON && s[w + 3] == COLON
    ensures s == Fields3(s[..w], s[w + 1..w + 3], s[w + 4..])
  {
  }

  /** `from_ascii` reads back every representable value from its Exif text, whatever follows it. */
  lemma FromAsciiExifText(c: Civil, rest: seq<byte>)
    requires Representable(c)
    ensures FromAscii(ExifText(c) + rest) == Success(c)
  {
    var d := ExifText(c) + rest;
    Text19Slices(Digits(c.year, 4), Digits(c.month, 2), Digits(c.day, 2),
      Digits(c.hour, 2), Digits(c.minute, 2), Digits(c.second, 2), rest);
    DecimalDigits(c.year, 4);
    DecimalDigits(c.month, 2);
    DecimalDigits(c.day, 2);
    DecimalDigits(c.hour, 2);
    DecimalDigits(c.minute, 2);
    DecimalDigits(c.second, 2);
    NotBlank(d);
    FromAsciiOfFields(d);
  }

  /** Where the six fields sit in "YYYY:MM:DD HH:MM:SS". */
  lemma Text19Slices(y: seq<byte>, mo: seq<byte>, da: seq<byte>, h: seq<byte>, mi: seq<byte>, se: seq<byte>,
                     rest: seq<byte>)
    requires |y| == 4 && |mo| == 2 && |da| == 2 && |h| == 2 && |mi| == 2 && |se| == 2
    ensures var d := Fields3(y, mo, da) + [SPACE] + Fields3(h, mi, se) + rest;
      |d| >= 19 && DelimitersOk(d) && d[0] == y[0]
      && d[0..4] == y && d[5..7] == mo && d[8..10] == da
      && d[11..13] == h && d[14..16] == mi && d[17..19] == se
  {
    var d := Fields3(y, mo, da) + [SPACE] + Fields3(h, mi, se) + rest;
    var t := Fields3(h, mi, se);
    assert d[11..19] == t;
    assert t[0..2] == h && t[3..5] == mi && t[6..8] == se;
    assert d[11..13] == t[0..2] && d[14..16] == t[3..5] && d[17..19] == t[6..8];
  }

  /** Conversely to FromAsciiFields: non-blank text with the delimiters and six digit fields is accepted. */
  lemma FromAsciiOfFields(data: seq<byte>)
    requires |data| >= 19 && DelimitersOk(data) && data != BLANK_DATETIME && data != SPACES_19
    requires AllDigits(data[0..4]) && AllDigits(data[5..7]) && AllDigits(data[8..10])
    requires AllDigits(data[11..13]) && AllDigits(data[14..16]) && AllDigits(data[17..19])
    ensures FromAscii(data) == Success(Civil(DecimalValue(data[0..4]), DecimalValue(data[5..7]),
      DecimalValue(data[8..10]), DecimalValue(data[11..13]), DecimalValue(data[14..16]), DecimalValue(data[17..19])))
  {
  }

  /** Text starting with a digit is not one of the blank forms. */
  lemma NotBlank(d: seq<byte>)
    requires |d| > 0 && IsDigit(d[0])
    ensures d != BLANK_DATETIME && d != SPACES_19
  {
    assert BLANK_DATETIME[0] == SPACE && SPACES_19[0] == SPACE;
  }

  /** What `from_ascii` checked when it succeeds, and what it read. */
  lemma FromAsciiFields(data: seq<byte>)
    requires FromAscii(data).Success?
    ensures |data| >= 19 && DelimitersOk(data)
    ensures AllDigits(data[0..4]) && AllDigits(data[5..7]) && AllDigits(data[8..10])
    ensures AllDigits(data[11..13]) && AllDigits(data[14..16]) && AllDigits(data[17..19])
    ensures FromAscii(data).value == Civil(DecimalValue(data[0..4]), DecimalValue(data[5..7]),
      DecimalValue(data[8..10]), DecimalValue(data[11..13]), DecimalValue(data[14..16]), DecimalValue(data[17..19]))
  {
  }

  /** Text with the delimiters of "YYYY:MM:DD HH:MM:SS" is its six fields put back together. */
  lemma ExifTextOfFields(data: seq<byte>)
    requires |data| >= 19 && DelimitersOk(data)
    requires AllDigits(data[0..4]) && AllDigits(data[5..7]) && AllDigits(data[8..10])
    requires AllDigits(data[11..13]) && AllDigits(data[14..16]) && AllDigits(data[17..19])
    ensures data[..19] == ExifText(Civil(DecimalValue(data[0..4]), DecimalValue(data[5..7]),
      DecimalValue(data[8..10]), DecimalValue(data[11..13]), DecimalValue(data[14..16]), DecimalValue(data[17..19])))
  {
    DateText(data);
    TimeText(data);
    assert data[..19] == data[0..10] + [SPACE] + data[11..19];
  }

  lemma DateText(data: seq<byte>)
    requires |data| >= 19 && DelimitersOk(data)
    requires AllDigits(data[0..4]) && AllDigits(data[5..7]) && AllDigits(data[8..10])
    ensures data[0..10] == Fields3(Digits(DecimalValue(data[0..4]), 4), Digits(DecimalValue(data[5..7]), 2),
      Digits(DecimalValue(data[8..10]), 2))
  {
    var date := data[0..10];
    assert date[..4] == data[0..4] && date[5..7] == data[5..7] && date[8..] == data[8..10];
    Fields3Text(date, 4);
  }

  lemma TimeText(data: seq<byte>)
    requires |data| >= 19 && DelimitersOk(data)
    requires AllDigits(data[11..13]) && AllDigits(data[14..16]) && AllDigits(data[17..19])
    ensures data[11..19] == Fields3(Digits(DecimalValue(data[11..13]), 2), Digits(DecimalValue(data[14..16]), 2),
      Digits(DecimalValue(data[17..19]), 2))
  {
    var time := data[11..19];
    assert time[..2] == data[11..13] && time[3..5] == data[14..16] && time[6..] == data[17..19];
    Fields3Text(time, 2);
  }

  /** Colon-separated digit fields of widths `w`, 2 and 2 are the rendering of their values. */
  lemma Fields3Text(s: seq<byte>, w: nat)
    requires |s| == w + 6 && s[w] == COLON && s[w + 3] == COLON
    requires AllDigits(s[..w]) && AllDigits(s[w + 1..w + 3]) && AllDigits(s[w + 4..])
    ensures s == Fields3(Digits(DecimalValue(s[..w]), w), Digits(DecimalValue(s[w + 1..w + 3]), 2),
      Digits(DecimalValue(s[w + 4..]), 2))
  {
    Fields3Split(s, w);
    DigitsDecimal(s[..w]);
    DigitsDecimal(s[w + 1..w + 3]);
    DigitsDecimal(s[w + 4..]);
  }

  /**
   * Conversely, whatever `from_ascii` accepts is the Exif text of what it
   * returns, followed by bytes it never looked at.
   */
  lemma FromAsciiOnlyExifText(data: seq<byte>)
    requires FromAscii(data).Success?
    ensures |data| >= 19 && Representable(FromAscii(data).value)
    ensures data[..19] == ExifText(FromAscii(data).value)
  {
    FromAsciiFields(data);
    ExifTextOfFields(data);
  }

  /** Rendering the value of a digit string with as many digits gives the string back. */
  lemma {:induction false} DigitsDecimal(s: seq<byte>)
    requires AllDigits(s)
    ensures Digits(DecimalValue(s), |s|) == s
  {
    if |s| > 0 {
      var p := s[..|s| - 1];
      var n := DecimalValue(s);
      assert n / 10 == DecimalValue(p);
      assert n % 10 == s[|s| - 1] - DIGIT_ZERO;
      DigitsDecimal(p);
      assert s == p + [s[|s| - 1]];
    }
  }

  /**
   * Where the digit loop of `parse_subsec`, started at `i`, stops: at the
   * end of the data, at a space, or once nine digits have been read.
   */
  function SubsecEnd(data: seq<byte>, i: nat): (r: nat)
    requires i <= |data| && i <= SUBSEC_DIGITS
    ensures i <= r <= |data| && r <= SUBSEC_DIGITS
    ensures r == |data| || r == SUBSEC_DIGITS || data[r] == SPACE
    ensures forall k :: i <= k < r ==> data[k] != SPACE
    decreases |data| - i
  {
    if i == |data| || i == SUBSEC_DIGITS || data[i] == SPACE then i else SubsecEnd(data, i + 1)
  }

  /** The bytes `parse_subsec` reads: those before the first space, at most nine. */
  function SubsecField(data: seq<byte>): (r: seq<byte>)
    ensures |r| <= SUBSEC_DIGITS && r <= data
  {
    data[..SubsecEnd(data, 0)]
  }

  /**
   * `parse_subsec` as a function: the digits read, scaled to nanoseconds;
   * None when there are none; "Not a number" for a non-digit among them.
   */
  function SubsecSpec(data: seq<byte>): (r: Result<Option<nat>, Error>)
    ensures r.Success? && r.value.Some? ==> r.value.value < Pow10(SUBSEC_DIGITS)
  {
    var f := SubsecField(data);
    if !AllDigits(f) then Failure(InvalidFormat("Not a number"))
    else if |f| == 0 then Success(None)
    else Success(Some(Nanos(DecimalValue(f), |f|)))
  }

  /** `n` digits of a decimal fraction, of value `v`, as nanoseconds: always less than a second. */
  function Nanos(v: nat, n: nat): (r: nat)
    requires 0 < n <= SUBSEC_DIGITS && v < Pow10(n)
    ensures r < Pow10(SUBSEC_DIGITS)
  {
    ScaleBelow(v, n, SUBSEC_DIGITS);
    v * Pow10(SUBSEC_DIGITS - n)
  }

  lemma {:induction false} ScaleBelow(v: nat, k: nat, n: nat)
    requires k <= n && v < Pow10(k)
    ensures v * Pow10(n - k) < Pow10(n)
    decreases n - k
  {
    if k < n {
      ScaleBelow(v, k, n - 1);
      assert Pow10(n - k) == 10 * Pow10(n - 1 - k);
    }
  }

  /** `parse_offset` as a function: minutes east of UTC, in [-6039, 6039]. */
  function OffsetSpec(data: seq<byte>): (r: Result<int, Error>)
    ensures r.Success? ==> -6039 <= r.value <= 6039
  {
    if data == [SPACE, SPACE, SPACE, COLON, SPACE, SPACE] || data == [SPACE, SPACE, SPACE, SPACE, SPACE, SPACE] then
      Failure(BlankValue("OffsetTime is blank"))
    else if |data| < 6 then Failure(InvalidFormat("OffsetTime too short"))
    else if data[3] != COLON then Failure(InvalidFormat("Invalid OffsetTime delimiter"))
    else
      var hour :- Atou16(data[1..3]);
      var min :- Atou16(data[4..6]);
      var offset := hour * 60 + min;
      if data[0] == PLUS then Success(offset)
      else if data[0] == MINUS then Success(-offset)
      else Failure(InvalidFormat("Invalid OffsetTime sign"))
  }

  /** The OffsetTime text "+HH:MM" or "-HH:MM". */
  function OffsetText(east: bool, hour: nat, minute: nat): (r: seq<byte>)
    ensures |r| == 6
  {
    [if east then PLUS else MINUS] + Digits(hour, 2) + [COLON] + Digits(minute, 2)
  }

  /** `parse_offset` reads back ±(HH*60+MM) from every two-digit rendering. */
  lemma OffsetTextRoundTrip(east: bool, hour: nat, minute: nat)
    requires hour < 100 && minute < 100
    ensures OffsetSpec(OffsetText(east, hour, minute))
         == Success(if east then hour * 60 + minute else -(hour * 60 + minute))
  {
    var sign := if east then PLUS else MINUS;
    var d := OffsetText(east, hour, minute);
    OffsetSlices(sign, Digits(hour, 2), Digits(minute, 2));
    assert d[0] != SPACE;
    assert Atou16(d[1..3]) == Success(hour) by {
      DecimalDigits(hour, 2);
    }
    assert Atou16(d[4..6]) == Success(minute) by {
      DecimalDigits(minute, 2);
    }
  }

  lemma OffsetSlices(sign: byte, hh: seq<byte>, mm: seq<byte>)
    requires |hh| == 2 && |mm| == 2
    ensures var d := [sign] + hh + [COLON] + mm;
      |d| == 6 && d[0] == sign && d[3] == COLON && d[1..3] == hh && d[4..6] == mm
  {
  }

  /**
   * A date and time as `DateTime` holds it: the six civil fields, plus the
   * optional nanoseconds and time-zone offset that the SubsecTime and
   * OffsetTime fields fill in later.
   */
  class DateTime {
    var year: nat
    var month: nat
    var day: nat
    var hour: nat
    var minute: nat
    var second: nat
    var nanosecond: Option<nat>
    var offset: Option<int>

    ghost function Date(): Civil
      reads this
    {
      Civil(year, month, day, hour, minute, second)
    }

    /** The struct literal at the end of `from_ascii`: no subseconds, no offset yet. */
    constructor (c: Civil)
      ensures Date() == c && nanosecond == None && offset == None
    {
      year, month, day := c.year, c.month, c.day;
      hour, minute, second := c.hour, c.minute, c.second;
      nanosecond, offset := None, None;
    }

    /**
     * `parse_subsec`: the digit loop, then the scaling loop. On error the
     * object is left unchanged; otherwise only `nanosecond` changes.
     */
    method ParseSubsec(data: seq<byte>) returns (r: Result<(), Error>)
      modifies this
      ensures Date() == old(Date()) && offset == old(offset)
      ensures r.Success? <==> SubsecSpec(data).Success?
      ensures r.Failure? ==> r == Failure(SubsecSpec(data).error) && nanosecond == old(nanosecond)
      ensures r.Success? ==> nanosecond == SubsecSpec(data).value
    {
      var subsec, ndigits := ReadSubsecDigits(data);
      if subsec.Failure? {
        return Failure(subsec.error);
      }
      if ndigits == 0 {
        nanosecond := None;
      } else {
        var ns := ScaleToNanos(subsec.value, ndigits);
        nanosecond := Some(ns);
      }
      r := Success(());
    }

    /**
     * `parse_offset`: on success only `offset` changes, to the parsed
     * number of minutes; on error the object is left unchanged.
     */
    method ParseOffset(data: seq<byte>) returns (r: Result<(), Error>)
      modifies this
      ensures Date() == old(Date()) && nanosecond == old(nanosecond)
      ensures r.Success? <==> OffsetSpec(data).Success?
      ensures r.Failure? ==> r == Failure(OffsetSpec(data).error) && offset == old(offset)
      ensures r.Success? ==> offset == Some(OffsetSpec(data).value)
    {
      var spec := OffsetSpec(data);
      match spec
      case Failure(e) =>
        r := Failure(e);
      case Success(minutes) =>
        offset := Some(minutes);
        r := Success(());
    }
  }

  /** The digit loop of `parse_subsec`: the value of the digits read and how many were read. */
  method ReadSubsecDigits(data: seq<byte>) returns (r: Result<nat, Error>, ndigits: nat)
    ensures r.Success? ==> ndigits == |SubsecField(data)|
    ensures r.Success? <==> AllDigits(SubsecField(data))
    ensures r.Success? ==> r.value == DecimalValue(SubsecField(data))
    ensures r.Failure? ==> r.error == InvalidFormat("Not a number")
  {
    var subsec: nat := 0;
    ndigits := 0;
    var i := 0;
    while i < |data|
      invariant i <= |data| && ndigits == i && i < SUBSEC_DIGITS
      invariant SubsecEnd(data, i) == SubsecEnd(data, 0)
      invariant AllDigits(data[..i]) && subsec == DecimalValue(data[..i])
      decreases |data| - i
    {
      if data[i] == SPACE {
        break;
      }
      var d := Ctou32(data[i]);
      if d.Failure? {
        assert SubsecField(data)[i] == data[i];
        return Failure(d.error), ndigits;
      }
      assert data[..i + 1][..i] == data[..i];
      subsec := subsec * 10 + d.value;
      ndigits := ndigits + 1;
      i := i + 1;
      if ndigits >= SUBSEC_DIGITS {
        break;
      }
    }
    assert data[..i] == SubsecField(data);
    r := Success(subsec);
  }

  /** The scaling loop of `parse_subsec`: `ndigits` digits of a fraction as nanoseconds. */
  method ScaleToNanos(v: nat, ndigits: nat) returns (ns: nat)
    requires 0 < ndigits <= SUBSEC_DIGITS && v < Pow10(ndigits)
    ensures ns == Nanos(v, ndigits)
  {
    ns := v;
    for j := ndigits to SUBSEC_DIGITS
      invariant ns == v * Pow10(j - ndigits)
    {
      var p := Pow10(j - ndigits);
      assert Pow10(j + 1 - ndigits) == 10 * p;
      assert ns * 10 == v * (10 * p) by {
        assert ns == v * p;
      }
      ns := ns * 10;
    }
  }

  /** Appending a digit multiplies the value by ten and adds the digit. */
  lemma DecimalSnoc(s: seq<byte>, c: byte)
    requires AllDigits(s) && IsDigit(c)
    ensures AllDigits(s + [c]) && DecimalValue(s + [c]) == DecimalValue(s) * 10 + (c - DIGIT_ZERO)
  {
    assert (s + [c])[..|s|] == s;
  }

  lemma DecimalOfTwo(a: byte, b: byte)
    requires IsDigit(a) && IsDigit(b)
    ensures AllDigits([a, b]) && DecimalValue([a, b]) == (a - DIGIT_ZERO) * 10 + (b - DIGIT_ZERO)
  {
    DecimalSnoc([a], b);
    assert [a] + [b] == [a, b];
  }

  /** `parse_subsec` reads the `n` non-space bytes before a space, the end, or the ninth byte. */
  lemma SubsecFieldIs(data: seq<byte>, n: nat)
    requires n <= |data| && n <= SUBSEC_DIGITS
    requires forall k :: 0 <= k < n ==> data[k] != SPACE
    requires n == |data| || n == SUBSEC_DIGITS || data[n] == SPACE
    ensures SubsecField(data) == data[..n]
  {
    SubsecEndFrom(data, 0, n);
  }

  lemma {:induction false} SubsecEndFrom(data: seq<byte>, i: nat, n: nat)
    requires i <= n <= |data| && n <= SUBSEC_DIGITS
    requires forall k :: i <= k < n ==> data[k] != SPACE
    requires n == |data| || n == SUBSEC_DIGITS || data[n] == SPACE
    ensures SubsecEnd(data, i) == n
    decreases n - i
  {
    if i < n {
      SubsecEndFrom(data, i + 1, n);
    }
  }

  /** "2016:05:04 03:02:01", the DateTime of the unit test `date_time`. */
  const TEST_DATE: seq<byte> :=
    [0x32, 0x30, 0x31, 0x36, 0x3a, 0x30, 0x35, 0x3a, 0x30, 0x34,
     0x20, 0x30, 0x33, 0x3a, 0x30, 0x32, 0x3a, 0x30, 0x31]

  lemma DateTimeExample()
    ensures FromAscii(TEST_DATE) == Success(Civil(2016, 5, 4, 3, 2, 1))
  {
    var d := TEST_DATE;
    NotBlank(d);
    assert d[0..4] == [0x32, 0x30] + [0x31] + [0x36];
    DecimalOfTwo(0x32, 0x30);
    DecimalSnoc([0x32, 0x30], 0x31);
    DecimalSnoc([0x32, 0x30] + [0x31], 0x36);
    assert d[5..7] == [0x30, 0x35];
    DecimalOfTwo(0x30, 0x35);
    assert d[8..10] == [0x30, 0x34];
    DecimalOfTwo(0x30, 0x34);
    assert d[11..13] == [0x30, 0x33];
    DecimalOfTwo(0x30, 0x33);
    assert d[14..16] == [0x30, 0x32];
    DecimalOfTwo(0x30, 0x32);
    assert d[17..19] == [0x30, 0x31];
    DecimalOfTwo(0x30, 0x31);
  }

  /** SubsecTime "987" of the unit test `date_time`. */
  lemma SubsecExample987()
    ensures SubsecSpec([0x39, 0x38, 0x37]) == Success(Some(987000000))
  {
    var d: seq<byte> := [0x39, 0x38, 0x37];
    SubsecFieldIs(d, 3);
    assert d[..3] == [0x39, 0x38] + [0x37];
    DecimalOfTwo(0x39, 0x38);
    DecimalSnoc([0x39, 0x38], 0x37);
    Pow10Values();
  }

  /** SubsecTime "000987": leading zeros are significant digits of the fraction. */
  lemma SubsecExample000987()
    ensures SubsecSpec([0x30, 0x30, 0x30, 0x39, 0x38, 0x37]) == Success(Some(987000))
  {
    var d: seq<byte> := [0x30, 0x30, 0x30, 0x39, 0x38, 0x37];
    SubsecFieldIs(d, 6);
    assert d[..6] == [0x30, 0x30] + [0x30] + [0x39] + [0x38] + [0x37];
    DecimalOfTwo(0x30, 0x30);
    DecimalSnoc([0x30, 0x30], 0x30);
    DecimalSnoc([0x30, 0x30] + [0x30], 0x39);
    DecimalSnoc([0x30, 0x30] + [0x30] + [0x39], 0x38);
    DecimalSnoc([0x30, 0x30] + [0x30] + [0x39] + [0x38], 0x37);
    Pow10Values();
  }

  /** The value of a digit prefix one byte longer. */
  lemma DecimalPrefix(d: seq<byte>, k: nat)
    requires k < |d| && AllDigits(d[..k + 1])
    ensures AllDigits(d[..k]) && DecimalValue(d[..k + 1]) == DecimalValue(d[..k]) * 10 + (d[k] - DIGIT_ZERO)
  {
    assert d[..k + 1][..k] == d[..k];
  }

  const TEN_DIGITS: seq<byte> := [0x39, 0x38, 0x37, 0x36, 0x35, 0x34, 0x33, 0x32, 0x31, 0x39]

  lemma TenDigitsValue()
    ensures AllDigits(TEN_DIGITS[..9]) && DecimalValue(TEN_DIGITS[..9]) == 987654321
  {
    var d := TEN_DIGITS;
    assert AllDigits(d[..9]);
    DecimalPrefix(d, 8);
    DecimalPrefix(d, 7);
    DecimalPrefix(d, 6);
    DecimalPrefix(d, 5);
    DecimalPrefix(d, 4);
    DecimalPrefix(d, 3);
    DecimalPrefix(d, 2);
    DecimalPrefix(d, 1);
    DecimalPrefix(d, 0);
  }

  /** SubsecTime "9876543219": only the first nine digits are read. */
  lemma SubsecExampleTenDigits()
    ensures SubsecSpec(TEN_DIGITS) == Success(Some(987654321))
  {
    SubsecFieldIs(TEN_DIGITS, 9);
    TenDigitsValue();
  }

  /** SubsecTime "130   ": reading stops at the first space. */
  lemma SubsecExampleTrailingSpaces()
    ensures SubsecSpec([0x31, 0x33, 0x30, SPACE, SPACE, SPACE]) == Success(Some(130000000))
  {
    var d: seq<byte> := [0x31, 0x33, 0x30, SPACE, SPACE, SPACE];
    SubsecFieldIs(d, 3);
    assert d[..3] == [0x31, 0x33] + [0x30];
    DecimalOfTwo(0x31, 0x33);
    DecimalSnoc([0x31, 0x33], 0x30);
    Pow10Values();
  }

  /** SubsecTime "0", "" and " ": one zero digit is Some(0); no digits at all is None. */
  lemma SubsecExamplesShort()
    ensures SubsecSpec([0x30]) == Success(Some(0))
    ensures SubsecSpec([]) == Success(None)
    ensures SubsecSpec([SPACE]) == Success(None)
  {
    SubsecFieldIs([0x30], 1);
    assert [0x30][..1] == [0x30];
    SubsecFieldIs([], 0);
    SubsecFieldIs([SPACE], 0);
  }

  /** A non-digit among the bytes read fails; one after the first space is never looked at. */
  lemma SubsecNonDigit()
    ensures SubsecSpec([0x39, 0x78, 0x37]) == Failure(InvalidFormat("Not a number"))
    ensures SubsecSpec([0x39, SPACE, 0x78]) == Success(Some(900000000))
  {
    var bad: seq<byte> := [0x39, 0x78, 0x37];
    SubsecFieldIs(bad, 3);
    assert !IsDigit(bad[..3][1]);
    var ok: seq<byte> := [0x39, SPACE, 0x78];
    SubsecFieldIs(ok, 1);
    assert ok[..1] == [0x39];
    assert DecimalValue([0x39]) == 9;
    Pow10Values();
    assert Pow10(8) == 100000000;
  }

  /** OffsetTime "+01:23" and "-01:23" of the unit test `date_time`. */
  lemma OffsetExample0123()
    ensures OffsetSpec([PLUS, 0x30, 0x31, COLON, 0x32, 0x33]) == Success(83)
    ensures OffsetSpec([MINUS, 0x30, 0x31, COLON, 0x32, 0x33]) == Success(-83)
  {
    DecimalOfTwo(0x30, 0x31);
    DecimalOfTwo(0x32, 0x33);
    var p: seq<byte> := [PLUS, 0x30, 0x31, COLON, 0x32, 0x33];
    assert p[1..3] == [0x30, 0x31] && p[4..6] == [0x32, 0x33];
    var m: seq<byte> := [MINUS, 0x30, 0x31, COLON, 0x32, 0x33];
    assert m[1..3] == [0x30, 0x31] && m[4..6] == [0x32, 0x33];
  }

  /** OffsetTime "+99:99" and "-99:99": minutes are not range-checked, giving the extremes ±6039. */
  lemma OffsetExample9999()
    ensures OffsetSpec([PLUS, 0x39, 0x39, COLON, 0x39, 0x39]) == Success(6039)
    ensures OffsetSpec([MINUS, 0x39, 0x39, COLON, 0x39, 0x39]) == Success(-6039)
  {
    DecimalOfTwo(0x39, 0x39);
    var p: seq<byte> := [PLUS, 0x39, 0x39, COLON, 0x39, 0x39];
    assert p[1..3] == [0x39, 0x39] && p[4..6] == [0x39, 0x39];
    var m: seq<byte> := [MINUS, 0x39, 0x39, COLON, 0x39, 0x39];
    assert m[1..3] == [0x39, 0x39] && m[4..6] == [0x39, 0x39];
  }

  /** The blank forms "   :  " and "      ". */
  lemma OffsetBlank()
    ensures OffsetSpec([SPACE, SPACE, SPACE, COLON, SPACE, SPACE]) == Failure(BlankValue("OffsetTime is blank"))
    ensures OffsetSpec([SPACE, SPACE, SPACE, SPACE, SPACE, SPACE]) == Failure(BlankValue("OffsetTime is blank"))
  {
  }

  /** A sign other than '+' or '-' is rejected only after both numbers have been read. */
  lemma OffsetBadSign()
    ensures OffsetSpec([SPACE, 0x30, 0x31, COLON, 0x32, 0x33]) == Failure(InvalidFormat("Invalid OffsetTime sign"))
    ensures OffsetSpec([SPACE, 0x30, 0x78, COLON, 0x32, 0x33]) == Failure(InvalidFormat("Not a number"))
  {
    DecimalOfTwo(0x30, 0x31);
    DecimalOfTwo(0x32, 0x33);
    var d: seq<byte> := [SPACE, 0x30, 0x31, COLON, 0x32, 0x33];
    assert d[1..3] == [0x30, 0x31];
    assert d[4..6] == [0x32, 0x33];
    var e: seq<byte> := [SPACE, 0x30, 0x78, COLON, 0x32, 0x33];
    assert e[1..3] == [0x30, 0x78] && !IsDigit(e[1..3][1]);
  }
}
