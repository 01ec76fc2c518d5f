/**
 * The GPS value types of argus (`utils/exif_utils/gps_util.rs`): compass
 * directions with their one-letter rendering and their lenient parser, and
 * the `GpsInfo` record.
 */
module GpsUtil {
  import opened Wrappers
  import opened Text

  /** A compass direction; `South` is the default. */
  datatype Direction = South | North | West | East

  const DEFAULT_DIRECTION: Direction := South

  /** The `Display` rendering: the initial letter in upper case. */
  function ToString(d: Direction): (r: string)
    ensures |r| == 1 && 'A' <= r[0] <= 'Z'
  {
    match d
    case South => "S"
    case North => "N"
    case West => "W"
    case East => "E"
  }

  /** The lower-case full name of a direction. */
  function Name(d: Direction): (r: string)
    ensures |r| >= 4
  {
    match d
    case South => "south"
    case North => "north"
    case West => "west"
    case East => "east"
  }

  /** The direction a trimmed, lower-cased word names: its full name or its initial. */
  function Named(t: string): (r: Option<Direction>)
    ensures r.Some? ==> t == Name(r.value) || t == [Name(r.value)[0]]
  {
    if t == "south" || t == "s" then Some(South)
    else if t == "north" || t == "n" then Some(North)
    else if t == "west" || t == "w" then Some(West)
    else if t == "east" || t == "e" then Some(East)
    else None
  }

  /**
   * `Direction::from_str`: trim, lower-case, then look the word up; what
   * is accepted is, trimmed and lower-cased, a full name or an initial.
   */
  function FromStr(s: string): (r: Option<Direction>)
    ensures r.Some? ==> ToLower(Trim(s)) == Name(r.value) || ToLower(Trim(s)) == [Name(r.value)[0]]
  {
    Named(ToLower(Trim(s)))
  }

  /** Parsing the rendering gives the direction back. */
  lemma DisplayRoundTrip(d: Direction)
    ensures FromStr(ToString(d)) == Some(d)
  {
    TrimUntrimmed(ToString(d));
    LowerRendering(d);
    NamedSpelling([Name(d)[0]], d);
  }

  /** The lower-cased rendering of `d` is its initial in lower case. */
  lemma LowerRendering(d: Direction)
    ensures ToLower(ToString(d)) == [Name(d)[0]]
  {
    var r := ToString(d);
    assert ToLower(r) == [LowerChar(r[0])];
  }

  /** `Named` accepts exactly the lower-case initial and the lower-case full name. */
  lemma NamedSpelling(t: string, d: Direction)
    ensures Named(t) == Some(d) <==> t == [Name(d)[0]] || t == Name(d)
  {
  }

  /**
   * The accepted spellings of `d`, once trimmed and lower-cased, are exactly
   * its lower-case rendering and its lower-case full name.
   */
  lemma FromStrAccepts(s: string, d: Direction)
    ensures FromStr(s) == Some(d) <==>
              (ToLower(Trim(s)) == ToLower(ToString(d)) || ToLower(Trim(s)) == Name(d))
  {
    LowerRendering(d);
    NamedSpelling(ToLower(Trim(s)), d);
  }

  /** The rendering is still accepted between runs of white space. */
  lemma FromStrPadded(before: string, d: Direction, after: string)
    requires AllWhiteSpace(before) && AllWhiteSpace(after)
    ensures FromStr(before + ToString(d) + after) == Some(d)
  {
    TrimPadded(before, ToString(d), after);
    DisplayRoundTrip(d);
    TrimUntrimmed(ToString(d));
  }

  /** Surrounding white space does not matter. */
  lemma FromStrTrimmed(s: string)
    ensures FromStr(Trim(s)) == FromStr(s)
  {
    assert ToLower(Trim(Trim(s))) == ToLower(Trim(s)) by {
      TrimIdempotent(s);
    }
  }

  /** Case does not matter. */
  lemma FromStrCaseInsensitive(s: string)
    ensures FromStr(ToLower(s)) == FromStr(s)
  {
    assert ToLower(Trim(ToLower(s))) == ToLower(Trim(s)) by {
      LowerTrimCommute(s);
      ToLowerIdempotent(Trim(s));
    }
  }

  /** Lower-casing a character does not change whether it is white space. */
  lemma LowerWhiteSpace(c: char)
    ensures IsWhiteSpace(LowerChar(c)) == IsWhiteSpace(c)
  {
  }

  /** Lower-casing commutes with slicing. */
  lemma ToLowerSlice(s: string, i: nat, j: nat)
    requires i <= j <= |s|
    ensures ToLower(s[i..j]) == ToLower(s)[i..j]
  {
  }

  /** Lower-casing commutes with `TrimStart`. */
  lemma {:induction false} LowerTrimStart(s: string)
    ensures TrimStart(ToLower(s)) == ToLower(TrimStart(s))
    decreases |s|
  {
    if |s| > 0 {
      LowerWhiteSpace(s[0]);
      ToLowerSlice(s, 1, |s|);
      assert ToLower(s)[1..] == ToLower(s[1..]);
      LowerTrimStart(s[1..]);
    }
  }

  /** Lower-casing commutes with `TrimEnd`. */
  lemma {:induction false} LowerTrimEnd(s: string)
    ensures TrimEnd(ToLower(s)) == ToLower(TrimEnd(s))
    decreases |s|
  {
    if |s| > 0 {
      LowerWhiteSpace(s[|s| - 1]);
      ToLowerSlice(s, 0, |s| - 1);
      assert ToLower(s)[..|s| - 1] == ToLower(s[..|s| - 1]);
      LowerTrimEnd(s[..|s| - 1]);
    }
  }

  /** Lower-casing commutes with `Trim`. */
  lemma LowerTrimCommute(s: string)
    ensures Trim(ToLower(s)) == ToLower(Trim(s))
  {
    LowerTrimStart(s);
    LowerTrimEnd(TrimStart(s));
  }

  /** Above or below sea level. */
  datatype SeaLevel = AboveSeaLevel | BelowSeaLevel

  /** A 32-bit signed integer. */
  newtype I32 = x: int | -0x8000_0000 <= x < 0x8000_0000

  /** An IEEE 754 double, kept as its 64-bit pattern. */
  newtype F64Bits = x: int | 0 <= x < 0x1_0000_0000_0000_0000

  /** Degrees, minutes and seconds. */
  datatype Dms = Dms(degrees: I32, minutes: I32, seconds: F64Bits)

  /** What a GPS block of an image holds. */
  datatype GpsInfo = GpsInfo(
    latitudeRef: Option<Direction>,
    latitude: Option<Dms>,
    longitudeRef: Option<Direction>,
    longitude: Option<Dms>,
    altitudeRef: Option<SeaLevel>,
    altitude: Option<F64Bits>,
    continueOnError: bool)

  /** The derived default: everything absent, and errors not tolerated. */
  const DEFAULT_GPS_INFO := GpsInfo(None, None, None, None, None, None, false)

  /** `GpsInfo::new`: the six fields as given, tolerating errors. */
  function NewGpsInfo(
    latitudeRef: Option<Direction>,
    latitude: Option<Dms>,
    longitudeRef: Option<Direction>,
    longitude: Option<Dms>,
    altitudeRef: Option<SeaLevel>,
    altitude: Option<F64Bits>): (g: GpsInfo)
    ensures g.latitudeRef == latitudeRef && g.latitude == latitude
    ensures g.longitudeRef == longitudeRef && g.longitude == longitude
    ensures g.altitudeRef == altitudeRef && g.altitude == altitude
    ensures g.continueOnError
  {
    GpsInfo(latitudeRef, latitude, longitudeRef, longitude, altitudeRef, altitude, true)
  }

  /**
   * `new` with nothing known differs from the default in the error-tolerance
   * flag alone.
   */
  lemma NewDiffersFromDefault()
    ensures NewGpsInfo(None, None, None, None, None, None) != DEFAULT_GPS_INFO
    ensures NewGpsInfo(None, None, None, None, None, None).(continueOnError := false) == DEFAULT_GPS_INFO
  {
  }
}

/** Concrete inputs to the direction parser. */
module GpsUtilExamples {
  import opened Wrappers
  import opened Text
  import opened GpsUtil

  /** A full name in upper case is accepted. */
  lemma FromStrUpperCase()
    ensures FromStr("EAST") == Some(East)
  {
    TrimUntrimmed("EAST");
    assert ToLower("EAST") == "east";
  }

  /** An initial is accepted. */
  lemma FromStrInitial()
    ensures FromStr("w") == Some(West)
  {
    TrimUntrimmed("w");
    assert ToLower("w") == "w";
  }

  /** Blank input names no direction. */
  lemma FromStrBlank()
    ensures FromStr(" ") == None
  {
    assert TrimStart(" ") == [];
  }

  /** A compound direction is not accepted. */
  lemma FromStrCompound()
    ensures FromStr("south-east") == None
  {
    TrimUntrimmed("south-east");
    assert |ToLower("south-east")| == 10;
  }
}
