/**
 * The exiftool text-output reader of argus (`utils/exif_utils/tag.rs`):
 * a `Tag` collects the `key: value` lines of exiftool's output, both as an
 * ordered list of entries and as a key -> value map, and `PackTags` picks
 * the front-end descriptors whose exiftool key is present.
 */
module ExiftoolTag {
  import opened Wrappers
  import opened Text

  /** One parsed line: the trimmed key and the trimmed value. */
  type Entry = (string, string)

  /**
   * What one line of exiftool output contributes: nothing when it has no
   * `:`, otherwise the trimmed text before the first `:` and the trimmed
   * text after it.
   */
  function LineEntry(line: string): (r: Option<Entry>)
    ensures r.Some? ==> |r.value.0| + |r.value.1| < |line|
  {
    var split := SplitOnce(line, ':');
    if split.None? then None else Some((Trim(split.value.0), Trim(split.value.1)))
  }

  /** What each line contributes, line by line. */
  function LineEntries(lines: seq<string>): (r: seq<Option<Entry>>)
    ensures |r| == |lines|
  {
    seq(|lines|, i requires 0 <= i < |lines| => LineEntry(lines[i]))
  }

  /** The entries present among per-line contributions, in line order. */
  function Collect(opts: seq<Option<Entry>>): seq<Entry> {
    if opts == [] then []
    else
      var last := opts[|opts| - 1];
      Collect(opts[..|opts| - 1]) + (if last.Some? then [last.value] else [])
  }

  /** The entries of a whole exiftool output. */
  function Parsed(info: string): seq<Entry> {
    Collect(LineEntries(Lines(info)))
  }

  /** The map after inserting the entries of `es` one after the other. */
  function AddAll(m: map<string, string>, es: seq<Entry>): map<string, string> {
    if es == [] then m
    else
      var (key, value) := es[|es| - 1];
      AddAll(m, es[..|es| - 1])[key := value]
  }

  /** Reference definition of a lookup: the value of the last entry with this key. */
  function LastValue(es: seq<Entry>, key: string): Option<string> {
    if es == [] then None
    else if es[|es| - 1].0 == key then Some(es[|es| - 1].1)
    else LastValue(es[..|es| - 1], key)
  }

  class Tag {
    /** Every parsed entry, in order, repeated keys included. */
    var entries: seq<Entry>
    /** The key -> value map; a repeated key keeps its last value. */
    var entryMap: map<string, string>

    /** The map holds exactly what inserting the entries in order yields. */
    ghost predicate Valid()
      reads this
    {
      entryMap == AddAll(map[], entries)
    }

    constructor()
      ensures entries == [] && entryMap == map[]
      ensures Valid()
    {
      entries := [];
      entryMap := map[];
    }

    /**
     * Appends one entry per line of `info` that contains a `:`, and inserts
     * it into the map.
     */
    method Parse(info: string)
      modifies this
      ensures entries == old(entries) + Parsed(info)
      ensures entryMap == AddAll(old(entryMap), Parsed(info))
      ensures old(Valid()) ==> Valid()
    {
      var lines := Lines(info);
      ghost var opts := LineEntries(lines);
      for k := 0 to |lines|
        invariant entries == old(entries) + Collect(opts[..k])
        invariant entryMap == AddAll(old(entryMap), Collect(opts[..k]))
      {
        AddLineAt(lines, k, old(entries), old(entryMap));
      }
      assert opts[..|lines|] == opts;
      assert old(Valid()) ==> Valid() by {
        AddAllAppend(map[], old(entries), Parsed(info));
      }
    }

    /** One pass of the loop in `Parse`: line `k` is added to what lines `0..k` gave. */
    method AddLineAt(lines: seq<string>, k: nat, ghost base: seq<Entry>, ghost start: map<string, string>)
      requires k < |lines|
      requires entries == base + Collect(LineEntries(lines)[..k])
      requires entryMap == AddAll(start, Collect(LineEntries(lines)[..k]))
      modifies this
      ensures entries == base + Collect(LineEntries(lines)[..k + 1])
      ensures entryMap == AddAll(start, Collect(LineEntries(lines)[..k + 1]))
    {
      ghost var opts := LineEntries(lines);
      var entry := AddLine(lines[k]);
      assert entry == opts[k];
      CollectStep(start, opts, k);
      if entry.Some? {
        assert entries == base + (Collect(opts[..k]) + [entry.value]);
      }
    }

    /**
     * One line of the loop in `Parse`: a line with a `:` is split at its
     * first `:`, and the trimmed key and value are inserted and appended.
     */
    method AddLine(line: string) returns (entry: Option<Entry>)
      modifies this
      ensures entry == LineEntry(line)
      ensures entry.None? ==> entries == old(entries) && entryMap == old(entryMap)
      ensures entry.Some? ==>
                entries == old(entries) + [entry.value] &&
                entryMap == old(entryMap)[entry.value.0 := entry.value.1]
    {
      var split := SplitOnce(line, ':');
      if split.None? {
        entry := None;
      } else {
        var key := Trim(split.value.0);
        var value := Trim(split.value.1);
        entryMap := entryMap[key := value];
        entries := entries + [(key, value)];
        entry := Some((key, value));
      }
    }

    /** The value stored under `key`: the value of its last entry. */
    function Get(key: string): (r: Option<string>)
      reads this
      ensures Valid() ==> r == LastValue(entries, key)
    {
      LookupLast(entries, key);
      if key in entryMap then Some(entryMap[key]) else None
    }

    /**
     * The (display name, value) pairs of the descriptors of
     * `EXIF_INFOS_FRONT` whose exiftool key is present, in table order.
     */
    method PackTags() returns (res: seq<Entry>)
      ensures res == Selected(EXIF_INFOS_FRONT, entryMap)
    {
      res := PackSelected(EXIF_INFOS_FRONT);
    }

    /** The loop of `pack_tags`, over any descriptor table. */
    method PackSelected(infos: seq<ExifInfo>) returns (res: seq<Entry>)
      ensures res == Selected(infos, entryMap)
    {
      res := [];
      for k := 0 to |infos|
        invariant res == Selected(infos[..k], entryMap)
      {
        assert infos[..k + 1][..k] == infos[..k];
        var info := infos[k];
        var ans := Get(info.exifToolDesc);
        if ans.Some? {
          res := res + [(info.dis, ans.value)];
        }
      }
      assert infos[..|infos|] == infos;
    }
  }

  /** The entries of the first `k + 1` contributions: those of the first `k`, then contribution `k`'s. */
  lemma CollectSnoc(opts: seq<Option<Entry>>, k: nat)
    requires k < |opts|
    ensures Collect(opts[..k + 1]) ==
              Collect(opts[..k]) + (if opts[k].Some? then [opts[k].value] else [])
  {
    assert opts[..k + 1][..k] == opts[..k];
  }

  /** One more contribution: appended to the entries and inserted into the map if present. */
  lemma CollectStep(m: map<string, string>, opts: seq<Option<Entry>>, k: nat)
    requires k < |opts|
    ensures opts[k].None? ==> Collect(opts[..k + 1]) == Collect(opts[..k])
    ensures opts[k].Some? ==>
              Collect(opts[..k + 1]) == Collect(opts[..k]) + [opts[k].value] &&
              AddAll(m, Collect(opts[..k + 1])) == AddAll(m, Collect(opts[..k]))[opts[k].value.0 := opts[k].value.1]
  {
    CollectSnoc(opts, k);
    if opts[k].Some? {
      AddAllSnoc(m, Collect(opts[..k]), opts[k].value);
    }
  }

  /** Inserting one more entry updates its key. */
  lemma AddAllSnoc(m: map<string, string>, es: seq<Entry>, e: Entry)
    ensures AddAll(m, es + [e]) == AddAll(m, es)[e.0 := e.1]
  {
    assert (es + [e])[..|es|] == es;
  }

  /** Inserting `a` then `b` is inserting `a + b`. */
  lemma {:induction false} AddAllAppend(m: map<string, string>, a: seq<Entry>, b: seq<Entry>)
    ensures AddAll(AddAll(m, a), b) == AddAll(m, a + b)
    decreases |b|
  {
    if b != [] {
      AddAllAppend(m, a, b[..|b| - 1]);
      assert (a + b)[..|a + b| - 1] == a + b[..|b| - 1];
    } else {
      assert a + b == a;
    }
  }

  /** A map built from the empty map answers a lookup with the key's last entry. */
  lemma {:induction false} LookupLast(es: seq<Entry>, key: string)
    ensures key in AddAll(map[], es) <==> LastValue(es, key).Some?
    ensures key in AddAll(map[], es) ==> LastValue(es, key) == Some(AddAll(map[], es)[key])
  {
    if es != [] {
      LookupLast(es[..|es| - 1], key);
    }
  }

  /** `LastValue` finds nothing iff no entry has the key. */
  lemma {:induction false} LastValueNone(es: seq<Entry>, key: string)
    ensures LastValue(es, key).None? <==> forall i :: 0 <= i < |es| ==> es[i].0 != key
  {
    if es != [] {
      var init := es[..|es| - 1];
      LastValueNone(init, key);
      assert forall i :: 0 <= i < |init| ==> init[i] == es[i];
    }
  }

  /**
   * When `LastValue` finds a value, it is that of an entry with the key after
   * which no entry has the key.
   */
  lemma {:induction false} LastValueFound(es: seq<Entry>, key: string)
    requires LastValue(es, key).Some?
    ensures exists i :: 0 <= i < |es| && es[i] == (key, LastValue(es, key).value) &&
                        forall j :: i < j < |es| ==> es[j].0 != key
  {
    var n := |es| - 1;
    if es[n].0 == key {
      assert es[n] == (key, LastValue(es, key).value);
    } else {
      var init := es[..n];
      LastValueFound(init, key);
      var i :| 0 <= i < |init| && init[i] == (key, LastValue(init, key).value) &&
               forall j :: i < j < |init| ==> init[j].0 != key;
      assert es[i] == (key, LastValue(es, key).value);
      assert forall j :: i < j < |es| ==> es[j].0 != key by {
        assert forall j :: i < j < n ==> es[j] == init[j];
      }
    }
  }

  /** Contributions are collected one by one, keeping their order. */
  lemma {:induction false} CollectAppend(a: seq<Option<Entry>>, b: seq<Option<Entry>>)
    ensures Collect(a + b) == Collect(a) + Collect(b)
    decreases |b|
  {
    if b != [] {
      CollectAppend(a, b[..|b| - 1]);
      assert (a + b)[..|a + b| - 1] == a + b[..|b| - 1];
    } else {
      assert a + b == a;
    }
  }

  /** A line contributes nothing iff it has no `:`. */
  lemma LineWithoutColon(line: string)
    ensures LineEntry(line).None? <==> ':' !in line
  {
  }

  /**
   * A line `key:value` with no `:` in `key` contributes the trimmed key and
   * the trimmed value, which keeps every later `:` of the line.
   */
  lemma LineWithColon(key: string, value: string)
    requires ':' !in key
    ensures LineEntry(key + [':'] + value) == Some((Trim(key), Trim(value)))
  {
    SplitOnceOf(key, ':', value);
  }

  /**
   * A line without `:` (see `LineWithoutColon`) is skipped: the entries
   * around it are collected as if it were absent.
   */
  lemma CollectSkipsNone(a: seq<Option<Entry>>, b: seq<Option<Entry>>)
    ensures Collect(a + [None] + b) == Collect(a) + Collect(b)
  {
    CollectAppend(a + [None], b);
    assert (a + [None])[..|a|] == a;
  }

  /** A descriptor of the front-end table: the display name and the exiftool key. */
  datatype ExifInfo = ExifInfo(dis: string, exifToolDesc: string)

  const MAKE := ExifInfo("相机制造商", "Make")
  const MODEL := ExifInfo("相机型号", "Camera Model Name")
  const SOFTWARE := ExifInfo("软件", "Software")
  const EXPOSURE_TIME := ExifInfo("快门速度", "Exposure Time")
  const F_NUMBER := ExifInfo("光圈数", "F Number")
  const ISO := ExifInfo("ISO 感光度", "ISO")
  const EXIF_VERSION := ExifInfo("Exif 版本", "Exif Version")
  const DATE_TIME_ORIGINAL := ExifInfo("拍摄时间", "Date/Time Original")
  const OFFSET_TIME := ExifInfo("时区", "Offset Time")
  const MAX_APERTURE_VALUE := ExifInfo("最大光圈", "Max Aperture Value")
  const FOCAL_LENGTH := ExifInfo("焦距", "Focal Length")
  const FOCAL_LENGTH_IN_35MM_FORMAT := ExifInfo("等效焦距", "Focal Length In 35mm Format")
  const IMAGE_WIDTH := ExifInfo("图像宽度", "Image Width")
  const IMAGE_HEIGHT := ExifInfo("图像长度", "Image Height")
  const GPS_LATITUDE_REF := ExifInfo("GPS 纬度参考", "GPS Latitude Ref")
  const GPS_LONGITUDE_REF := ExifInfo("GPS 经度参考", "GPS Longitude Ref")
  const GPS_LATITUDE := ExifInfo("GPS 纬度", "GPS Latitude")
  const GPS_LONGITUDE := ExifInfo("GPS 经度", "GPS Longitude")
  const GPS_ALTITUDE := ExifInfo("GPS 海拔", "GPS Altitude")
  const EXPOSURE_PROGRAM := ExifInfo("曝光程序", "Exposure Program")
  const METERING_MODE := ExifInfo("测光模式", "Metering Mode")
  const FLASH := ExifInfo("闪光灯", "Flash")
  const ARTIST := ExifInfo("艺术家", "Artist")

  /** The descriptors shown by the front end, in display order. */
  const EXIF_INFOS_FRONT: seq<ExifInfo> := [
    MAKE, MODEL, SOFTWARE, EXPOSURE_TIME, F_NUMBER, ISO, EXIF_VERSION,
    DATE_TIME_ORIGINAL, OFFSET_TIME, MAX_APERTURE_VALUE, FOCAL_LENGTH,
    FOCAL_LENGTH_IN_35MM_FORMAT, IMAGE_WIDTH, IMAGE_HEIGHT, GPS_LATITUDE_REF,
    GPS_LONGITUDE_REF, GPS_LATITUDE, GPS_LONGITUDE, GPS_ALTITUDE,
    EXPOSURE_PROGRAM, METERING_MODE, FLASH, ARTIST
  ]

  /** The (display name, value) pairs of the descriptors whose key is in `m`, in table order. */
  function Selected(infos: seq<ExifInfo>, m: map<string, string>): seq<Entry> {
    if infos == [] then []
    else
      var info := infos[|infos| - 1];
      Selected(infos[..|infos| - 1], m) +
        (if info.exifToolDesc in m then [(info.dis, m[info.exifToolDesc])] else [])
  }

  /**
   * A pair is selected iff it is the display name of some descriptor whose
   * key is present, together with that key's value.
   */
  lemma {:induction false} SelectedMember(infos: seq<ExifInfo>, m: map<string, string>, e: Entry)
    ensures e in Selected(infos, m) <==>
              exists i :: 0 <= i < |infos| && infos[i].exifToolDesc in m &&
                e == (infos[i].dis, m[infos[i].exifToolDesc])
  {
    if infos != [] {
      var init := infos[..|infos| - 1];
      SelectedMember(init, m, e);
      assert forall i :: 0 <= i < |init| ==> init[i] == infos[i];
    }
  }

  /** Selection keeps table order: selecting over `a + b` is selecting over `a`, then over `b`. */
  lemma {:induction false} SelectedAppend(a: seq<ExifInfo>, b: seq<ExifInfo>, m: map<string, string>)
    ensures Selected(a + b, m) == Selected(a, m) + Selected(b, m)
    decreases |b|
  {
    if b != [] {
      SelectedAppend(a, b[..|b| - 1], m);
      assert (a + b)[..|a + b| - 1] == a + b[..|b| - 1];
    } else {
      assert a + b == a;
    }
  }

  /** When every key is present, each descriptor yields its own pair at its own position. */
  lemma {:induction false} SelectedAllPresent(infos: seq<ExifInfo>, m: map<string, string>)
    requires forall i :: 0 <= i < |infos| ==> infos[i].exifToolDesc in m
    ensures |Selected(infos, m)| == |infos|
    ensures forall i :: 0 <= i < |infos| ==>
              Selected(infos, m)[i] == (infos[i].dis, m[infos[i].exifToolDesc])
  {
    if infos != [] {
      SelectedAllPresent(infos[..|infos| - 1], m);
    }
  }

  /** No key present, nothing selected. */
  lemma {:induction false} SelectedNone(infos: seq<ExifInfo>, m: map<string, string>)
    requires forall i :: 0 <= i < |infos| ==> infos[i].exifToolDesc !in m
    ensures Selected(infos, m) == []
  {
    if infos != [] {
      SelectedNone(infos[..|infos| - 1], m);
    }
  }
}

