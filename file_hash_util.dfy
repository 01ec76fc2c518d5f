/**
 * The content-addressed storage layout of argus (`utils/file_hash_util.rs`):
 * where a file with a given hash is stored, and the read-buffer size chosen
 * for hashing a file of a given size.
 */
module FileHashUtil {
  const KIB: nat := 1024
  const MIB: nat := 1024 * 1024

  /** Rust's `u32`. */
  type u32 = x: int | 0 <= x < 0x1_0000_0000

  /**
   * The read-buffer size for hashing a file of `fileSize` bytes: 16 KiB
   * below 10 MiB, 64 KiB below 100 MiB, 256 KiB from there on.
   */
  function BufferSize(fileSize: nat): (r: nat)
    ensures r == 16 * KIB || r == 64 * KIB || r == 256 * KIB
  {
    if fileSize < 10 * MIB then 16 * KIB
    else if fileSize < 100 * MIB then 64 * KIB
    else 256 * KIB
  }

  /** A larger file never gets a smaller buffer. */
  lemma BufferSizeMonotone(a: nat, b: nat)
    requires a <= b
    ensures BufferSize(a) <= BufferSize(b)
  {
  }

  /** Each tier starts exactly at its bound: a file of exactly 10 MiB already gets 64 KiB. */
  lemma BufferSizeTiers(fileSize: nat)
    ensures BufferSize(fileSize) == 16 * KIB <==> fileSize < 10 * MIB
    ensures BufferSize(fileSize) == 64 * KIB <==> 10 * MIB <= fileSize < 100 * MIB
    ensures BufferSize(fileSize) == 256 * KIB <==> 100 * MIB <= fileSize
  {
  }

  /** A path as the sequence of its components, the first being the base path. */
  type Path = seq<string>

  /** A component that `PathBuf::push` treats as absolute (on Unix: a leading `/`). */
  predicate IsAbsolute(c: string) {
    |c| > 0 && c[0] == '/'
  }

  /**
   * `PathBuf::push`: an absolute component replaces the path, any other is
   * appended. Either way the pushed component is the last one, and what
   * precedes it is the old path or nothing.
   */
  function Push(p: Path, c: string): (r: Path)
    ensures |r| >= 1 && r[|r| - 1] == c
    ensures IsAbsolute(c) ==> r == [c]
    ensures !IsAbsolute(c) ==> r[..|r| - 1] == p
  {
    if IsAbsolute(c) then [c] else p + [c]
  }

  /** Pushing the components of `cs` one after the other. */
  function PushAll(p: Path, cs: seq<string>): Path {
    if cs == [] then p else Push(PushAll(p, cs[..|cs| - 1]), cs[|cs| - 1])
  }

  /** A non-empty string of decimal digits. */
  predicate IsDigits(s: string)
  {
    |s| >= 1 && forall i :: 0 <= i < |s| ==> '0' <= s[i] <= '9'
  }

  /** The number a string of decimal digits spells, most significant digit first. */
  function DigitsValue(s: string): nat
    requires forall i :: 0 <= i < |s| ==> '0' <= s[i] <= '9'
  {
    if s == [] then 0 else 10 * DigitsValue(s[..|s| - 1]) + (s[|s| - 1] as int - '0' as int)
  }

  /**
   * The decimal rendering of a number (`to_string`): digits only, reading
   * back as `n`, with no leading zero.
   */
  function DecimalString(n: nat): (r: string)
    ensures IsDigits(r) && DigitsValue(r) == n
    ensures n >= 10 ==> r[0] != '0'
  {
    var digit := ['0' + (n % 10) as char];
    if n < 10 then digit
    else
      var r := DecimalString(n / 10) + digit;
      assert r[..|r| - 1] == DecimalString(n / 10);
      r
  }

  /**
   * The file name `"<compression level>.<suffix>"`: the decimal digits of
   * the level up to the first `.`, then the suffix.
   */
  function FileName(compressionLevel: u32, suffixName: string): (r: string)
    ensures var k := |DecimalString(compressionLevel)|;
      && k < |r| && r[k] == '.' && r[k + 1..] == suffixName
      && IsDigits(r[..k]) && DigitsValue(r[..k]) == compressionLevel
  {
    var digits := DecimalString(compressionLevel);
    var r := digits + "." + suffixName;
    assert r[..|digits|] == digits;
    r
  }

  /** The first `n` two-character slices of `hash`, one per directory level. */
  function LevelDirs(hash: string, n: nat): (r: seq<string>)
    requires 2 * n <= |hash|
    ensures |r| == n
  {
    seq(n, i requires 0 <= i < n => hash[2 * i..2 * i + 2])
  }

  /** The components pushed after the base path: the level directories, the hash, the file name. */
  function Components(hash: string, suffixName: string, compressionLevel: u32, dirLevel: nat): seq<string>
    requires 2 * dirLevel <= |hash|
  {
    LevelDirs(hash, dirLevel) + [hash, FileName(compressionLevel, suffixName)]
  }

  /**
   * `FileHashUtils::hash_to_file_path`: starting from the base path, push
   * one two-character slice of the hash per directory level, then the hash,
   * then the file name. The directory level is a parameter here; the slices
   * require the hash to be long enough.
   */
  method HashToFilePath(hash: string, basePath: string, suffixName: string, compressionLevel: u32, dirLevel: nat)
    returns (path: Path)
    requires 2 * dirLevel <= |hash|
    ensures path == PushAll([basePath], Components(hash, suffixName, compressionLevel, dirLevel))
  {
    path := [basePath];
    for i := 0 to dirLevel
      invariant path == PushAll([basePath], LevelDirs(hash, i))
    {
      var start := i * 2;
      var end := (i + 1) * 2;
      var part := hash[start..end];
      assert LevelDirs(hash, i + 1)[..i] == LevelDirs(hash, i);
      path := Push(path, part);
    }
    PushAllSnoc([basePath], LevelDirs(hash, dirLevel), hash);
    path := Push(path, hash);
    var fileName := FileName(compressionLevel, suffixName);
    PushAllSnoc([basePath], LevelDirs(hash, dirLevel) + [hash], fileName);
    assert LevelDirs(hash, dirLevel) + [hash] + [fileName] ==
           Components(hash, suffixName, compressionLevel, dirLevel);
    path := Push(path, fileName);
  }

  /** Pushing one more component. */
  lemma PushAllSnoc(p: Path, cs: seq<string>, c: string)
    ensures PushAll(p, cs + [c]) == Push(PushAll(p, cs), c)
  {
    assert (cs + [c])[..|cs|] == cs;
  }

  /** Without absolute components, pushing is appending. */
  lemma {:induction false} PushAllRelative(p: Path, cs: seq<string>)
    requires forall i :: 0 <= i < |cs| ==> !IsAbsolute(cs[i])
    ensures PushAll(p, cs) == p + cs
  {
    if cs != [] {
      PushAllRelative(p, cs[..|cs| - 1]);
      assert p + cs[..|cs| - 1] + [cs[|cs| - 1]] == p + cs;
    }
  }

  /**
   * For a hash without `/` (a hex digest), the path is the base path, then
   * `hash[2i..2i+2]` for each level `i`, then the hash, then the file name:
   * `dirLevel + 2` components after the base path.
   */
  lemma HashPathLayout(hash: string, basePath: string, suffixName: string, compressionLevel: u32, dirLevel: nat)
    requires 2 * dirLevel <= |hash| && '/' !in hash
    ensures var p := PushAll([basePath], Components(hash, suffixName, compressionLevel, dirLevel));
      && |p| == dirLevel + 3
      && p[0] == basePath
      && (forall i :: 0 <= i < dirLevel ==> p[i + 1] == hash[2 * i..2 * i + 2])
      && p[dirLevel + 1] == hash
      && p[dirLevel + 2] == FileName(compressionLevel, suffixName)
  {
    var cs := Components(hash, suffixName, compressionLevel, dirLevel);
    forall i | 0 <= i < |cs|
      ensures !IsAbsolute(cs[i])
    {
      if i < dirLevel {
        assert cs[i][0] == hash[2 * i];
      } else if i == dirLevel {
        assert hash != [] ==> hash[0] != '/';
      } else {
        assert cs[i][0] == DecimalString(compressionLevel)[0];
      }
    }
    PushAllRelative([basePath], cs);
  }

  /** The level directories, joined, spell the first `2 * n` characters of the hash. */
  lemma {:induction false} LevelDirsJoin(hash: string, n: nat)
    requires 2 * n <= |hash|
    ensures Concat(LevelDirs(hash, n)) == hash[..2 * n]
  {
    if n > 0 {
      LevelDirsJoin(hash, n - 1);
      assert LevelDirs(hash, n)[..n - 1] == LevelDirs(hash, n - 1);
      assert hash[..2 * n] == hash[..2 * (n - 1)] + hash[2 * (n - 1)..2 * n];
    }
  }

  /** The concatenation of a sequence of strings. */
  function Concat(parts: seq<string>): string {
    if parts == [] then [] else Concat(parts[..|parts| - 1]) + parts[|parts| - 1]
  }
}
