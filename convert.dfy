/**
 * The conversion helper: given `--file <path>`, it names the MP4 it will
 * write after the input's base name and runs FFmpeg with an argument list
 * obtained by splitting a command line on spaces.
 *
 * Path functions follow Python's `posixpath`; running FFmpeg is not modelled.
 */
module Convert {
  import opened Text
  import DiskStorage

  /** The index of the last `c` in `s`, or -1 (Python's `str.rfind`). */
  function LastIndex(s: string, c: char): (r: int)
    ensures -1 <= r < |s|
    ensures r >= 0 ==> s[r] == c
    ensures forall j :: r < j < |s| ==> s[j] != c
  {
    if s == [] then -1 else if s[|s| - 1] == c then |s| - 1 else LastIndex(s[..|s| - 1], c)
  }

  /** `os.path.basename`: what follows the last '/'. */
  function Basename(p: string): (r: string)
    ensures forall i :: 0 <= i < |r| ==> r[i] != '/'
    ensures |r| <= |p| && r == p[|p| - |r|..]
  {
    p[LastIndex(p, '/') + 1..]
  }

  /** Whether `p[from..to]` holds a character other than '.'. */
  predicate HasNonDot(p: string, from: int, to: int)
    requires 0 <= from <= to <= |p|
  {
    exists k :: from <= k < to && p[k] != '.'
  }

  /**
   * `os.path.splitext`: the extension starts at the last '.' of the last
   * path component, unless everything before that dot in the component is
   * dots (so ".profile" has no extension).
   */
  function SplitExt(p: string): (r: (string, string))
    ensures r.0 + r.1 == p
    ensures r.1 == [] || (r.1[0] == '.' && forall i :: 1 <= i < |r.1| ==> r.1[i] != '.' && r.1[i] != '/')
    ensures r.1 != [] <==> HasExtension(p)
  {
    var sepIndex := LastIndex(p, '/');
    var dotIndex := LastIndex(p, '.');
    HasExtensionAtLastDot(p);
    if dotIndex > sepIndex && HasNonDot(p, sepIndex + 1, dotIndex) then
      assert p[..dotIndex] + p[dotIndex..] == p;
      (p[..dotIndex], p[dotIndex..])
    else (p, [])
  }

  /** `splitext`'s test on the last '.' decides whether the last component has an extension. */
  lemma HasExtensionAtLastDot(p: string)
    ensures var sepIndex, dotIndex := LastIndex(p, '/'), LastIndex(p, '.');
      HasExtension(p) <==> dotIndex > sepIndex && HasNonDot(p, sepIndex + 1, dotIndex)
  {
    var sepIndex, dotIndex := LastIndex(p, '/'), LastIndex(p, '.');
    if HasExtension(p) {
      var j, k :| sepIndex < k < j < |p| && p[j] == '.' && p[k] != '.';
      assert dotIndex >= j;
      assert sepIndex + 1 <= k < dotIndex && p[k] != '.';
    }
    if dotIndex > sepIndex && HasNonDot(p, sepIndex + 1, dotIndex) {
      var k :| sepIndex + 1 <= k < dotIndex && p[k] != '.';
      assert sepIndex < k < dotIndex < |p| && p[dotIndex] == '.';
    }
  }

  /**
   * Whether the last component of `p` has an extension for `splitext`: a '.'
   * that follows some character other than '.' in that component.
   */
  predicate HasExtension(p: string)
  {
    exists j, k :: LastIndex(p, '/') < k < j < |p| && p[j] == '.' && p[k] != '.'
  }

  /** `dest` (python/convert.py:12): the input's base name, its extension replaced by ".mp4". */
  function Destination(file: string): (dest: string)
    ensures forall i :: 0 <= i < |dest| ==> dest[i] != '/'
    ensures |dest| >= 4 && dest[|dest| - 4..] == ".mp4"
    ensures dest[..|dest| - 4] == SplitExt(Basename(file)).0
  {
    var base := Basename(file);
    var root := SplitExt(base).0;
    assert root == base[..|root|];
    root + ".mp4"
  }

  /**
   * The command line of python/convert.py:13: the option words, the input
   * path, the audio options and the destination, separated by single spaces.
   */
  function CommandLine(file: string): (r: string)
    ensures Occurrences(r, ' ') >= 11 + Occurrences(file, ' ')
  {
    OccurrencesJoin(Words(file), ' ', 8);
    Join(Words(file), ' ')
  }

  /** The FFmpeg argument vector (python/convert.py:15). */
  function Arguments(file: string): (r: seq<string>)
    ensures |r| >= 12 + Occurrences(file, ' ')
  {
    SplitCount(CommandLine(file), ' ');
    Split(CommandLine(file), ' ')
  }

  predicate NoSpace(s: string)
  {
    forall i :: 0 <= i < |s| ==> s[i] != ' '
  }

  /** The words the command line is made of, in order. */
  function Words(file: string): seq<string>
  {
    ["ffmpeg", "-y", "-hide_banner", "-loglevel", "error", "-r", "30", "-i", file, "-c:a", "copy", Destination(file)]
  }

  /** An input path without spaces is passed to FFmpeg as one argument. */
  lemma ArgumentsWithoutSpaces(file: string)
    requires NoSpace(file)
    ensures Arguments(file) == Words(file)
    ensures Arguments(file)[8] == file
  {
    DestinationWithoutSpace(file);
    SplitJoin(Words(file), ' ');
  }

  /** The destination takes its characters from the input path and ".mp4", so it has no space when the path has none. */
  lemma DestinationWithoutSpace(file: string)
    requires NoSpace(file)
    ensures NoSpace(Destination(file))
  {
    var base := Basename(file);
    var root := SplitExt(base).0;
    var dest := Destination(file);
    assert dest == root + ".mp4";
    forall i | 0 <= i < |dest|
      ensures dest[i] != ' '
    {
      if i < |root| {
        assert root[i] == base[i] == file[|file| - |base| + i];
      }
    }
  }

  /** An input path with a space is broken into more than one argument: FFmpeg gets more than twelve. */
  lemma SpacedPathSplits(file: string)
    requires !NoSpace(file)
    ensures |Arguments(file)| > 12
  {
    OccurrencesPositive(file, ' ');
  }

  /** A join holds the separators between its parts and those inside any one part. */
  lemma {:induction false} OccurrencesJoin(parts: seq<string>, c: char, k: nat)
    requires k < |parts|
    ensures Occurrences(Join(parts, c), c) >= |parts| - 1 + Occurrences(parts[k], c)
    decreases |parts|
  {
    if |parts| > 1 {
      var rest := Join(parts[1..], c);
      OccurrencesAppend(parts[0], [c] + rest, c);
      OccurrencesAppend([c], rest, c);
      assert parts[0] + [c] + rest == parts[0] + ([c] + rest);
      if k == 0 {
        OccurrencesJoin(parts[1..], c, 0);
      } else {
        OccurrencesJoin(parts[1..], c, k - 1);
      }
    }
  }

  lemma {:induction false} OccurrencesAppend(a: string, b: string, c: char)
    ensures Occurrences(a + b, c) == Occurrences(a, c) + Occurrences(b, c)
    decreases |a|
  {
    if a != [] {
      assert (a + b)[1..] == a[1..] + b;
      OccurrencesAppend(a[1..], b, c);
    } else {
      assert a + b == b;
    }
  }

  lemma {:induction false} OccurrencesPositive(s: string, c: char)
    requires exists i :: 0 <= i < |s| && s[i] == c
    ensures Occurrences(s, c) >= 1
    decreases |s|
  {
    if s[0] != c {
      var i :| 0 <= i < |s| && s[i] == c;
      assert s[1..][i - 1] == c;
      OccurrencesPositive(s[1..], c);
    }
  }

  /** The base name is all of the last component: it is the whole path or follows a '/'. */
  lemma BasenameWholeComponent(p: string)
    ensures var r := Basename(p);
      |r| == |p| || p[|p| - |r| - 1] == '/'
  {
    var sep := LastIndex(p, '/');
    assert |p| - |Basename(p)| - 1 == sep;
  }

  /** The directory part of a path: everything up to its base name. */
  function Directory(p: string): (r: string)
    ensures r + Basename(p) == p
    ensures r == [] || r[|r| - 1] == '/'
  {
    p[..|p| - |Basename(p)|]
  }

  /** The destination as evidently intended: the input's directory, then `dest`. */
  function IntendedDestination(file: string): (dest: string)
    ensures Directory(dest) == Directory(file)
    ensures Basename(dest) == Destination(file)
  {
    var dir := Directory(file);
    var dest := dir + Destination(file);
    LastIndexIs(dest, '/', |dir| - 1);
    assert dest[|dir|..] == Destination(file);
    dest
  }

  /** A recording's MP4 is named after its timestamp, in the working directory. */
  lemma RecordingDestination(t: DiskStorage.DateTime)
    requires DiskStorage.ValidDateTime(t)
    ensures Destination(DiskStorage.FileName(t)) == DiskStorage.FormatDateTime(t) + ".mp4"
    ensures NoSpace(DiskStorage.FileName(t)) && NoSpace(Destination(DiskStorage.FileName(t)))
  {
    var stamp := DiskStorage.FormatDateTime(t);
    assert DiskStorage.FileName(t) == "./data/" + (stamp + ".h264");
    StampDestination(stamp);
    LiteralsWithoutSpace(stamp);
  }

  /** The destination of a recording's path is its timestamp and ".mp4". */
  lemma StampDestination(stamp: string)
    requires |stamp| >= 1 && stamp[0] != '.'
    requires forall i :: 0 <= i < |stamp| ==> stamp[i] != '/' && stamp[i] != '.'
    ensures Destination("./data/" + (stamp + ".h264")) == stamp + ".mp4"
  {
    RecordingBasename(stamp);
    StampSplitExt(stamp);
  }

  lemma LiteralsWithoutSpace(stamp: string)
    requires NoSpace(stamp)
    ensures NoSpace("./data/" + (stamp + ".h264")) && NoSpace(stamp + ".mp4")
  {
  }

  /** The base name of a recording's path is the timestamp and ".h264". */
  lemma RecordingBasename(stamp: string)
    requires forall i :: 0 <= i < |stamp| ==> stamp[i] != '/'
    ensures Basename("./data/" + (stamp + ".h264")) == stamp + ".h264"
  {
    var path := "./data/" + (stamp + ".h264");
    assert path[6] == '/';
    LastIndexIs(path, '/', 6);
    assert path[7..] == stamp + ".h264";
  }

  /** A timestamp, starting with a digit and holding no dot, keeps ".h264" as its extension. */
  lemma StampSplitExt(stamp: string)
    requires |stamp| >= 1 && stamp[0] != '.'
    requires forall i :: 0 <= i < |stamp| ==> stamp[i] != '/' && stamp[i] != '.'
    ensures SplitExt(stamp + ".h264") == (stamp, ".h264")
  {
    var base := stamp + ".h264";
    LastIndexIs(base, '/', -1);
    assert base[|stamp|] == '.';
    LastIndexIs(base, '.', |stamp|);
    assert base[0] == stamp[0];
    assert HasNonDot(base, 0, |stamp|);
    assert base[..|stamp|] == stamp && base[|stamp|..] == ".h264";
  }

  /** An index that meets `LastIndex`'s contract is the last index of `c`. */
  lemma LastIndexIs(s: string, c: char, r: int)
    requires -1 <= r < |s| && (r >= 0 ==> s[r] == c)
    requires forall j :: r < j < |s| ==> s[j] != c
    ensures LastIndex(s, c) == r
  {
  }
}
