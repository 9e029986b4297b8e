/**
 * Model of src/storage.cpp: the timestamped file name of a new recording and
 * `getStorage`, which closes the previous recording, deletes the oldest files
 * of the data directory until a full-size recording fits, and opens a new one.
 *
 * The file system is a `Volume` object: the files of the data directory (full
 * path to size in bytes), the free space `std::filesystem::space` reports, and
 * a log of the close/remove/create calls made on it. Which removals fail and
 * whether `fopen` succeeds are inputs; the clock is the `DateTime` argument.
 */
module DiskStorage {
  import opened Wrappers

  /** The safety margin kept free on the volume (storage.cpp `bufferSpace`, 512 MiB). */
  const BufferSpace: nat := 512 * 1024 * 1024
  /** The byte budget of one recording (storage.cpp `maxFileSize`, 512 MiB). */
  const MaxFileSize: nat := 512 * 1024 * 1024
  /** 2^64: arithmetic on the 64-bit unsigned `std::uintmax_t` wraps modulo this. */
  const SizeModulus: nat := 0x1_0000_0000_0000_0000
  /** The data directory (storage.h `storageLocation`). */
  const StorageLocation: string := "./data/"
  /** The extension of a raw recording. */
  const Extension: string := ".h264"

  // ---------------------------------------------------------------------------
  // Path order: std::set<std::filesystem::path> orders the entries of one
  // directory by comparing their file names character by character.

  /** Strict lexicographic order on strings (a proper prefix comes first). */
  predicate LexLess(a: string, b: string)
  {
    if |a| == 0 then |b| > 0
    else if |b| == 0 then false
    else a[0] < b[0] || (a[0] == b[0] && LexLess(a[1..], b[1..]))
  }

  lemma {:induction false} LexLessIrreflexive(a: string)
    ensures !LexLess(a, a)
  {
    if |a| > 0 {
      LexLessIrreflexive(a[1..]);
    }
  }

  lemma {:induction false} LexLessTransitive(a: string, b: string, c: string)
    requires LexLess(a, b) && LexLess(b, c)
    ensures LexLess(a, c)
  {
    if |a| > 0 && a[0] == b[0] && b[0] == c[0] {
      LexLessTransitive(a[1..], b[1..], c[1..]);
    }
  }

  lemma {:induction false} LexLessTotal(a: string, b: string)
    ensures a == b || LexLess(a, b) || LexLess(b, a)
  {
    if |a| > 0 && |b| > 0 && a[0] == b[0] {
      LexLessTotal(a[1..], b[1..]);
      if a[1..] == b[1..] {
        assert a == [a[0]] + a[1..] && b == [b[0]] + b[1..];
      }
    }
  }

  lemma LexLessAsymmetric(a: string, b: string)
    requires LexLess(a, b)
    ensures !LexLess(b, a)
  {
    if LexLess(b, a) {
      LexLessTransitive(a, b, a);
      LexLessIrreflexive(a);
    }
  }

  /** A common prefix does not change the order. */
  lemma {:induction false} LexLessCommonPrefix(p: string, a: string, b: string)
    ensures LexLess(p + a, p + b) <==> LexLess(a, b)
  {
    if |p| > 0 {
      assert (p + a)[0] == p[0] == (p + b)[0];
      assert (p + a)[1..] == p[1..] + a && (p + b)[1..] == p[1..] + b;
      LexLessCommonPrefix(p[1..], a, b);
    } else {
      assert p + a == a && p + b == b;
    }
  }

  /** Two strings that start with blocks of the same width compare block first, then the rest. */
  lemma {:induction false} LexLessBlocks(x: string, a: string, y: string, b: string)
    requires |x| == |y|
    ensures LexLess(x + a, y + b) <==> LexLess(x, y) || (x == y && LexLess(a, b))
  {
    if |x| > 0 {
      assert (x + a)[1..] == x[1..] + a && (y + b)[1..] == y[1..] + b;
      LexLessBlocks(x[1..], a, y[1..], b);
      if x[0] == y[0] && x[1..] == y[1..] {
        assert x == [x[0]] + x[1..] && y == [y[0]] + y[1..];
      }
    } else {
      assert x + a == a && y + b == b;
    }
  }

  // ---------------------------------------------------------------------------
  // getDateTime: strftime(..., "%Y-%m-%d_%H:%M:%S", localtime(now)).

  /** The broken-down local time `localtime` produces (month 1..12, second up to 60 for a leap second). */
  datatype DateTime = DateTime(year: nat, month: nat, day: nat, hour: nat, minute: nat, second: nat)

  predicate ValidDateTime(t: DateTime)
  {
    1 <= t.month <= 12 && 1 <= t.day <= 31 && t.hour < 24 && t.minute < 60 && t.second <= 60
  }

  /** A year written with exactly four digits, as every year from 1000 to 9999 is. */
  predicate FourDigitYear(t: DateTime)
  {
    1000 <= t.year <= 9999
  }

  /** Chronological order of two date-times: year first, then month, day, hour, minute, second. */
  predicate Before(a: DateTime, b: DateTime)
  {
    a.year < b.year || (a.year == b.year &&
    (a.month < b.month || (a.month == b.month &&
    (a.day < b.day || (a.day == b.day &&
    (a.hour < b.hour || (a.hour == b.hour &&
    (a.minute < b.minute || (a.minute == b.minute && a.second < b.second)))))))))
  }

  function Digit(d: nat): (c: char)
    requires d < 10
    ensures '0' <= c <= '9'
  {
    ('0' as int + d) as char
  }

  /** Number of decimal digits of `n`. */
  function Width(n: nat): (w: nat)
    ensures w >= 1
  {
    if n < 10 then 1 else 1 + Width(n / 10)
  }

  /** `n` in decimal without padding (what %Y prints for a year). */
  function Decimal(n: nat): (s: string)
    ensures |s| == Width(n)
    ensures forall i :: 0 <= i < |s| ==> '0' <= s[i] <= '9'
  {
    if n < 10 then [Digit(n)] else Decimal(n / 10) + [Digit(n % 10)]
  }

  /** `n` as two digits with a leading zero (what %m, %d, %H, %M and %S print). */
  function Pad2(n: nat): (s: string)
    requires n < 100
    ensures |s| == 2 && '0' <= s[0] <= '9' && '0' <= s[1] <= '9'
  {
    [Digit(n / 10), Digit(n % 10)]
  }

  /** The timestamp getDateTime returns: "YYYY-MM-DD_HH:MM:SS". */
  function FormatDateTime(t: DateTime): (s: string)
    requires ValidDateTime(t)
    ensures FourDigitYear(t) ==> |s| == 19
    ensures |s| >= 1 && '0' <= s[0] <= '9'
    ensures forall i :: 0 <= i < |s| ==> s[i] != '/' && s[i] != '.' && s[i] != ' '
  {
    YearWidth(t.year);
    Decimal(t.year) + ("-" + (Pad2(t.month) + ("-" + (Pad2(t.day) + ("_" +
      (Pad2(t.hour) + (":" + (Pad2(t.minute) + (":" + Pad2(t.second))))))))))
  }

  /** The path of the recording created at `t`: storageLocation + getDateTime() + ".h264". */
  function FileName(t: DateTime): (path: string)
    requires ValidDateTime(t)
    ensures |path| >= |StorageLocation| + |Extension|
    ensures path[..|StorageLocation|] == StorageLocation
    ensures path[|path| - |Extension|..] == Extension
  {
    StorageLocation + (FormatDateTime(t) + Extension)
  }

  lemma YearWidth(y: nat)
    ensures 1000 <= y <= 9999 ==> Width(y) == 4
  {
    if 1000 <= y <= 9999 {
      assert 100 <= y / 10 < 1000 && 10 <= y / 10 / 10 < 100 && 1 <= y / 10 / 10 / 10 < 10;
      assert Width(y / 10 / 10 / 10) == 1;
      assert Width(y / 10 / 10) == 2;
      assert Width(y / 10) == 3;
    }
  }

  lemma {:induction false} DecimalOrder(a: nat, b: nat)
    requires Width(a) == Width(b)
    ensures LexLess(Decimal(a), Decimal(b)) <==> a < b
  {
    if a < 10 {
      assert b < 10;
    } else {
      assert b >= 10;
      DecimalOrder(a / 10, b / 10);
      LexLessBlocks(Decimal(a / 10), [Digit(a % 10)], Decimal(b / 10), [Digit(b % 10)]);
      if Decimal(a / 10) == Decimal(b / 10) {
        LexLessIrreflexive(Decimal(a / 10));
        DecimalOrder(b / 10, a / 10);
      }
    }
  }

  lemma DecimalInjective(a: nat, b: nat)
    requires Width(a) == Width(b) && Decimal(a) == Decimal(b)
    ensures a == b
  {
    DecimalOrder(a, b);
    DecimalOrder(b, a);
    LexLessIrreflexive(Decimal(a));
  }

  lemma Pad2Order(a: nat, b: nat)
    requires a < 100 && b < 100
    ensures LexLess(Pad2(a), Pad2(b)) <==> a < b
    ensures Pad2(a) == Pad2(b) <==> a == b
  {
    var x, y := Pad2(a), Pad2(b);
    assert x[1..] == [Digit(a % 10)] && y[1..] == [Digit(b % 10)];
    assert x[1..][1..] == [] && y[1..][1..] == [];
    assert LexLess(x[1..], y[1..]) <==> a % 10 < b % 10;
    assert LexLess(x, y) <==> a / 10 < b / 10 || (a / 10 == b / 10 && a % 10 < b % 10);
    assert a == 10 * (a / 10) + a % 10 && b == 10 * (b / 10) + b % 10;
  }

  /** Comparing a two-digit field followed by the rest. */
  lemma FieldStep(m: nat, n: nat, a: string, b: string)
    requires m < 100 && n < 100
    ensures LexLess(Pad2(m) + a, Pad2(n) + b) <==> m < n || (m == n && LexLess(a, b))
  {
    LexLessBlocks(Pad2(m), a, Pad2(n), b);
    Pad2Order(m, n);
  }

  /**
   * Fixed-width, zero-padded fields make the string order of two timestamps the
   * chronological order of the times they were taken.
   */
  lemma TimestampOrder(a: DateTime, b: DateTime)
    requires ValidDateTime(a) && ValidDateTime(b) && FourDigitYear(a) && FourDigitYear(b)
    ensures LexLess(FormatDateTime(a), FormatDateTime(b)) <==> Before(a, b)
  {
    YearWidth(a.year);
    YearWidth(b.year);
    var s5a, s5b := ":" + Pad2(a.second), ":" + Pad2(b.second);
    var s4a, s4b := ":" + (Pad2(a.minute) + s5a), ":" + (Pad2(b.minute) + s5b);
    var s3a, s3b := "_" + (Pad2(a.hour) + s4a), "_" + (Pad2(b.hour) + s4b);
    var s2a, s2b := "-" + (Pad2(a.day) + s3a), "-" + (Pad2(b.day) + s3b);
    var s1a, s1b := "-" + (Pad2(a.month) + s2a), "-" + (Pad2(b.month) + s2b);
    LexLessCommonPrefix(":", Pad2(a.second), Pad2(b.second));
    Pad2Order(a.second, b.second);
    LexLessCommonPrefix(":", Pad2(a.minute) + s5a, Pad2(b.minute) + s5b);
    FieldStep(a.minute, b.minute, s5a, s5b);
    LexLessCommonPrefix("_", Pad2(a.hour) + s4a, Pad2(b.hour) + s4b);
    FieldStep(a.hour, b.hour, s4a, s4b);
    LexLessCommonPrefix("-", Pad2(a.day) + s3a, Pad2(b.day) + s3b);
    FieldStep(a.day, b.day, s3a, s3b);
    LexLessCommonPrefix("-", Pad2(a.month) + s2a, Pad2(b.month) + s2b);
    FieldStep(a.month, b.month, s2a, s2b);
    LexLessBlocks(Decimal(a.year), s1a, Decimal(b.year), s1b);
    DecimalOrder(a.year, b.year);
    if Decimal(a.year) == Decimal(b.year) {
      DecimalInjective(a.year, b.year);
    }
  }

  /** Recording file names sort in the order the recordings were created. */
  lemma FileNameOrder(a: DateTime, b: DateTime)
    requires ValidDateTime(a) && ValidDateTime(b) && FourDigitYear(a) && FourDigitYear(b)
    ensures LexLess(FileName(a), FileName(b)) <==> Before(a, b)
  {
    LexLessCommonPrefix(StorageLocation, FormatDateTime(a) + Extension, FormatDateTime(b) + Extension);
    LexLessBlocks(FormatDateTime(a), Extension, FormatDateTime(b), Extension);
    LexLessIrreflexive(Extension);
    TimestampOrder(a, b);
  }

  // ---------------------------------------------------------------------------
  // The oldest entry: `*entries.begin()` of the ordered set of paths.

  ghost predicate IsSmallest(s: set<string>, m: string)
  {
    m in s && forall x {:trigger LexLess(m, x)} :: x in s ==> x == m || LexLess(m, x)
  }

  lemma {:induction false} SmallestExists(s: set<string>)
    requires s != {}
    ensures exists m :: IsSmallest(s, m)
    decreases |s|
  {
    var x :| x in s;
    var rest := s - {x};
    if rest == {} {
      assert s == rest + {x} == {x};
      assert IsSmallest(s, x);
    } else {
      SmallestExists(rest);
      var m :| IsSmallest(rest, m);
      LexLessTotal(x, m);
      if LexLess(x, m) {
        forall y | y in s ensures y == x || LexLess(x, y) {
          if y != x && y != m {
            LexLessTransitive(x, m, y);
          }
        }
        assert IsSmallest(s, x);
      } else {
        assert IsSmallest(s, m);
      }
    }
  }

  lemma SmallestUnique(s: set<string>, m: string, n: string)
    requires IsSmallest(s, m) && IsSmallest(s, n)
    ensures m == n
  {
    if m != n {
      LexLessAsymmetric(m, n);
    }
  }

  /** The first element of `s` in path order. */
  ghost function Smallest(s: set<string>): (m: string)
    requires s != {}
    ensures m in s
  {
    SmallestExists(s);
    var m :| IsSmallest(s, m); m
  }

  lemma SmallestIsSmallest(s: set<string>)
    requires s != {}
    ensures IsSmallest(s, Smallest(s))
  {
  }

  /**
   * Collects the directory entries into the ordered set and takes its first
   * element: the entry with the smallest path.
   */
  method Oldest(entries: set<string>) returns (target: string)
    requires entries != {}
    ensures target == Smallest(entries)
  {
    var rest := entries;
    target :| target in rest;
    rest := rest - {target};
    while rest != {}
      decreases rest
      invariant rest <= entries && target in entries && target !in rest
      invariant forall x :: x in entries && x !in rest ==> x == target || LexLess(target, x)
    {
      var x :| x in rest;
      LexLessTotal(x, target);
      if LexLess(x, target) {
        forall y | y in entries && y !in rest && y != target
          ensures LexLess(x, y)
        {
          LexLessTransitive(x, target, y);
        }
        target := x;
      }
      rest := rest - {x};
    }
    SmallestIsSmallest(entries);
    SmallestUnique(entries, target, Smallest(entries));
  }

  // ---------------------------------------------------------------------------
  // The eviction loop of getStorage.

  /**
   * `space(storageLocation).available - bufferSpace` in `std::uintmax_t`: below the
   * margin the subtraction wraps around to a value close to 2^64.
   */
  function FreeSpace(available: nat): (r: nat)
    ensures r < SizeModulus
    ensures BufferSpace <= available < BufferSpace + SizeModulus ==> r == available - BufferSpace
    ensures available < BufferSpace ==> r == SizeModulus - (BufferSpace - available)
  {
    (available - BufferSpace) % SizeModulus
  }

  /** How the eviction loop stopped. */
  datatype EvictionEnd = Enough | NothingToRemove | RemoveFailed

  /** The files deleted, in order, the directory and free space afterwards, and how the loop stopped. */
  datatype Eviction = Eviction(deleted: seq<string>, files: map<string, nat>, available: nat, end: EvictionEnd)

  /** The total size of the files `paths` of `files`. */
  function SizeOf(files: map<string, nat>, paths: seq<string>): nat
    requires forall i :: 0 <= i < |paths| ==> paths[i] in files
  {
    if paths == [] then 0 else files[paths[0]] + SizeOf(files, paths[1..])
  }

  /**
   * The eviction loop as written: while the (wrapping) free space is below
   * `maxFileSize`, remove the smallest path of the directory; stop with an
   * error when the directory is empty or the removal fails. Removing a file
   * frees its size.
   */
  ghost function Evict(files: map<string, nat>, available: nat, removeFails: set<string>): (r: Eviction)
    ensures r.end == Enough <==> FreeSpace(r.available) >= MaxFileSize
    ensures r.end == NothingToRemove ==> r.files == map[]
    ensures r.end == RemoveFailed ==> r.files != map[] && Smallest(r.files.Keys) in removeFails
    decreases |files|
  {
    if FreeSpace(available) >= MaxFileSize then Eviction([], files, available, Enough)
    else if files == map[] then Eviction([], files, available, NothingToRemove)
    else
      var oldest := Smallest(files.Keys);
      if oldest in removeFails then Eviction([], files, available, RemoveFailed)
      else
        var rest := Evict(files - {oldest}, available + files[oldest], removeFails);
        Eviction([oldest] + rest.deleted, rest.files, rest.available, rest.end)
  }

  /** Eviction only deletes files that exist and whose removal succeeds. */
  lemma {:induction false} EvictDeletesExisting(files: map<string, nat>, available: nat, removeFails: set<string>)
    ensures forall i :: 0 <= i < |Evict(files, available, removeFails).deleted| ==>
      Evict(files, available, removeFails).deleted[i] in files && Evict(files, available, removeFails).deleted[i] !in removeFails
    decreases |files|
  {
    if FreeSpace(available) < MaxFileSize && files != map[] && Smallest(files.Keys) !in removeFails {
      var oldest := Smallest(files.Keys);
      var rest := Evict(files - {oldest}, available + files[oldest], removeFails);
      EvictStep(files, available, removeFails);
      EvictDeletesExisting(files - {oldest}, available + files[oldest], removeFails);
      var d := [oldest] + rest.deleted;
      forall i | 0 <= i < |d| ensures d[i] in files && d[i] !in removeFails {
        if i > 0 {
          assert d[i] == rest.deleted[i - 1];
        }
      }
    }
  }

  /** Eviction keeps every file it does not delete, with its size. */
  lemma {:induction false} EvictKeepsOthers(files: map<string, nat>, available: nat, removeFails: set<string>)
    ensures forall k :: k in Evict(files, available, removeFails).files <==> k in files && k !in Evict(files, available, removeFails).deleted
    ensures forall k :: k in Evict(files, available, removeFails).files ==> Evict(files, available, removeFails).files[k] == files[k]
    decreases |files|
  {
    if FreeSpace(available) < MaxFileSize && files != map[] && Smallest(files.Keys) !in removeFails {
      var oldest := Smallest(files.Keys);
      EvictStep(files, available, removeFails);
      EvictKeepsOthers(files - {oldest}, available + files[oldest], removeFails);
    }
  }

  /** Eviction frees exactly the sizes of the files it deletes. */
  lemma {:induction false} EvictFreesDeletedSizes(files: map<string, nat>, available: nat, removeFails: set<string>)
    ensures forall i :: 0 <= i < |Evict(files, available, removeFails).deleted| ==> Evict(files, available, removeFails).deleted[i] in files
    ensures Evict(files, available, removeFails).available == available + SizeOf(files, Evict(files, available, removeFails).deleted)
    decreases |files|
  {
    EvictDeletesExisting(files, available, removeFails);
    if FreeSpace(available) < MaxFileSize && files != map[] && Smallest(files.Keys) !in removeFails {
      var oldest := Smallest(files.Keys);
      var rest := Evict(files - {oldest}, available + files[oldest], removeFails);
      EvictStep(files, available, removeFails);
      EvictFreesDeletedSizes(files - {oldest}, available + files[oldest], removeFails);
      SizeOfRemoved(files, oldest, rest.deleted);
      var d := [oldest] + rest.deleted;
      assert d[1..] == rest.deleted;
    }
  }

  lemma {:induction false} SizeOfRemoved(files: map<string, nat>, gone: string, paths: seq<string>)
    requires gone in files
    requires forall i :: 0 <= i < |paths| ==> paths[i] in files - {gone}
    ensures SizeOf(files - {gone}, paths) == SizeOf(files, paths)
  {
    if paths != [] {
      SizeOfRemoved(files, gone, paths[1..]);
    }
  }

  /** One iteration of the eviction loop that removes the oldest file. */
  lemma EvictStep(files: map<string, nat>, available: nat, removeFails: set<string>)
    requires FreeSpace(available) < MaxFileSize && files != map[]
    requires Smallest(files.Keys) !in removeFails
    ensures var oldest := Smallest(files.Keys);
      var rest := Evict(files - {oldest}, available + files[oldest], removeFails);
      Evict(files, available, removeFails) == Eviction([oldest] + rest.deleted, rest.files, rest.available, rest.end)
  {
  }

  /** Paths listed in strictly increasing order. */
  predicate Ascending(paths: seq<string>)
  {
    forall i, j :: 0 <= i < j < |paths| ==> LexLess(paths[i], paths[j])
  }

  /** Every listed path sorts before every path of `survivors`. */
  predicate AllBefore(paths: seq<string>, survivors: set<string>)
  {
    forall i, k :: 0 <= i < |paths| && k in survivors ==> LexLess(paths[i], k)
  }

  lemma PrependAscending(first: string, rest: seq<string>)
    requires Ascending(rest)
    requires forall i :: 0 <= i < |rest| ==> LexLess(first, rest[i])
    ensures Ascending([first] + rest)
  {
    var d := [first] + rest;
    forall i, j | 0 <= i < j < |d| ensures LexLess(d[i], d[j]) {
      assert d[j] == rest[j - 1];
      if i > 0 {
        assert d[i] == rest[i - 1];
      }
    }
  }

  lemma PrependAllBefore(first: string, rest: seq<string>, survivors: set<string>)
    requires AllBefore(rest, survivors)
    requires forall k :: k in survivors ==> LexLess(first, k)
    ensures AllBefore([first] + rest, survivors)
  {
    var d := [first] + rest;
    forall i, k | 0 <= i < |d| && k in survivors ensures LexLess(d[i], k) {
      if i > 0 {
        assert d[i] == rest[i - 1];
      }
    }
  }

  /** Oldest first: files are deleted in increasing path order. */
  lemma {:induction false} EvictsInPathOrder(files: map<string, nat>, available: nat, removeFails: set<string>)
    ensures Ascending(Evict(files, available, removeFails).deleted)
    decreases |files|
  {
    if FreeSpace(available) < MaxFileSize && files != map[] && Smallest(files.Keys) !in removeFails {
      var oldest := Smallest(files.Keys);
      var rest := Evict(files - {oldest}, available + files[oldest], removeFails);
      EvictStep(files, available, removeFails);
      EvictsInPathOrder(files - {oldest}, available + files[oldest], removeFails);
      EvictDeletesExisting(files - {oldest}, available + files[oldest], removeFails);
      OldestFirst(files.Keys, oldest, rest.deleted);
    }
  }

  lemma OldestFirst(keys: set<string>, oldest: string, deleted: seq<string>)
    requires keys != {} && oldest == Smallest(keys)
    requires forall i :: 0 <= i < |deleted| ==> deleted[i] in keys - {oldest}
    requires Ascending(deleted)
    ensures Ascending([oldest] + deleted)
  {
    SmallestIsSmallest(keys);
    forall i | 0 <= i < |deleted| ensures LexLess(oldest, deleted[i]) {
      assert deleted[i] in keys && deleted[i] != oldest;
    }
    PrependAscending(oldest, deleted);
  }

  /** Eviction never adds a file. */
  lemma {:induction false} EvictShrinks(files: map<string, nat>, available: nat, removeFails: set<string>)
    ensures Evict(files, available, removeFails).files.Keys <= files.Keys
    decreases |files|
  {
    if FreeSpace(available) < MaxFileSize && files != map[] && Smallest(files.Keys) !in removeFails {
      var oldest := Smallest(files.Keys);
      EvictStep(files, available, removeFails);
      EvictShrinks(files - {oldest}, available + files[oldest], removeFails);
    }
  }

  /** Every deleted file is older than every file that survives the eviction. */
  lemma {:induction false} EvictsBeforeSurvivors(files: map<string, nat>, available: nat, removeFails: set<string>)
    ensures AllBefore(Evict(files, available, removeFails).deleted, Evict(files, available, removeFails).files.Keys)
    decreases |files|
  {
    if FreeSpace(available) < MaxFileSize && files != map[] && Smallest(files.Keys) !in removeFails {
      var oldest := Smallest(files.Keys);
      var rest := Evict(files - {oldest}, available + files[oldest], removeFails);
      EvictStep(files, available, removeFails);
      EvictsBeforeSurvivors(files - {oldest}, available + files[oldest], removeFails);
      EvictShrinks(files - {oldest}, available + files[oldest], removeFails);
      OldestBeforeSurvivors(files, rest.deleted, rest.files.Keys);
    } else {
      EvictStops(files, available, removeFails);
    }
  }

  /** When the loop does not run, nothing is deleted. */
  lemma EvictStops(files: map<string, nat>, available: nat, removeFails: set<string>)
    requires FreeSpace(available) >= MaxFileSize || files == map[] || Smallest(files.Keys) in removeFails
    ensures Evict(files, available, removeFails).deleted == []
    ensures Evict(files, available, removeFails).files == files
  {
  }

  lemma OldestBeforeSurvivors(files: map<string, nat>, deleted: seq<string>, survivors: set<string>)
    requires files != map[]
    requires survivors <= (files - {Smallest(files.Keys)}).Keys
    requires AllBefore(deleted, survivors)
    ensures AllBefore([Smallest(files.Keys)] + deleted, survivors)
  {
    var oldest := Smallest(files.Keys);
    SmallestIsSmallest(files.Keys);
    forall k | k in survivors ensures LexLess(oldest, k) {
      assert k in files && k != oldest;
    }
    PrependAllBefore(oldest, deleted, survivors);
  }

  /** When the free space already suffices, nothing is deleted. */
  lemma NoEvictionWhenSpaceSuffices(files: map<string, nat>, available: nat, removeFails: set<string>)
    requires FreeSpace(available) >= MaxFileSize
    ensures Evict(files, available, removeFails) == Eviction([], files, available, Enough)
  {
  }

  /**
   * As written, a volume whose free space is below the 512 MiB margin makes the
   * subtraction wrap: the loop sees almost 2^64 free bytes and deletes nothing,
   * however full the volume is.
   */
  lemma WrapSkipsEviction(files: map<string, nat>, available: nat, removeFails: set<string>)
    requires available < BufferSpace
    ensures Evict(files, available, removeFails) == Eviction([], files, available, Enough)
    ensures available < BufferSpace + MaxFileSize
  {
    assert FreeSpace(available) == SizeModulus - (BufferSpace - available);
  }

  /** The intended eviction loop: compare without wrapping, keeping `bufferSpace + maxFileSize` free. */
  ghost function EvictIntended(files: map<string, nat>, available: nat, removeFails: set<string>): (r: Eviction)
    ensures r.end == Enough <==> r.available >= BufferSpace + MaxFileSize
    ensures r.available >= available
    decreases |files|
  {
    if available >= BufferSpace + MaxFileSize then Eviction([], files, available, Enough)
    else if files == map[] then Eviction([], files, available, NothingToRemove)
    else
      var oldest := Smallest(files.Keys);
      if oldest in removeFails then Eviction([], files, available, RemoveFailed)
      else
        var rest := EvictIntended(files - {oldest}, available + files[oldest], removeFails);
        Eviction([oldest] + rest.deleted, rest.files, rest.available, rest.end)
  }

  /** A concrete input on which the two differ: one file and no free space at all. */
  lemma WrapCounterexample()
    ensures Evict(map["./data/a.h264" := 100], 0, {}).deleted == []
    ensures EvictIntended(map["./data/a.h264" := 100], 0, {}).deleted == ["./data/a.h264"]
  {
    WrapSkipsEviction(map["./data/a.h264" := 100], 0, {});
    var files := map["./data/a.h264" := 100];
    assert IsSmallest(files.Keys, "./data/a.h264");
    SmallestIsSmallest(files.Keys);
    SmallestUnique(files.Keys, "./data/a.h264", Smallest(files.Keys));
    assert files - {"./data/a.h264"} == map[];
  }

  // ---------------------------------------------------------------------------
  // getStorage.

  /** storage.h `Storage`: the remaining byte budget and the open file (None for nullptr). */
  datatype Storage = Storage(space: nat, file: Option<string>)

  /** A call getStorage makes on the file system. */
  datatype Event = Closed(path: string) | Removed(path: string) | Created(path: string)

  /** The file system as getStorage sees it. */
  class Volume {
    /** The entries of the data directory: path to size in bytes. */
    var files: map<string, nat>
    /** What `std::filesystem::space(storageLocation).available` reports. */
    var available: nat
    /** The fclose/remove/fopen calls made so far, oldest first. */
    var events: seq<Event>

    constructor (files: map<string, nat>, available: nat)
      ensures this.files == files && this.available == available && events == []
    {
      this.files := files;
      this.available := available;
      events := [];
    }
  }

  function CloseEvents(previous: Storage): seq<Event>
  {
    if previous.file.Some? then [Closed(previous.file.value)] else []
  }

  /** The removal events of `paths`, in order. */
  function Removals(paths: seq<string>): (r: seq<Event>)
  {
    if paths == [] then [] else Removals(paths[..|paths| - 1]) + [Removed(paths[|paths| - 1])]
  }

  lemma RemovalsAppend(paths: seq<string>, p: string)
    ensures Removals(paths + [p]) == Removals(paths) + [Removed(p)]
  {
    assert (paths + [p])[..|paths|] == paths;
  }

  /** `rest`, preceded by the deletions already made. */
  function Resume(deleted: seq<string>, rest: Eviction): Eviction
  {
    Eviction(deleted + rest.deleted, rest.files, rest.available, rest.end)
  }

  /** One deletion moves from the remaining eviction to the ones already made. */
  lemma ResumeStep(deleted: seq<string>, files: map<string, nat>, available: nat, removeFails: set<string>)
    requires FreeSpace(available) < MaxFileSize && files != map[] && Smallest(files.Keys) !in removeFails
    ensures var oldest := Smallest(files.Keys);
      && Resume(deleted, Evict(files, available, removeFails))
         == Resume(deleted + [oldest], Evict(files - {oldest}, available + files[oldest], removeFails))
      && |files - {oldest}| < |files|
  {
    var oldest := Smallest(files.Keys);
    assert oldest in files;
    var rest := Evict(files - {oldest}, available + files[oldest], removeFails);
    EvictStep(files, available, removeFails);
    assert deleted + ([oldest] + rest.deleted) == (deleted + [oldest]) + rest.deleted;
  }

  /** When the loop stops, nothing of the eviction remains but its outcome. */
  lemma ResumeDone(deleted: seq<string>, files: map<string, nat>, available: nat, removeFails: set<string>)
    requires FreeSpace(available) >= MaxFileSize || files == map[] || Smallest(files.Keys) in removeFails
    ensures var e := Resume(deleted, Evict(files, available, removeFails));
      e.deleted == deleted && e.files == files && e.available == available
    ensures Evict(files, available, removeFails).end == Enough <==> FreeSpace(available) >= MaxFileSize
  {
    assert deleted + [] == deleted;
  }

  /**
   * The while loop of getStorage: deletes the smallest path of the directory
   * while the free space is short. Returns false where getStorage returns the
   * empty Storage (no entry left, or a failed removal).
   */
  method EvictOldest(vol: Volume, removeFails: set<string>) returns (ok: bool)
    modifies vol
    ensures var e := Evict(old(vol.files), old(vol.available), removeFails);
      && ok == (e.end == Enough)
      && vol.files == e.files && vol.available == e.available
      && vol.events == old(vol.events) + Removals(e.deleted)
  {
    var files, available, events;
    ok, files, available, events := Cull(vol.files, vol.available, vol.events, removeFails);
    vol.files, vol.available, vol.events := files, available, events;
  }

  /** The loop itself, over the directory listing, the free space and the event log. */
  method Cull(files0: map<string, nat>, available0: nat, events0: seq<Event>, removeFails: set<string>)
    returns (ok: bool, files: map<string, nat>, available: nat, events: seq<Event>)
    ensures var e := Evict(files0, available0, removeFails);
      && ok == (e.end == Enough)
      && files == e.files && available == e.available
      && events == events0 + Removals(e.deleted)
  {
    files, available, events := files0, available0, events0;
    ghost var deleted: seq<string> := [];
    var freeSpace := FreeSpace(available);
    ok := true;
    while freeSpace < MaxFileSize
      invariant freeSpace == FreeSpace(available)
      invariant Evict(files0, available0, removeFails) == Resume(deleted, Evict(files, available, removeFails))
      invariant events == events0 + Removals(deleted)
      decreases |files|
    {
      if files == map[] {
        ok := false;
        break;
      }
      var oldest := Oldest(files.Keys);
      if oldest in removeFails {
        ok := false;
        break;
      }
      ResumeStep(deleted, files, available, removeFails);
      RemovalsAppend(deleted, oldest);
      deleted := deleted + [oldest];
      events := events + [Removed(oldest)];
      available := available + files[oldest];
      files := files - {oldest};
      freeSpace := FreeSpace(available);
    }
    ResumeDone(deleted, files, available, removeFails);
  }

  /**
   * getStorage: close the old file, evict oldest-first until a full recording
   * fits, then create ./data/<timestamp>.h264 with a fresh 512 MiB budget. Any
   * failure returns the empty `Storage{0, nullptr}`.
   */
  method GetStorage(vol: Volume, oldStorage: Storage, now: DateTime, removeFails: set<string>, createOk: bool)
    returns (r: Storage)
    requires ValidDateTime(now)
    modifies vol
    ensures var e := Evict(old(vol.files), old(vol.available), removeFails);
      var success := e.end == Enough && createOk;
      var name := FileName(now);
      && r == (if success then Storage(MaxFileSize, Some(name)) else Storage(0, None))
      && vol.events == old(vol.events) + CloseEvents(oldStorage) + Removals(e.deleted)
                       + (if success then [Created(name)] else [])
      && vol.files == (if success then e.files[name := 0] else e.files)
      && vol.available == (if success && name in e.files then e.available + e.files[name] else e.available)
  {
    vol.events := vol.events + CloseEvents(oldStorage);
    var ok := EvictOldest(vol, removeFails);
    if !ok {
      return Storage(0, None);
    }
    var name := FileName(now);
    if !createOk {
      return Storage(0, None);
    }
    if name in vol.files {
      vol.available := vol.available + vol.files[name];
    }
    vol.files := vol.files[name := 0];
    vol.events := vol.events + [Created(name)];
    r := Storage(MaxFileSize, Some(name));
  }
}
