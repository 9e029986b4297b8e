/**
 * Post-processing of the recorded clips: every entry of the storage
 * directory is converted to MP4, the source clip is deleted, the MP4 is
 * uploaded and then deleted, and the entries that did not get through all
 * four steps are counted.
 *
 * The two scripts run through `system` and the two `remove` calls are given
 * as their outcomes; the model records the commands run and the files
 * removed, in order.
 */
module Upload {
  import opened Convert
  import DiskStorage

  /** `std::filesystem::path::extension`: where the extension of the last component starts, or -1. */
  function ExtensionStart(p: string): (r: int)
    ensures -1 <= r < |p|
    ensures r >= 0 ==> p[r] == '.' && forall j :: r < j < |p| ==> p[j] != '.' && p[j] != '/'
    ensures r >= 0 ==> r >= 1 && p[r - 1] != '/'
  {
    var name := Basename(p);
    var dot := LastIndex(name, '.');
    if name == "." || name == ".." || dot <= 0 then -1
    else
      assert name[dot - 1] == p[|p| - |name| + dot - 1];
      |p| - |name| + dot
  }

  /**
   * A last component without extension: "." or "..", or a name with no '.'
   * after its first character.
   */
  predicate NoExtension(name: string)
  {
    || (|name| <= 2 && forall i :: 0 <= i < |name| ==> name[i] == '.')
    || forall i :: 1 <= i < |name| ==> name[i] != '.'
  }

  /** `extension` is empty exactly for a last component without extension. */
  lemma ExtensionMissing(p: string)
    ensures ExtensionStart(p) < 0 <==> NoExtension(Basename(p))
  {
  }

  /** The path without the extension of its last component. */
  function Stem(p: string): string
  {
    var start := ExtensionStart(p);
    if start < 0 then p else p[..start]
  }

  /**
   * The path handed to the upload script (src/upload.cpp:33-34):
   * `replace_extension(".mp4")` drops the extension, if any, and appends
   * ".mp4"; no dot is added, since the replacement starts with one.
   */
  function ConvertedPath(p: string): (r: string)
  {
    var r := Stem(p) + ".mp4";
    assert r[..|r| - 4] == Stem(p);
    r
  }

  /**
   * When the last component is not empty, ".mp4" is the extension of the
   * converted path, the stem survives, and converting again changes nothing.
   */
  lemma ConvertedPathRoundTrip(p: string)
    requires Basename(p) != ""
    ensures var r := ConvertedPath(p);
      ExtensionStart(r) == |r| - 4 && Stem(r) == Stem(p) && ConvertedPath(r) == r
  {
    var stem := Stem(p);
    var r := ConvertedPath(p);
    assert r == stem + ".mp4";
    StemKeepsName(p);
    BasenameAppend(stem, ".mp4");
    assert r[|r| - 4..] == ".mp4";
    Mp4ExtensionStart(r, Basename(stem));
    assert Stem(r) == stem;
    assert ConvertedPath(r) == stem + ".mp4";
  }

  /** Dropping the extension of a nonempty last component leaves it nonempty. */
  lemma StemKeepsName(p: string)
    requires Basename(p) != ""
    ensures Basename(Stem(p)) != ""
  {
    var start := ExtensionStart(p);
    if start >= 0 {
      var stem := p[..start];
      assert stem[|stem| - 1] != '/';
      assert LastIndex(stem, '/') < |stem| - 1;
    }
  }

  /** Appending a text without '/' extends the last component. */
  lemma BasenameAppend(a: string, b: string)
    requires forall i :: 0 <= i < |b| ==> b[i] != '/'
    ensures Basename(a + b) == Basename(a) + b
  {
    var sep := LastIndex(a, '/');
    LastIndexIs(a + b, '/', sep);
    assert (a + b)[sep + 1..] == a[sep + 1..] + b;
  }

  /** A path whose last component is a nonempty name followed by ".mp4" has ".mp4" as its extension. */
  lemma Mp4ExtensionStart(r: string, base: string)
    requires base != [] && |r| >= 4 && r[|r| - 4..] == ".mp4" && Basename(r) == base + ".mp4"
    ensures ExtensionStart(r) == |r| - 4
  {
    var name := base + ".mp4";
    assert name[|base|] == '.';
    assert forall j :: |base| < j < |name| ==> name[j] != '.';
    LastIndexIs(name, '.', |base|);
    assert |name| != 1 && |name| != 2;
  }

  /** A recording's MP4 sits beside it in the storage directory, named after its timestamp. */
  lemma ConvertedRecording(t: DiskStorage.DateTime)
    requires DiskStorage.ValidDateTime(t)
    ensures ConvertedPath(DiskStorage.FileName(t)) == DiskStorage.StorageLocation + DiskStorage.FormatDateTime(t) + ".mp4"
  {
    var stamp := DiskStorage.FormatDateTime(t);
    RecordingStem(stamp);
  }

  /** Dropping ".h264" from a recording's path leaves the storage directory and the timestamp. */
  lemma RecordingStem(stamp: string)
    requires |stamp| >= 1
    requires forall i :: 0 <= i < |stamp| ==> stamp[i] != '/' && stamp[i] != '.'
    ensures Stem("./data/" + (stamp + ".h264")) == "./data/" + stamp
  {
    var base := stamp + ".h264";
    var path := "./data/" + base;
    RecordingBasename(stamp);
    assert base[|stamp|] == '.';
    assert forall j :: |stamp| < j < |base| ==> base[j] != '.';
    LastIndexIs(base, '.', |stamp|);
    assert ExtensionStart(path) == 7 + |stamp|;
    assert path[..7 + |stamp|] == "./data/" + stamp;
  }

  /** The outcomes of one entry's four steps: two exit codes and two removals. */
  datatype Steps = Steps(convertCode: int, sourceRemoved: bool, uploadCode: int, convertedRemoved: bool)

  /** A directory entry and what happens to it. */
  datatype Entry = Entry(path: string, steps: Steps)

  /** What `uploadMedia` does to the outside world: run a shell command, or remove a file. */
  datatype Action = Run(command: string) | Remove(path: string)

  function ConvertCommand(path: string): string
  {
    "./python/convert.py --file " + path
  }

  function UploadCommand(path: string): string
  {
    "./python/upload.py --file " + path
  }

  /** The four steps, in the order src/upload.cpp:17-44 takes them. */
  function Plan(path: string): seq<Action>
  {
    [Run(ConvertCommand(path)), Remove(path), Run(UploadCommand(ConvertedPath(path))), Remove(ConvertedPath(path))]
  }

  /** Whether every step succeeded, so the entry is not counted as a failure. */
  predicate Succeeded(s: Steps)
  {
    s.convertCode == 0 && s.sourceRemoved && s.uploadCode == 0 && s.convertedRemoved
  }

  /** The number of steps taken: up to and including the first that fails. */
  function StepsTaken(s: Steps): nat
  {
    if s.convertCode != 0 then 1
    else if !s.sourceRemoved then 2
    else if s.uploadCode != 0 then 3
    else 4
  }

  /**
   * The actions for one entry: the plan, cut after the first failed step.
   * The convert script always runs, and all four steps are taken exactly
   * when the first three succeed.
   */
  function EntryActions(e: Entry): (r: seq<Action>)
    ensures r <= Plan(e.path) && 1 <= |r|
    ensures |r| == 4 <==> e.steps.convertCode == 0 && e.steps.sourceRemoved && e.steps.uploadCode == 0
  {
    Plan(e.path)[..StepsTaken(e.steps)]
  }

  /** The convert command and the upload command are never the same command. */
  lemma CommandsDiffer(p: string, q: string)
    ensures ConvertCommand(p) != UploadCommand(q)
  {
    assert ConvertCommand(p)[9] == 'c';
    assert UploadCommand(q)[9] == 'u';
  }

  /** The source clip is deleted exactly when the convert script exited with 0. */
  lemma SourceRemovedOnlyAfterConversion(e: Entry)
    ensures Remove(e.path) in EntryActions(e) <==> e.steps.convertCode == 0
  {
    var r := EntryActions(e);
    if e.steps.convertCode != 0 {
      assert r == [Run(ConvertCommand(e.path))];
    } else {
      assert r[1] == Remove(e.path);
    }
  }

  /** The MP4 is uploaded exactly when the conversion succeeded and the source clip was deleted. */
  lemma UploadOnlyAfterSourceRemoved(e: Entry)
    ensures Run(UploadCommand(ConvertedPath(e.path))) in EntryActions(e) <==> e.steps.convertCode == 0 && e.steps.sourceRemoved
  {
    var r := EntryActions(e);
    var upload := Run(UploadCommand(ConvertedPath(e.path)));
    CommandsDiffer(e.path, ConvertedPath(e.path));
    if e.steps.convertCode == 0 && e.steps.sourceRemoved {
      assert r[2] == upload;
    } else {
      assert forall i :: 0 <= i < |r| ==> r[i] != upload;
    }
  }

  /** The actions for a sequence of entries, in order. */
  function ActionLog(entries: seq<Entry>): seq<Action>
  {
    if entries == [] then [] else ActionLog(entries[..|entries| - 1]) + EntryActions(entries[|entries| - 1])
  }

  /** The number of entries that did not get through all four steps. */
  function FailureCount(entries: seq<Entry>): (r: nat)
    ensures r <= |entries|
  {
    if entries == [] then 0
    else FailureCount(entries[..|entries| - 1]) + if Succeeded(entries[|entries| - 1].steps) then 0 else 1
  }

  /** No failure is counted exactly when every entry succeeded. */
  lemma {:induction false} NoFailuresIffAllSucceeded(entries: seq<Entry>)
    ensures FailureCount(entries) == 0 <==> forall i :: 0 <= i < |entries| ==> Succeeded(entries[i].steps)
  {
    if entries != [] {
      var init := entries[..|entries| - 1];
      NoFailuresIffAllSucceeded(init);
      assert forall i :: 0 <= i < |init| ==> init[i] == entries[i];
    }
  }

  /** Every entry is counted as a failure exactly when none succeeded. */
  lemma {:induction false} AllFailuresIffNoneSucceeded(entries: seq<Entry>)
    ensures FailureCount(entries) == |entries| <==> forall i :: 0 <= i < |entries| ==> !Succeeded(entries[i].steps)
  {
    if entries != [] {
      var init := entries[..|entries| - 1];
      AllFailuresIffNoneSucceeded(init);
      assert forall i :: 0 <= i < |init| ==> init[i] == entries[i];
    }
  }

  /** The log of a longer list extends the log of a shorter one. */
  lemma {:induction false} LogPrefix(entries: seq<Entry>, n: nat)
    requires n <= |entries|
    ensures ActionLog(entries[..n]) <= ActionLog(entries)
    decreases |entries|
  {
    if n < |entries| {
      var init := entries[..|entries| - 1];
      assert init[..n] == entries[..n];
      LogPrefix(init, n);
    } else {
      assert entries[..n] == entries;
    }
  }

  /** A failed step does not stop the loop: every entry's conversion is attempted. */
  lemma {:induction false} EveryEntryConverted(entries: seq<Entry>, i: nat)
    requires i < |entries|
    ensures Run(ConvertCommand(entries[i].path)) in ActionLog(entries)
  {
    var upTo := entries[..i + 1];
    assert upTo[..i] == entries[..i];
    var r := EntryActions(entries[i]);
    assert ActionLog(upTo)[|ActionLog(entries[..i])|] == r[0];
    LogPrefix(entries, i + 1);
    assert ActionLog(entries)[|ActionLog(entries[..i])|] == r[0];
  }

  /** The actions of one entry, step by step. */
  lemma EntryCases(e: Entry)
    ensures var convert, upload := Run(ConvertCommand(e.path)), Run(UploadCommand(ConvertedPath(e.path)));
      && (e.steps.convertCode != 0 ==> EntryActions(e) == [convert])
      && (e.steps.convertCode == 0 && !e.steps.sourceRemoved ==> EntryActions(e) == [convert, Remove(e.path)])
      && (e.steps.convertCode == 0 && e.steps.sourceRemoved && e.steps.uploadCode != 0 ==>
            EntryActions(e) == [convert, Remove(e.path), upload])
      && (e.steps.convertCode == 0 && e.steps.sourceRemoved && e.steps.uploadCode == 0 ==>
            EntryActions(e) == [convert, Remove(e.path), upload, Remove(ConvertedPath(e.path))])
  {
  }

  lemma LogStep(entries: seq<Entry>, i: nat)
    requires i < |entries|
    ensures ActionLog(entries[..i + 1]) == ActionLog(entries[..i]) + EntryActions(entries[i])
    ensures FailureCount(entries[..i + 1]) == FailureCount(entries[..i]) + if Succeeded(entries[i].steps) then 0 else 1
  {
    assert entries[..i + 1][..i] == entries[..i];
  }

  /**
   * One entry's steps (src/upload.cpp:15-50): each step runs only when the
   * one before it succeeded.
   */
  method ProcessEntry(e: Entry) returns (succeeded: bool, actions: seq<Action>)
    ensures succeeded == Succeeded(e.steps)
    ensures actions == EntryActions(e)
  {
    EntryCases(e);
    actions := [Run(ConvertCommand(e.path))];
    if e.steps.convertCode != 0 {
      return false, actions;
    }
    actions := actions + [Remove(e.path)];
    if !e.steps.sourceRemoved {
      return false, actions;
    }
    var convertedPath := ConvertedPath(e.path);
    actions := actions + [Run(UploadCommand(convertedPath))];
    if e.steps.uploadCode != 0 {
      return false, actions;
    }
    actions := actions + [Remove(convertedPath)];
    if !e.steps.convertedRemoved {
      return false, actions;
    }
    return true, actions;
  }

  /**
   * `uploadMedia` (src/upload.cpp:8-54) over the directory's entries.
   */
  method UploadMedia(entries: seq<Entry>) returns (failures: int, log: seq<Action>)
    ensures failures == FailureCount(entries)
    ensures 0 <= failures <= |entries|
    ensures log == ActionLog(entries)
  {
    failures := 0;
    log := [];
    for i := 0 to |entries|
      invariant 0 <= failures <= i
      invariant failures == FailureCount(entries[..i])
      invariant log == ActionLog(entries[..i])
    {
      LogStep(entries, i);
      failures := failures + 1;
      var succeeded, actions := ProcessEntry(entries[i]);
      log := log + actions;
      if succeeded {
        failures := failures - 1;
      }
    }
    assert entries[..|entries|] == entries;
  }

  /**
   * As written, the converter writes its MP4 into the working directory
   * while the uploader looks for it in the storage directory: for every
   * recording the two paths differ.
   */
  lemma ConverterWritesElsewhere(t: DiskStorage.DateTime)
    requires DiskStorage.ValidDateTime(t)
    ensures Destination(DiskStorage.FileName(t)) != ConvertedPath(DiskStorage.FileName(t))
  {
    RecordingDestination(t);
    ConvertedRecording(t);
  }

  /** Writing the MP4 next to its input, as evidently intended, gives the path the uploader uses. */
  lemma IntendedDestinationIsConvertedPath(t: DiskStorage.DateTime)
    requires DiskStorage.ValidDateTime(t)
    ensures IntendedDestination(DiskStorage.FileName(t)) == ConvertedPath(DiskStorage.FileName(t))
  {
    IntendedRecording(DiskStorage.FormatDateTime(t));
  }

  /** Corrected, the converter writes a recording's MP4 where the uploader looks for it. */
  lemma IntendedRecording(stamp: string)
    requires |stamp| >= 1 && stamp[0] != '.'
    requires forall i :: 0 <= i < |stamp| ==> stamp[i] != '/' && stamp[i] != '.'
    ensures IntendedDestination("./data/" + (stamp + ".h264")) == ConvertedPath("./data/" + (stamp + ".h264"))
  {
    RecordingDirectory(stamp);
    StampDestination(stamp);
    RecordingStem(stamp);
    assert "./data/" + (stamp + ".mp4") == "./data/" + stamp + ".mp4";
  }

  /** A recording's directory is the storage directory. */
  lemma RecordingDirectory(stamp: string)
    requires forall i :: 0 <= i < |stamp| ==> stamp[i] != '/'
    ensures Directory("./data/" + (stamp + ".h264")) == "./data/"
  {
    var path := "./data/" + (stamp + ".h264");
    RecordingBasename(stamp);
    assert path[..7] == "./data/";
  }

}
