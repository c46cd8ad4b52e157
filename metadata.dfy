/** DownloadableMetadata.java: the progress record of one download. Instead of
    a set of written ranges it keeps a single advancing "missing range": the
    window the next round has to fetch. Committing a window moves it forward
    by `k_RangeSize` bytes past the committed range's end, clipped to the file
    size, and the download is complete once the window is empty. */
module Metadata {
  import opened Java
  import opened Ranges

  /** `k_RangeSize`: the width of the first window, in bytes. */
  const RANGE_SIZE: int := 1000000

  /** The first window the constructor sets up: `[0, min(k_RangeSize, fileSize) - 1]`.
      A file size of zero or less (an unknown content length is reported as -1)
      gives an empty window, so such a download is complete at once. */
  function InitialWindow(fileSize: int): (w: Range)
    ensures w.start == 0
    ensures w.Length() == (if fileSize < RANGE_SIZE then fileSize else RANGE_SIZE)
    ensures w.end < fileSize
    ensures w.end < w.start <==> fileSize <= 0
  {
    Range(0, (if RANGE_SIZE < fileSize then RANGE_SIZE else fileSize) - 1)
  }

  /** The arithmetic of `addRange`: the new window begins right after the
      committed range's end (its start plays no part) and ends `k_RangeSize`
      bytes later, so it spans `k_RangeSize + 1` bytes, unless it is clipped to
      `fileSize` (not `fileSize - 1`). */
  function NextWindow(fileSize: int, committed: Range): (w: Range)
    ensures w.start == committed.end + 1
    ensures w.end <= fileSize
    ensures w.end <= w.start + RANGE_SIZE
    ensures w.end < w.start + RANGE_SIZE ==> w.end == fileSize
  {
    var fullEnd := committed.end + 1 + RANGE_SIZE;
    Range(committed.end + 1, if fileSize < fullEnd then fileSize else fullEnd)
  }

  /** The window after `rounds` rounds that each commit the window before. */
  function Iterate(fileSize: int, w: Range, rounds: nat): Range
    decreases rounds
  {
    if rounds == 0 then w else Iterate(fileSize, NextWindow(fileSize, w), rounds - 1)
  }

  /** The number of rounds `while (!isCompleted())` runs from window `w` when
      every round commits. */
  function RoundsToComplete(fileSize: int, w: Range): nat
    requires w.end <= fileSize
    decreases fileSize - w.start
  {
    if w.end < w.start then 0 else 1 + RoundsToComplete(fileSize, NextWindow(fileSize, w))
  }

  /** `lastIndexOf`: the index of the last `c` in `s`, or -1 when there is none. */
  function LastIndexOf(s: string, c: char): (i: int)
    ensures -1 <= i < |s|
    ensures i >= 0 ==> s[i] == c
    ensures forall j :: i < j < |s| ==> s[j] != c
  {
    if |s| == 0 then -1
    else if s[|s| - 1] == c then |s| - 1
    else LastIndexOf(s[..|s| - 1], c)
  }

  /** `getName`: the local file name, the text after the last '/' of the URL,
      or the whole URL when it has no '/'. The result is the longest suffix of
      `path` free of '/'. */
  function GetName(path: string): (name: string)
    ensures '/' !in name
    ensures |name| <= |path| && path[|path| - |name|..] == name
    ensures |name| < |path| ==> path[|path| - |name| - 1] == '/'
  {
    path[LastIndexOf(path, '/') + 1..]
  }

  /** `getMetadataName(String)`: the progress file sits next to the output file. */
  function GetMetadataName(filename: string): string
  {
    filename + ".metadata"
  }

  /** The temporary file `SaveMetadataToDisc` writes before renaming it. */
  function GetTempName(metadataFilename: string): string
  {
    metadataFilename + ".temp"
  }

  /** How a call of `SaveMetadataToDisc` ends. `Saved`: the snapshot was
      written to the temporary file and renamed over the metadata file.
      `WriteFailed`: `writeObject` threw; the method catches that itself, so it
      returns normally, having replaced nothing. `RenameFailed`: the snapshot
      was written and the old metadata file deleted, but `renameTo` returned
      false and the temporary file was deleted too, so no metadata file is
      left. `OpenFailed`: opening the temporary file's streams threw before
      the guarded block, and the exception reaches the caller. */
  datatype SaveOutcome = Saved | WriteFailed | RenameFailed | OpenFailed

  /** The metadata file's contents after a save of `current` ended with
      `outcome`, `before` being its contents until then. */
  function AfterSave(outcome: SaveOutcome, current: Range, before: Option<Range>): Option<Range>
  {
    match outcome
    case Saved => Some(current)
    case RenameFailed => None
    case _ => before
  }

  class DownloadableMetadata {
    const url: string
    const filename: string
    const metadataFilename: string
    /** `k_FileSize`, which the source obtains by a HEAD request. */
    const fileSize: int
    var missingRange: Range
    /** The missing range recorded in the metadata file by this object's last
        successful save; `None` before the first one and after `delete`. */
    var persisted: Option<Range>

    /** The window never reaches past `fileSize`. */
    ghost predicate Valid()
      reads this
    {
      missingRange.end <= fileSize
    }

    constructor (url: string, fileSize: int)
      ensures this.url == url && filename == GetName(url)
      ensures metadataFilename == GetMetadataName(filename)
      ensures this.fileSize == fileSize
      ensures missingRange == InitialWindow(fileSize) && persisted == None
      ensures Valid()
    {
      this.url := url;
      filename := GetName(url);
      metadataFilename := GetMetadataName(GetName(url));
      this.fileSize := fileSize;
      missingRange := InitialWindow(fileSize);
      persisted := None;
    }

    function GetMissingRange(): Range
      reads this
    {
      missingRange
    }

    /** `isCompleted`: the missing range is empty. */
    function IsCompleted(): (done: bool)
      reads this
      ensures done <==> missingRange.end < missingRange.start
    {
      missingRange.Length() < 1
    }

    /** `addRange`: moves the window past the committed range. */
    method AddRange(committed: Range)
      modifies this`missingRange
      ensures missingRange == NextWindow(fileSize, committed)
      ensures missingRange.start == committed.end + 1
      ensures Valid()
    {
      var newStart := committed.end + 1;
      var fullEnd := committed.end + 1 + RANGE_SIZE;
      var newEnd := if fileSize < fullEnd then fileSize else fullEnd;
      missingRange := Range(newStart, newEnd);
    }

    /** `SaveMetadataToDisc`, with the way the file system behaves as a
        parameter. Returns whether an exception escapes. */
    method SaveMetadataToDisc(outcome: SaveOutcome) returns (thrown: bool)
      modifies this`persisted
      ensures thrown <==> outcome == OpenFailed
      ensures outcome == Saved ==> persisted == Some(missingRange)
      ensures outcome == RenameFailed ==> persisted == None
      ensures outcome == WriteFailed || outcome == OpenFailed ==> persisted == old(persisted)
      ensures persisted == AfterSave(outcome, missingRange, old(persisted))
    {
      if outcome == OpenFailed {
        return true;
      }
      if outcome == Saved {
        persisted := Some(missingRange);
      } else if outcome == RenameFailed {
        persisted := None;
      }
      thrown := false;
    }

    /** `delete`: removes the metadata file. `File.delete` reports a failure
        by returning false, which the source ignores; `deleted` is what it
        returns. */
    method Delete(deleted: bool)
      modifies this`persisted
      ensures deleted ==> persisted == None
      ensures !deleted ==> persisted == old(persisted)
    {
      if deleted {
        persisted := None;
      }
    }
  }

  /** While the window is not empty, committing it moves its start forward. */
  lemma WindowAdvances(fileSize: int, w: Range)
    requires w.start <= w.end
    ensures NextWindow(fileSize, w).start > w.start
  {
  }

  /** The committed range's start has no influence on the next window. */
  lemma NextWindowIgnoresStart(fileSize: int, a: Range, b: Range)
    requires a.end == b.end
    ensures NextWindow(fileSize, a) == NextWindow(fileSize, b)
  {
  }

  /** Committing the window `RoundsToComplete` times empties it, and no fewer
      commits do: the round loop terminates after exactly that many rounds. */
  lemma {:induction false} RoundsReachCompletion(fileSize: int, w: Range)
    requires w.end <= fileSize
    ensures Iterate(fileSize, w, RoundsToComplete(fileSize, w)).Length() < 1
    ensures forall k: nat :: k < RoundsToComplete(fileSize, w) ==> Iterate(fileSize, w, k).Length() >= 1
    decreases fileSize - w.start
  {
    if w.start <= w.end {
      var next := NextWindow(fileSize, w);
      RoundsReachCompletion(fileSize, next);
      forall k: nat | k < RoundsToComplete(fileSize, w)
        ensures Iterate(fileSize, w, k).Length() >= 1
      {
        if k > 0 {
          assert Iterate(fileSize, w, k) == Iterate(fileSize, next, k - 1);
        }
      }
    }
  }

  /** Once a window is not empty, the rounds end with a window starting at
      `fileSize + 1`: the committed windows reach byte `fileSize`, one past
      the last byte of the file. */
  lemma {:induction false} CompletionPassesFileSize(fileSize: int, w: Range)
    requires w.end <= fileSize && w.start <= w.end
    ensures Iterate(fileSize, w, RoundsToComplete(fileSize, w)).start == fileSize + 1
    decreases fileSize - w.start
  {
    var next := NextWindow(fileSize, w);
    if next.start <= next.end {
      CompletionPassesFileSize(fileSize, next);
    } else {
      assert RoundsToComplete(fileSize, next) == 0;
    }
  }

  /** A non-empty file no larger than one window takes two rounds: the whole
      file, then the one-byte window `[fileSize, fileSize]`. */
  lemma SmallFileTakesTwoRounds(fileSize: int)
    requires 1 <= fileSize <= RANGE_SIZE
    ensures NextWindow(fileSize, InitialWindow(fileSize)) == Range(fileSize, fileSize)
    ensures RoundsToComplete(fileSize, InitialWindow(fileSize)) == 2
  {
    var w1 := NextWindow(fileSize, InitialWindow(fileSize));
    var w2 := NextWindow(fileSize, w1);
    assert RoundsToComplete(fileSize, w2) == 0;
    assert RoundsToComplete(fileSize, w1) == 1;
  }

  /** The local file name, the metadata file name and its temporary file are
      all different, and the metadata file name determines the file name. */
  lemma MetadataNamesDistinct(a: string, b: string)
    ensures GetMetadataName(a) != a
    ensures GetTempName(GetMetadataName(a)) != GetMetadataName(a)
    ensures GetMetadataName(a) == GetMetadataName(b) ==> a == b
  {
    if GetMetadataName(a) == GetMetadataName(b) {
      assert |a| == |b|;
      assert a == GetMetadataName(a)[..|a|];
    }
  }
}
