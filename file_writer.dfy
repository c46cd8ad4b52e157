/** FileWriter.java: the single consumer of a round. It takes chunks from the
    queue and writes each one's payload at its offset in the output file,
    until it meets the round-finished marker (`size == -1`), on which it saves
    the metadata and then advances its missing range, or a failed chunk
    (`offset == -1`), on which it stops without touching the metadata. Progress
    is therefore recorded only after a whole round's chunks have been written. */
module Writer {
  import opened Java
  import opened Chunks
  import opened ChunkQueues
  import opened Metadata

  /** `isRangeFinished` */
  predicate IsRangeFinished(c: Chunk) {
    c.size == -1
  }

  /** `isChunkFailed` */
  predicate IsChunkFailed(c: Chunk) {
    c.offset == -1
  }

  /** `seek(offset)` succeeds (a negative offset throws `IOException`) and
      `write(data, 0, size)` finds `size` bytes in a non-null buffer (otherwise
      it throws a `NullPointerException` or an `IndexOutOfBoundsException`). */
  predicate Writable(c: Chunk) {
    c.offset >= 0 && c.data.Some? && 0 <= c.size <= |c.data.value|
  }

  /** A chunk the loop writes and goes past. */
  predicate IsPayload(c: Chunk) {
    !IsRangeFinished(c) && !IsChunkFailed(c) && Writable(c)
  }

  /** Why `writeChunks` stopped taking chunks. `SeekFailed` ends in the catch
      of `IOException`; `WriteCrashed` is an unchecked exception that leaves
      the method and the thread; `Blocked` is a `take` on an empty queue. */
  datatype Stop = Finished | Failed | SeekFailed | WriteCrashed | Blocked

  /** The stop a chunk that is not a payload causes, in the order the loop
      tests: the finished marker first, then the failed marker, then `seek`,
      then `write`. */
  function StopAt(c: Chunk): (s: Stop)
    requires !IsPayload(c)
    ensures s == Finished <==> IsRangeFinished(c)
    ensures s == Failed <==> !IsRangeFinished(c) && IsChunkFailed(c)
    ensures s != Blocked
  {
    if IsRangeFinished(c) then Finished
    else if IsChunkFailed(c) then Failed
    else if c.offset < 0 then SeekFailed
    else WriteCrashed
  }

  /** The positions `[offset, offset + n)`. */
  function Span(offset: int, n: nat): (s: set<int>)
    ensures forall p :: p in s <==> offset <= p < offset + n
  {
    if n == 0 then {} else Span(offset, n - 1) + {offset + n - 1}
  }

  /** The output file after `seek(offset)` and `write(d)`: the positions
      `[offset, offset + |d|)` hold `d`, every other position is as before. */
  function WriteAt(f: map<int, byte>, offset: int, d: seq<byte>): (g: map<int, byte>)
    ensures forall p :: offset <= p < offset + |d| ==> p in g && g[p] == d[p - offset]
    ensures forall p :: !(offset <= p < offset + |d|) ==> (p in g <==> p in f)
    ensures forall p :: !(offset <= p < offset + |d|) && p in f ==> g[p] == f[p]
  {
    map p | p in f.Keys + Span(offset, |d|) :: if offset <= p < offset + |d| then d[p - offset] else f[p]
  }

  /** Where the loop of `writeChunks` stops on queue `q` and file `f`: the
      stop, how many chunks it took, and the file it leaves. */
  datatype Drained = Drained(stop: Stop, consumed: nat, file: map<int, byte>)

  function Drain(q: seq<Chunk>, f: map<int, byte>): (d: Drained)
    ensures d.consumed <= |q|
    ensures d.stop == Blocked <==> d.consumed == |q| && forall j :: 0 <= j < |q| ==> IsPayload(q[j])
    ensures d.stop != Blocked ==> 1 <= d.consumed && !IsPayload(q[d.consumed - 1])
    ensures d.stop != Blocked ==> d.stop == StopAt(q[d.consumed - 1])
    ensures forall j :: 0 <= j < d.consumed - 1 ==> IsPayload(q[j])
    decreases |q|
  {
    if q == [] then Drained(Blocked, 0, f)
    else if !IsPayload(q[0]) then Drained(StopAt(q[0]), 1, f)
    else
      var c := q[0];
      var rest := Drain(q[1..], WriteAt(f, c.offset, c.data.value[..c.size]));
      Drained(rest.stop, rest.consumed + 1, rest.file)
  }

  /** The number of chunks whose payload the loop wrote. */
  function Writes(d: Drained): nat
  {
    if d.stop == Blocked || d.consumed == 0 then d.consumed else d.consumed - 1
  }

  predicate Covers(c: Chunk, p: int) {
    c.offset <= p < c.offset + c.size
  }

  /** A position that no written chunk covers is as it was before the loop. */
  lemma {:induction false} DrainUntouched(q: seq<Chunk>, f: map<int, byte>, p: int)
    requires forall j :: 0 <= j < Writes(Drain(q, f)) ==> !Covers(q[j], p)
    ensures p in Drain(q, f).file <==> p in f
    ensures p in f ==> Drain(q, f).file[p] == f[p]
    decreases |q|
  {
    if q != [] && IsPayload(q[0]) {
      var c := q[0];
      var f1 := WriteAt(f, c.offset, c.data.value[..c.size]);
      forall k | 0 <= k < Writes(Drain(q[1..], f1)) ensures !Covers(q[1..][k], p) {
        assert q[1..][k] == q[k + 1];
      }
      DrainUntouched(q[1..], f1, p);
    }
  }

  /** A position covered by a written chunk holds the byte of the last written
      chunk that covers it: a later chunk at an overlapping offset wins. */
  lemma {:induction false} DrainLastWriter(q: seq<Chunk>, f: map<int, byte>, p: int, j: nat)
    requires j < Writes(Drain(q, f)) && Covers(q[j], p)
    requires forall k :: j < k < Writes(Drain(q, f)) ==> !Covers(q[k], p)
    ensures p in Drain(q, f).file
    ensures Drain(q, f).file[p] == q[j].data.value[p - q[j].offset]
    decreases |q|
  {
    var c := q[0];
    var f1 := WriteAt(f, c.offset, c.data.value[..c.size]);
    var rest := Drain(q[1..], f1);
    assert Writes(Drain(q, f)) == Writes(rest) + 1;
    forall k | j <= k < Writes(rest) ensures !Covers(q[1..][k], p) {
      assert q[1..][k] == q[k + 1];
    }
    if j == 0 {
      DrainUntouched(q[1..], f1, p);
    } else {
      assert q[1..][j - 1] == q[j];
      DrainLastWriter(q[1..], f1, p, j - 1);
    }
  }

  /** A round's payload chunks followed by the finished marker: the loop writes
      them all and stops at the marker. */
  lemma {:induction false} DrainPayloadsThenFinish(q: seq<Chunk>, marker: Chunk, f: map<int, byte>)
    requires forall j :: 0 <= j < |q| ==> IsPayload(q[j])
    requires IsRangeFinished(marker)
    ensures Drain(q + [marker], f).stop == Finished
    ensures Drain(q + [marker], f).consumed == |q| + 1
    decreases |q|
  {
    if q != [] {
      var c := q[0];
      assert (q + [marker])[1..] == q[1..] + [marker];
      DrainPayloadsThenFinish(q[1..], marker, WriteAt(f, c.offset, c.data.value[..c.size]));
    }
  }

  /** The output file, positions never written being absent. */
  class DiskFile {
    var bytes: map<int, byte>

    constructor (bytes: map<int, byte>)
      ensures this.bytes == bytes
    {
      this.bytes := bytes;
    }
  }

  class FileWriter {
    const chunkQueue: ChunkQueue
    const downloadableMetadata: DownloadableMetadata

    constructor (downloadableMetadata: DownloadableMetadata, chunkQueue: ChunkQueue)
      ensures this.downloadableMetadata == downloadableMetadata && this.chunkQueue == chunkQueue
    {
      this.chunkQueue := chunkQueue;
      this.downloadableMetadata := downloadableMetadata;
    }

    /** `writeChunks` (and `run` around it), with the way `SaveMetadataToDisc`
        ends as a parameter. The queue loses the chunks taken, the file
        receives their payloads, and the metadata advances exactly when the
        finished marker was reached and the save did not throw; the snapshot
        saved holds the missing range from before the advance. */
    method WriteChunks(file: DiskFile, save: SaveOutcome) returns (stop: Stop, committed: bool)
      modifies chunkQueue, file, downloadableMetadata
      ensures stop == Drain(old(chunkQueue.items), old(file.bytes)).stop
      ensures chunkQueue.items == old(chunkQueue.items)[Drain(old(chunkQueue.items), old(file.bytes)).consumed..]
      ensures file.bytes == Drain(old(chunkQueue.items), old(file.bytes)).file
      ensures committed <==> stop == Finished && save != OpenFailed
      ensures downloadableMetadata.missingRange
           == if committed then NextWindow(downloadableMetadata.fileSize, old(downloadableMetadata.missingRange))
              else old(downloadableMetadata.missingRange)
      ensures downloadableMetadata.persisted
           == if stop == Finished
              then AfterSave(save, old(downloadableMetadata.missingRange), old(downloadableMetadata.persisted))
              else old(downloadableMetadata.persisted)
    {
      ghost var q0, f0 := chunkQueue.items, file.bytes;
      ghost var taken: nat := 0;
      committed := false;
      while true
        invariant taken <= |q0| && chunkQueue.items == q0[taken..]
        invariant Drain(q0, f0).stop == Drain(chunkQueue.items, file.bytes).stop
        invariant Drain(q0, f0).consumed == Drain(chunkQueue.items, file.bytes).consumed + taken
        invariant Drain(q0, f0).file == Drain(chunkQueue.items, file.bytes).file
        modifies chunkQueue, file
        decreases |chunkQueue.items|
      {
        var next := chunkQueue.Take();
        if next.None? {
          return Blocked, false;
        }
        var chunk := next.value;
        if IsRangeFinished(chunk) {
          break;
        }
        // a failed chunk: stop writing and leave the range unmarked
        if IsChunkFailed(chunk) {
          return Failed, false;
        }
        if chunk.offset < 0 {
          return SeekFailed, false;
        }
        if chunk.data.None? || chunk.size < 0 || chunk.size > |chunk.data.value| {
          return WriteCrashed, false;
        }
        file.bytes := WriteAt(file.bytes, chunk.offset, chunk.data.value[..chunk.size]);
        taken := taken + 1;
      }
      stop := Finished;
      var thrown := downloadableMetadata.SaveMetadataToDisc(save);
      if thrown {
        return;
      }
      downloadableMetadata.AddRange(downloadableMetadata.GetMissingRange());
      committed := true;
    }
  }
}
