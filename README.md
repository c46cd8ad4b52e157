# Download manager bookkeeping, modelled in Dafny

This project models the sequential bookkeeping of a resumable, multi-connection
HTTP downloader written in Java (`IdcDm`). A download runs in rounds. Each round
takes the metadata's current *missing range* (a window of at most about one
million bytes). It splits the window among `numberOfWorkers` range getters.
Each getter reads its sub-range in blocks of 4096 bytes and queues one chunk per
block at the right file offset. A marker chunk `Chunk(null, 0, -1)` closes the
round. A single file writer drains the queue into the output file. Only when it
reaches the marker does it save the metadata and advance the missing range. The
loop ends when the missing range is empty.

Modules, one per source file:

- `Ranges` (`src/Range.java`): the inclusive range value and its length.
- `Chunks` (`src/Chunk.java`): the chunk value and its copying constructor.
- `Metadata` (`src/DownloadableMetadata.java`): the window arithmetic (initial
  window, `addRange`, `isCompleted`), the name helpers, and the
  `DownloadableMetadata` class whose `missingRange` field `AddRange` updates.
- `RangeGetter` (`src/HTTPRangeGetter.java`): `checkResponseCode`, the `Range`
  header, `streamToChunkQueue` over an abstract response body, and the retry
  loop `run`.
- `Writer` (`src/FileWriter.java`): the `writeChunks` loop, its stopping rules,
  and the output file as a map from positions to bytes.
- `Downloader` (`src/IdcDm.java`): the sub-range partition loop and the round
  loop of `DownloadURL`.
- Helpers: `Java` (`Option`, signed `byte`, Java's truncating `/` and `%`),
  `Decimal` (`Long.toString` and its inverse), and `ChunkQueues` (the
  `LinkedBlockingQueue` as a class over a sequence).

The code does not keep a set of merged written intervals. The `TreeSet`
`m_WritenRanges` is created and never used. What the code keeps is one advancing
window, and the model follows the code:

- After the first window, windows span `k_RangeSize + 1` bytes.
- Windows are clipped to `fileSize`, not `fileSize - 1`. So the last committed
  window reaches byte `fileSize`, one past the end of the file.
- A non-empty file of at most one window takes two rounds; the second fetches
  `[fileSize, fileSize]`.
- After the first round of a 10,000,000-byte file, the next in-memory window
  is `[1000000, 2000000]`. A successful save in that round, which is the evident
  design (see "## Left out"), would hold `[0, 999999]`, because `SaveMetadataToDisc` (`src/FileWriter.java:36`) runs before
  `addRange` (line 37).
- A round commits its window as soon as every getter reached the end of its
  stream, whatever bytes the streams delivered: a server whose every response
  body is empty gets every window committed while the file stays unchanged
  (`Downloader.SilentServerCommitsWindow`).
- Sub-ranges all have `L/n + 1` bytes, so together they cover more than the
  window. The remainder is computed but never reaches a sub-range.
- `checkResponseCode` is only ever called with the constant 200.

Environment behaviour enters as parameters:

- the file size (the HEAD request is not modelled);
- each attempt of a getter (`Attempt`): either `NoResponse`, when
  `getInputStream` throws before any body is read (an error status, or the
  two-second read timeout while waiting for the headers), or the response body
  (`Stream`: the bytes each `read` returned, then end of stream or an
  `IOException`);
- the outcome of each metadata save;
- the attempts each getter sees in the round loop, as a function
  `server: Range -> seq<Attempt>`. It answers a sub-range the same way in every
  round; answers that vary from round to round are not modelled;
- what `File.delete` returns when the metadata file is deleted.

## Model

| member | source | states |
|---|---|---|
| `Ranges.Range.Length` | src/Range.java:21-23 | `getLength` is below one exactly when `end < start`; the constructor does not forbid that |
| `Chunks.NewChunk` | src/Chunk.java:11-15 | a null buffer gives no data; otherwise the chunk holds a copy of the buffer's contents at construction time; offset and size are stored as given, with no check against the data length |
| `Metadata.InitialWindow` | src/DownloadableMetadata.java:34 | the first window starts at 0 and has `min(1000000, fileSize)` bytes; it ends before `fileSize`; it is empty exactly when `fileSize <= 0` |
| `Metadata.NextWindow` | src/DownloadableMetadata.java:49-54 | the new window starts at the committed end + 1; it ends at most `k_RangeSize` bytes later and never after `fileSize`; when it is shorter, it was clipped to `fileSize` |
| `Metadata.DownloadableMetadata.AddRange` | src/DownloadableMetadata.java:49-54 | the missing range becomes `NextWindow(fileSize, committed)`, starts at `committed.end + 1`, and still ends no later than `fileSize` |
| `Metadata.DownloadableMetadata.IsCompleted` | src/DownloadableMetadata.java:64-66 | `isCompleted()` holds exactly when the missing range's end is before its start |
| `Metadata.DownloadableMetadata.constructor` | src/DownloadableMetadata.java:28-35 | file name from the URL, metadata name from the file name, file size as given, missing range the initial window, nothing saved yet |
| `Metadata.DownloadableMetadata.SaveMetadataToDisc` | src/DownloadableMetadata.java:81-105 | an exception escapes exactly when opening the temporary file fails; the snapshot becomes the current missing range when writing and renaming succeed; a failed rename leaves no snapshot, since the old file was deleted first (line 91) and the temporary one is deleted after (line 94); a failed write leaves the old snapshot |
| `Metadata.DownloadableMetadata.Delete` | src/DownloadableMetadata.java:68-75 | when `File.delete` succeeds no snapshot is left; when it fails (the result is ignored) the snapshot stays |
| `Metadata.WindowAdvances` | src/DownloadableMetadata.java:49-50 | committing a non-empty window strictly increases the window's start |
| `Metadata.NextWindowIgnoresStart` | src/DownloadableMetadata.java:49-52 | the committed range's start has no effect on the next window |
| `Metadata.RoundsReachCompletion` | src/IdcDm.java:54 | from any window ending no later than `fileSize`, `RoundsToComplete` commits empty the window, and no smaller number of commits does, so the round loop terminates |
| `Metadata.CompletionPassesFileSize` | src/DownloadableMetadata.java:51-53 | starting from a non-empty window, the final empty window starts at `fileSize + 1`: the committed windows reach one byte past the file |
| `Metadata.SmallFileTakesTwoRounds` | src/DownloadableMetadata.java:34-53 | for `1 <= fileSize <= 1000000` the second window is `[fileSize, fileSize]` and the download takes exactly two rounds |
| `Metadata.LastIndexOf` | src/DownloadableMetadata.java:46 | returns -1 when the character is absent, otherwise an index holding it; no later index holds it |
| `Metadata.GetName` | src/DownloadableMetadata.java:45-47 | the name is a suffix of the path and contains no '/'; when it is shorter than the path, the character before it is '/' (so it is the text after the last '/', or the whole path) |
| `Metadata.MetadataNamesDistinct` | src/DownloadableMetadata.java:39-82 | `GetMetadataName` (`getMetadataName`, line 39: `filename + ".metadata"`) differs from the file name, and different file names give different metadata names; `GetTempName` (the `".temp"` file `SaveMetadataToDisc` writes first, line 82) differs from the metadata file it is renamed over |
| `RangeGetter.CheckResponseCode` | src/HTTPRangeGetter.java:87-91 | no exception exactly for codes 200..299, with Java's truncating division |
| `RangeGetter.RangeHeaderRoundTrip` | src/HTTPRangeGetter.java:44 | `RangeHeader`, the header value `"bytes=" + start + " - " + end`, reads back to exactly the sub-range, negative numbers included |
| `Decimal.ParseLongToString` | src/HTTPRangeGetter.java:44 | the decimal text that string concatenation gives a `long` reads back to the same value |
| `RangeGetter.EmittedChunk` | src/HTTPRangeGetter.java:73-85 | the k-th chunk's offset is the range start plus the bytes of the reads before it; its size is the k-th read count (at most 4096); its payload is the k-th read; the rest of its 4096-byte copy holds what earlier reads left in the reused buffer |
| `RangeGetter.EmittedAdjacent` | src/HTTPRangeGetter.java:81-82 | consecutive chunks of one attempt lie back to back: the next offset is the previous offset plus its size |
| `RangeGetter.BufferAfterLastRead` | src/HTTPRangeGetter.java:74-79 | after any reads, byte `p` of the reused 4096-byte buffer is byte `p` of the last read that reached position `p` |
| `RangeGetter.BufferAfterUnread` | src/HTTPRangeGetter.java:74-79 | a position of the buffer that no read reached still holds the 0 of `new byte[CHUNK_SIZE]` |
| `RangeGetter.HTTPRangeGetter.StreamToChunkQueue` | src/HTTPRangeGetter.java:73-85 | the queue gains exactly one chunk per successful read (`Emitted`), even when the stream then fails; it reports failure exactly on a read exception; it asks the token bucket `reads + 1` times |
| `RangeGetter.HTTPRangeGetter.Run` | src/HTTPRangeGetter.java:94-103 | retries until an attempt reaches the end of its stream, so it succeeds exactly when some attempt does; the queue gains the chunks of every attempt up to that one; the token requests add up over the attempts, an attempt without a response body asking for none and one with a body asking `reads + 1` times |
| `RangeGetter.RunOutputSplit` | src/HTTPRangeGetter.java:94-103 | after any number of failed attempts, what `run` queues is what those attempts queued followed by what `run` queues over the attempts left |
| `RangeGetter.RunOutputAt` | src/HTTPRangeGetter.java:95-101 | when attempt `a` is the first to reach the end of its stream, `run` queues the chunks of the failed attempts before it, then its own, and nothing after; it asks for their token requests and succeeds |
| `RangeGetter.RunOutputAllFail` | src/HTTPRangeGetter.java:95-101 | when every attempt fails, `run` queues the chunks of all of them, asks for all their token requests, and does not succeed |
| `RangeGetter.HTTPRangeGetter.constructor` | src/HTTPRangeGetter.java:22-31 | stores the URL, the sub-range and the queue |
| `Writer.StopAt` | src/FileWriter.java:25-53 | a chunk that is not written ends the loop as finished exactly when `size == -1` (`IsRangeFinished`, lines 47-49, tested first), and as failed exactly when it is not finished and `offset == -1` (`IsChunkFailed`, lines 51-53) |
| `Writer.WriteAt` | src/FileWriter.java:32-33 | `seek` + `write` puts `data[0..size)` at `[offset, offset+size)`; every other position keeps its presence and its byte |
| `Writer.Drain` | src/FileWriter.java:25-34 | chunks are taken in queue order; all taken before the last one are written; the loop stops at the first chunk that is not a payload, and that chunk decides the stop; it blocks only when every queued chunk was a payload |
| `Writer.DrainUntouched` | src/FileWriter.java:32-33 | a position that no written chunk covers is unchanged |
| `Writer.DrainLastWriter` | src/FileWriter.java:32-33 | a covered position holds the byte of the last written chunk that covers it, so a later overlapping chunk wins |
| `Writer.DrainPayloadsThenFinish` | src/FileWriter.java:25 | when payload chunks are followed by a finished marker, the loop writes them all and stops at the marker as finished |
| `Writer.FileWriter.WriteChunks` | src/FileWriter.java:20-45 | takes exactly the chunks `Drain` takes and leaves the file `Drain` computes; it advances the missing range (once) exactly when the finished marker was reached and the save did not throw; the snapshot saved holds the range from before the advance; on a failed chunk, a seek error or a crash, the metadata is untouched |
| `Writer.FileWriter.constructor` | src/FileWriter.java:15-18 | stores the metadata and the queue |
| `Downloader.FinishMarkerEndsRound` | src/IdcDm.java:89 | the marker `Chunk(null, 0, -1)` counts as finished, not as failed |
| `Downloader.FinishedBeforeFailed` | src/FileWriter.java:25-27 | a chunk with both `size == -1` and `offset == -1` counts as finished |
| `Downloader.FillSubRanges` | src/IdcDm.java:63-79 | reports division by zero exactly when there are no workers; otherwise fills the workers with `SubRanges` |
| `Downloader.SubRangesShape` | src/IdcDm.java:63-78 | there are exactly `n` sub-ranges; the first is `[S, S + L/n]`; each has `L/n + 1` bytes; each starts right after the previous one ends |
| `Downloader.SubRangesCover` | src/IdcDm.java:63-79 | for a non-empty window, every byte lies in some sub-range, and the last sub-range ends `n - L % n` bytes past the window's end |
| `Downloader.EmittedArePayloads` | src/HTTPRangeGetter.java:76-82 | a getter whose range starts at a non-negative offset queues only chunks that the writer writes: never a finished or failed marker, never an unwritable chunk |
| `Downloader.RunOutputArePayloads` | src/HTTPRangeGetter.java:94-103 | the same holds over all the attempts of `run` |
| `Downloader.RoundOutputArePayloads` | src/IdcDm.java:68-87 | the getters of sub-ranges at non-negative offsets queue only chunks the writer writes |
| `Downloader.RunGetters` | src/IdcDm.java:68-87 | the queue gains the chunks of every getter, sub-range after sub-range; it reports a hang exactly when some getter never reaches the end of its stream |
| `Downloader.PlayRoundOutcome` | src/IdcDm.java:55-103 | for a non-empty window and `n > 0`, a round hangs exactly when some getter never succeeds; otherwise the writer reaches the marker, the window advances exactly when the save did not throw, and the snapshot is what that save left; a hung round changes neither the window nor the snapshot |
| `Downloader.SilentServerCommitsWindow` | src/IdcDm.java:81-89 | when every response body ends at once, the round commits: the window advances to `NextWindow`, while the output file is unchanged |
| `Downloader.RunRound` | src/IdcDm.java:55-103 | leaves the window, the snapshot and the output file that `PlayRound` gives: the file is the writer's `Drain` of the getters' chunks followed by the marker (the marker only when no getter hangs); fills the workers with `SubRanges` of the window; divides by zero exactly when there are no workers; hangs exactly when some getter never succeeds; otherwise empties the queue and commits exactly when the save did not throw |
| `Downloader.CooperativeDownloadSucceeds` | src/IdcDm.java:54-107 | when there are workers, every getter eventually succeeds and no save throws, the loop succeeds after exactly `RoundsToComplete` further rounds, and no snapshot is left when `File.delete` succeeds |
| `Downloader.DownloadFromFacts` | src/IdcDm.java:54-107 | any run of the loop uses at most the rounds given, keeps the window within the file, succeeds exactly when the window is empty, and divides by zero exactly when there are no workers and a round was begun |
| `Downloader.DownloadFacts` | src/IdcDm.java:47-107 | the same for the whole of `DownloadURL`, where a negative worker count fails at line 52 and nothing else does |
| `Downloader.DownloadURL` | src/IdcDm.java:47-109 | ends with the outcome, round count, window, snapshot and output file that `Download` gives; fails at line 52 exactly for a negative worker count; succeeds exactly when the missing range ends up empty, and then no snapshot is left when `File.delete` succeeds; divides by zero exactly when there are no workers and the window was not empty; when there are workers, every getter eventually succeeds, no save throws and enough rounds are given, it succeeds after exactly `RoundsToComplete` rounds |

The predicates `Writer.IsRangeFinished` and `Writer.IsChunkFailed` and the
functions `Metadata.GetMetadataName`, `Metadata.GetTempName` and
`RangeGetter.RangeHeader` carry no contract of their own; the rows above that
cite their lines name the lemma or function whose contract states them.

The getters `getStart`, `getEnd`, `getData`, `getOffset`, `getSize_in_bytes` and
`getMissingRange` return a field unchanged; they are the datatypes' destructors
and `GetMissingRange`.

## Left out

- `src/TokenBucket.java` and `src/RateLimiter.java` are not part of this model. The model counts the getter's token requests instead, and every round-level member (`Downloader.PlayRound`, `Downloader.RunRound`, `Downloader.DownloadURL` and the lemmas about them) assumes a working bucket. As written, the bucket does not work. Its `AtomicLong` and `AtomicBoolean` fields are never allocated, so `new TokenBucket()` throws `NullPointerException` (`src/TokenBucket.java:23`). That happens at `src/IdcDm.java:59`, so `DownloadURL` throws in its first round, before the partition at line 63. Its `wait` and `notify` calls (`src/TokenBucket.java:31`, 50 and 55) do not hold the semaphore's monitor, so they would throw `IllegalMonitorStateException`, which `HTTPRangeGetter.run` does not catch.
- The Java code as given does not compile: `src/DownloadableMetadata.java:52` lacks its semicolon, and `src/IdcDm.java:56` calls `getFileSize()`, which `DownloadableMetadata` does not define. `Metadata.NextWindow` and `Metadata.DownloadableMetadata.AddRange` model the evident expression of lines 50-53. The percentage printout of line 56 is not modelled.
- Threads, `start` and `join`: getters run one after another, and then the writer. This is one of the interleavings the threads allow. Other orders of chunks in the queue are not generated, but `Writer.DrainLastWriter` holds for any queue order.
- `printPercentage` (floating point), argument parsing in `main`, and `System.exit` calls are not modelled.
- `calcFileSize`: the file size is a constructor parameter.
- `InitMetadata` (deserialization) is not modelled.
- `Metadata.DownloadableMetadata.SaveMetadataToDisc`: `Range` (`src/Range.java:4`) does not implement `Serializable`, so `writeObject(this)` (`src/DownloadableMetadata.java:88`) throws `NotSerializableException`, which line 97 catches: as written, every save ends as `WriteFailed` and no snapshot is ever written. `Saved` and `RenameFailed` model the evident design, and the outcome is a parameter so that every case is covered.
- `Metadata.DownloadableMetadata.SaveMetadataToDisc`: the Java serialization format and failures of the `close` calls in `finally` are not modelled. The snapshot is modelled as the missing range alone.
- `setUpHttpConnection`, `connectAndExistIfFailed` and the HTTP connection itself are not modelled. Each attempt is given as an `Attempt`: no response body, or the body as a `Stream`.
- `Writer.FileWriter.WriteChunks`: file writes are assumed to succeed. An `IOException` that `seek` or `write` throws for an I/O reason, such as a full disk (`src/FileWriter.java:32-33`), is caught at line 38 and ends the round without saving or advancing the range. The model has no such stop: `SeekFailed` arises only for a negative offset, and `WriteAt` cannot fail. `Downloader.PlayRoundOutcome`, `Downloader.RunRound` and `Downloader.DownloadURL` inherit this assumption.
- `RandomAccessFile` is modelled as a map from positions to bytes. Not modelled: file growth, zero-filling of gaps, `sync`, failure to open the file, and `InterruptedException` from `take`.
- `ChunkQueues.ChunkQueue.Take`: on an empty queue it returns `None` instead of blocking forever. The writer reports this as `Blocked`.
- `RangeGetter.HTTPRangeGetter.Run`: it sees a finite list of attempts. When all of them fail it returns `done == false`, where the source would keep trying forever.
- `Downloader.RunRound`: when a getter hangs, the writer has drained the chunks queued so far. This is the sequential interleaving; with threads, the writer may have taken fewer.
- `Downloader.DownloadURL`: it runs at most `|saves|` rounds and reports `OutOfRounds` after that. The source would loop forever when saves keep throwing. It takes an existing metadata object instead of calling `InitMetadata`.
- `Metadata.NextWindow`: it computes with unbounded integers. Java's `long` would only wrap for a committed end near 2^63, and no window gets there because the file size comes from an `int` content length. Likewise, chunk sizes and offsets are unbounded integers.
