/** IdcDm.java: the round loop. While the metadata's missing range is not
    empty, each round splits it among `numberOfWorkers` range getters, lets
    them queue their chunks, queues the finished marker, lets the file writer
    drain the queue, and clears it.

    Threads are run one after another: every getter of a round runs to its
    end, in order, and then the writer, which is one of the interleavings the
    threads allow. What the server answers for each sub-range is the parameter
    `server`, and how each round's metadata save ends is the parameter `saves`. */
module Downloader {
  import opened Java
  import opened Ranges
  import opened Chunks
  import opened ChunkQueues
  import opened Metadata
  import opened RangeGetter
  import opened Writer

  /** `new Chunk(null, 0, -1)`: the marker queued after a round's getters. */
  const FinishMarker: Chunk := Chunk(None, 0, -1)

  /** The writer treats the marker as the end of the round, not as a failure. */
  lemma FinishMarkerEndsRound()
    ensures IsRangeFinished(FinishMarker) && !IsChunkFailed(FinishMarker)
    ensures StopAt(FinishMarker) == Finished
  {
  }

  /** A chunk with both `size == -1` and `offset == -1` ends the round: the
      size test comes first. */
  lemma FinishedBeforeFailed(c: Chunk)
    requires c.size == -1 && c.offset == -1
    ensures StopAt(c) == Finished
  {
  }

  /** The sub-ranges of lines 63-79: the `i`-th starts `i * (L/n + 1)` bytes
      after the window's start and spans `L/n + 1` bytes, `L` being the
      window's length. The remainder only sets the locals after the last
      sub-range is built, so it never reaches a sub-range. */
  function SubRanges(w: Range, n: int): seq<Range>
    requires n > 0
  {
    var len := Div(w.Length(), n);
    seq(n, i => Range(w.start + i * (len + 1), w.start + i * (len + 1) + len))
  }

  /** The partition loop, filling the array of workers with their sub-ranges.
      An empty array means `numberOfWorkers == 0`, and line 63 divides by it. */
  method FillSubRanges(currRange: Range, workers: array<Range>) returns (divisionByZero: bool)
    modifies workers
    ensures divisionByZero <==> workers.Length == 0
    ensures !divisionByZero ==> workers[..] == SubRanges(currRange, workers.Length)
  {
    if workers.Length == 0 {
      return true;
    }
    divisionByZero := false;
    var length := Div(currRange.Length(), workers.Length);
    var reminder := Rem(currRange.Length(), workers.Length);
    var start := currRange.start;
    var end := currRange.start + length;
    for i := 0 to workers.Length
      invariant i < workers.Length ==> start == currRange.start + i * (length + 1)
      invariant i < workers.Length ==> end == start + length
      invariant workers[..i] == SubRanges(currRange, workers.Length)[..i]
    {
      workers[i] := Range(start, end);
      assert SubRanges(currRange, workers.Length)[i] == Range(start, end);
      assert (i + 1) * (length + 1) == i * (length + 1) + length + 1;
      if i != workers.Length - 1 || reminder == 0 {
        start := end + 1;
        end := start + length;
      } else {
        // only on the last pass, so these values are never used
        start := end + 1;
        end := start + reminder;
      }
    }
  }

  /** The shape of the partition: `n` sub-ranges, the first `[S, S + L/n]`,
      each `L/n + 1` bytes long and each starting right after the one before. */
  lemma SubRangesShape(w: Range, n: int)
    requires n > 0
    ensures |SubRanges(w, n)| == n
    ensures SubRanges(w, n)[0] == Range(w.start, w.start + Div(w.Length(), n))
    ensures forall i :: 0 <= i < n ==> SubRanges(w, n)[i].Length() == Div(w.Length(), n) + 1
    ensures forall i :: 0 <= i < n - 1 ==> SubRanges(w, n)[i + 1].start == SubRanges(w, n)[i].end + 1
  {
    var len := Div(w.Length(), n);
    forall i | 0 <= i < n - 1
      ensures SubRanges(w, n)[i + 1].start == SubRanges(w, n)[i].end + 1
    {
      assert (i + 1) * (len + 1) == i * (len + 1) + len + 1;
    }
  }

  lemma MulMonotonic(a: int, b: int, m: int)
    requires a >= b && m >= 0
    ensures a * m >= b * m
  {
    assert a * m - b * m == (a - b) * m;
  }

  /** For a non-empty window the sub-ranges over-cover it: the last one ends
      `n - L % n` bytes past the window's end, and every byte of the window
      lies in some sub-range. */
  lemma SubRangesCover(w: Range, n: int, b: int)
    requires n > 0 && w.start <= w.end
    requires w.start <= b <= w.end
    ensures SubRanges(w, n)[n - 1].end == w.end + n - Rem(w.Length(), n)
    ensures exists i :: 0 <= i < n && SubRanges(w, n)[i].Contains(b)
  {
    var L := w.Length();
    var q := Div(L, n);
    var subs := SubRanges(w, n);
    assert L == q * n + Rem(L, n) && 0 <= Rem(L, n) < n;
    assert q >= 0 by {
      if q < 0 {
        MulMonotonic(-1, q, n);
      }
    }
    assert subs[n - 1].end == w.end + n - Rem(L, n) by {
      assert subs[n - 1].end == w.start + (n - 1) * (q + 1) + q;
      SpanOfParts(n, q);
    }
    var i := CoveringPart(b - w.start, n, q, Rem(L, n));
    assert subs[i] == Range(w.start + i * (q + 1), w.start + i * (q + 1) + q);
    assert subs[i].Contains(b);
  }

  /** `n` parts of `q + 1` bytes, the last one cut to `q`, span `n * q + n - 1`. */
  lemma SpanOfParts(n: int, q: int)
    ensures (n - 1) * (q + 1) + q == n * q + n - 1
  {
  }

  /** An offset within `n * q + r` bytes, `r < n`, lies in part
      `off / (q + 1)`, the `n` parts being `q + 1` bytes long. */
  lemma CoveringPart(off: int, n: int, q: int, r: int) returns (i: int)
    requires n > 0 && q >= 0 && 0 <= r < n
    requires 0 <= off < q * n + r
    ensures 0 <= i < n
    ensures i * (q + 1) <= off < i * (q + 1) + q + 1
  {
    i := off / (q + 1);
    assert i < n by {
      if i >= n {
        MulMonotonic(i, n, q + 1);
      }
    }
  }

  /** A getter of a window that starts at a non-negative offset queues only
      chunks the writer writes and goes past. */
  lemma {:induction false} EmittedArePayloads(start: int, blocks: seq<Block>)
    requires start >= 0
    ensures forall j :: 0 <= j < |Emitted(start, blocks)| ==> IsPayload(Emitted(start, blocks)[j])
  {
    EmittedLength(start, blocks);
    forall j | 0 <= j < |blocks| ensures IsPayload(Emitted(start, blocks)[j]) {
      EmittedChunk(start, blocks, j);
    }
  }

  lemma {:induction false} RunOutputArePayloads(start: int, attempts: seq<Attempt>)
    requires start >= 0
    ensures forall j :: 0 <= j < |RunOutput(start, attempts)| ==> IsPayload(RunOutput(start, attempts)[j])
    decreases |attempts|
  {
    if attempts != [] {
      if attempts[0].Response? {
        EmittedArePayloads(start, attempts[0].body.blocks);
      }
      if !Reached(attempts[0]) {
        RunOutputArePayloads(start, attempts[1..]);
      }
    }
  }

  /** Every getter of the round eventually reaches the end of its stream. */
  predicate AllSucceed(subs: seq<Range>, server: Range -> seq<Attempt>) {
    forall i :: 0 <= i < |subs| ==> Succeeds(server(subs[i]))
  }

  /** The chunks the getters of the sub-ranges `subs` queue, getter after
      getter. */
  function RoundOutput(subs: seq<Range>, server: Range -> seq<Attempt>): seq<Chunk>
    decreases |subs|
  {
    if subs == [] then []
    else RunOutput(subs[0].start, server(subs[0])) + RoundOutput(subs[1..], server)
  }

  /** What the writer finds in the queue during a round: the getters' chunks,
      then the finished marker, which line 89 queues only once every `join`
      has returned, that is once every getter has succeeded. */
  function RoundQueue(subs: seq<Range>, server: Range -> seq<Attempt>): seq<Chunk>
  {
    RoundOutput(subs, server) + (if AllSucceed(subs, server) then [FinishMarker] else [])
  }

  lemma {:induction false} RoundOutputArePayloads(subs: seq<Range>, server: Range -> seq<Attempt>)
    requires forall i :: 0 <= i < |subs| ==> subs[i].start >= 0
    ensures forall j :: 0 <= j < |RoundOutput(subs, server)| ==> IsPayload(RoundOutput(subs, server)[j])
    decreases |subs|
  {
    if subs != [] {
      RunOutputArePayloads(subs[0].start, server(subs[0]));
      forall i | 0 <= i < |subs[1..]| ensures subs[1..][i].start >= 0 {
        assert subs[1..][i] == subs[i + 1];
      }
      RoundOutputArePayloads(subs[1..], server);
    }
  }

  /** How one pass of the round loop ends. */
  datatype RoundResult =
    | Ran(committed: bool)  // every `join` returned; `committed` when the range advanced
    | DivisionByZero        // `numberOfWorkers == 0`: line 63 divides by it
    | Hung                  // a getter never reached the end of its stream, so `join` waits for ever

  /** What a round can change: the missing range, the metadata file's
      contents and the output file. */
  datatype Progress = Progress(window: Range, persisted: Option<Range>, file: map<int, byte>)

  /** One pass of `while (!isCompleted())` with `n` workers, lines 55-103.
      The writer drains whatever the getters queue; the range advances when it
      reached the finished marker and the save did not throw. When a getter
      hangs, the writer has written what was queued and then waits for ever. */
  function PlayRound(fileSize: int, n: nat, server: Range -> seq<Attempt>, save: SaveOutcome,
                     s: Progress): (RoundResult, Progress)
  {
    if n == 0 then (DivisionByZero, s)
    else
      var subs := SubRanges(s.window, n);
      var d := Drain(RoundQueue(subs, server), s.file);
      var committed := d.stop == Finished && save != OpenFailed;
      var next := Progress(if committed then NextWindow(fileSize, s.window) else s.window,
                           if d.stop == Finished then AfterSave(save, s.window, s.persisted) else s.persisted,
                           d.file);
      (if AllSucceed(subs, server) then Ran(committed) else Hung, next)
  }

  /** For a non-empty window at a non-negative offset, the getters queue only
      payloads, so a round hangs exactly when a getter never succeeds, and
      otherwise the writer reaches the marker: the window advances exactly
      when the save does not throw, and the metadata file then holds the
      window from before the advance. A hung round changes no metadata. */
  lemma PlayRoundOutcome(fileSize: int, n: nat, server: Range -> seq<Attempt>, save: SaveOutcome, s: Progress)
    requires n > 0 && 0 <= s.window.start <= s.window.end
    ensures PlayRound(fileSize, n, server, save, s).0 == Hung <==> !AllSucceed(SubRanges(s.window, n), server)
    ensures PlayRound(fileSize, n, server, save, s).0.Ran? ==>
              && (PlayRound(fileSize, n, server, save, s).0.committed <==> save != OpenFailed)
              && PlayRound(fileSize, n, server, save, s).1.persisted == AfterSave(save, s.window, s.persisted)
    ensures PlayRound(fileSize, n, server, save, s).0 == Hung ==>
              && PlayRound(fileSize, n, server, save, s).1.window == s.window
              && PlayRound(fileSize, n, server, save, s).1.persisted == s.persisted
  {
    var subs := SubRanges(s.window, n);
    var len := Div(s.window.Length(), n);
    assert len >= 0;
    forall i | 0 <= i < |subs| ensures subs[i].start >= 0 {
      MulMonotonic(i, 0, len + 1);
    }
    RoundOutputArePayloads(subs, server);
    if AllSucceed(subs, server) {
      DrainPayloadsThenFinish(RoundOutput(subs, server), FinishMarker, s.file);
    }
  }

  lemma {:induction false} SilentRoundOutput(subs: seq<Range>, server: Range -> seq<Attempt>)
    requires forall r :: server(r) == [Response(Stream([], EndOfStream))]
    ensures RoundOutput(subs, server) == [] && AllSucceed(subs, server)
    decreases |subs|
  {
    if subs != [] {
      SilentRoundOutput(subs[1..], server);
      assert Succeeds(server(subs[0])) by {
        assert server(subs[0])[0].body.end == EndOfStream;
      }
      forall i | 0 <= i < |subs| ensures Succeeds(server(subs[i])) {
        assert server(subs[i])[0].body.end == EndOfStream;
      }
    }
  }

  /** A server whose every response body ends at once still gets the window
      committed: the marker is queued when every stream has ended, whatever
      bytes it delivered, so the range advances while the file is unchanged. */
  lemma SilentServerCommitsWindow(fileSize: int, n: nat, server: Range -> seq<Attempt>, save: SaveOutcome, s: Progress)
    requires n > 0 && save != OpenFailed
    requires forall r :: server(r) == [Response(Stream([], EndOfStream))]
    ensures PlayRound(fileSize, n, server, save, s)
         == (Ran(true), Progress(NextWindow(fileSize, s.window), AfterSave(save, s.window, s.persisted), s.file))
  {
    SilentRoundOutput(SubRanges(s.window, n), server);
    assert RoundQueue(SubRanges(s.window, n), server) == [FinishMarker];
  }

  /** Lines 68-87: a getter per sub-range, each run to its end. The queue
      gains the chunks of every getter, in order; `hung` tells whether some
      getter never succeeded, so that its `join` would wait for ever. */
  method RunGetters(url: string, workers: array<Range>, server: Range -> seq<Attempt>, chunkQueue: ChunkQueue)
    returns (hung: bool)
    modifies chunkQueue
    ensures chunkQueue.items == old(chunkQueue.items) + RoundOutput(workers[..], server)
    ensures hung <==> !AllSucceed(workers[..], server)
  {
    hung := false;
    ghost var subs := workers[..];
    for i := 0 to workers.Length
      invariant chunkQueue.items + RoundOutput(subs[i..], server) == old(chunkQueue.items) + RoundOutput(subs, server)
      invariant hung <==> exists j :: 0 <= j < i && !Succeeds(server(subs[j]))
    {
      var subRange := workers[i];
      var getter := new HTTPRangeGetter(url, subRange, chunkQueue);
      var done, _ := getter.Run(server(subRange));
      hung := hung || !done;
      assert subs[i..][1..] == subs[i + 1..];
    }
    assert subs[workers.Length..] == [];
  }

  /** One pass of `while (!isCompleted())`, lines 55-103: partition the missing
      range, run a getter per sub-range, queue the finished marker once every
      getter has ended, let the writer drain the queue, clear it. */
  method RunRound(fileWriter: FileWriter, workers: array<Range>,
                  server: Range -> seq<Attempt>, save: SaveOutcome, file: DiskFile)
    returns (result: RoundResult)
    requires fileWriter.chunkQueue.items == []
    requires 0 <= fileWriter.downloadableMetadata.missingRange.start
    requires !fileWriter.downloadableMetadata.IsCompleted()
    modifies fileWriter.downloadableMetadata, fileWriter.chunkQueue, workers, file
    ensures (result, Progress(fileWriter.downloadableMetadata.missingRange, fileWriter.downloadableMetadata.persisted, file.bytes))
         == PlayRound(fileWriter.downloadableMetadata.fileSize, workers.Length, server, save,
                      Progress(old(fileWriter.downloadableMetadata.missingRange),
                               old(fileWriter.downloadableMetadata.persisted), old(file.bytes)))
    ensures workers.Length > 0 ==> workers[..] == SubRanges(old(fileWriter.downloadableMetadata.missingRange), workers.Length)
    ensures result == DivisionByZero <==> workers.Length == 0
    ensures result == Hung <==>
              workers.Length > 0 && !AllSucceed(SubRanges(old(fileWriter.downloadableMetadata.missingRange), workers.Length), server)
    ensures result.Ran? ==> fileWriter.chunkQueue.items == []
    ensures result.Ran? ==> (result.committed <==> save != OpenFailed)
  {
    var metaData := fileWriter.downloadableMetadata;
    var chunkQueue := fileWriter.chunkQueue;
    var currRange := metaData.GetMissingRange();
    ghost var s := Progress(currRange, metaData.persisted, file.bytes);
    var divisionByZero := FillSubRanges(currRange, workers);
    if divisionByZero {
      return DivisionByZero;
    }
    var hung := RunGetters(metaData.url, workers, server, chunkQueue);
    if !hung {
      chunkQueue.Add(FinishMarker);
    }
    assert chunkQueue.items == RoundQueue(SubRanges(currRange, workers.Length), server);
    var stop, committed := fileWriter.WriteChunks(file, save);
    PlayRoundOutcome(metaData.fileSize, workers.Length, server, save, s);
    if hung {
      return Hung;
    }
    chunkQueue.Clear();
    result := Ran(committed);
  }

  datatype DownloadOutcome =
    | Succeeded         // the missing range became empty; the metadata file is deleted
    | NegativeWorkers   // `new Thread[numberOfWorkers]` throws at line 52
    | Stopped(round: RoundResult)  // a round divided by zero or hung
    | OutOfRounds       // the rounds given in `saves` are used up

  /** How a download ends: its outcome, the rounds run, and the state left. */
  datatype Final = Final(outcome: DownloadOutcome, rounds: nat, state: Progress)

  /** The round loop from round `k` on state `s`, round `k` saving with
      outcome `saves[k]`; on success the metadata file is deleted, `deleted`
      being what `File.delete` returns. */
  function DownloadFrom(fileSize: int, n: nat, server: Range -> seq<Attempt>, saves: seq<SaveOutcome>,
                        deleted: bool, k: nat, s: Progress): Final
    requires k <= |saves|
    decreases |saves| - k
  {
    if s.window.end < s.window.start then Final(Succeeded, k, s.(persisted := if deleted then None else s.persisted))
    else if k == |saves| then Final(OutOfRounds, k, s)
    else
      var (result, next) := PlayRound(fileSize, n, server, saves[k], s);
      if result.Ran? then DownloadFrom(fileSize, n, server, saves, deleted, k + 1, next)
      else Final(Stopped(result), k, next)
  }

  /** `DownloadURL` from the point the metadata exists. */
  function Download(fileSize: int, n: int, server: Range -> seq<Attempt>, saves: seq<SaveOutcome>,
                    deleted: bool, s: Progress): Final
  {
    if n < 0 then Final(NegativeWorkers, 0, s) else DownloadFrom(fileSize, n, server, saves, deleted, 0, s)
  }

  /** Every round commits when every getter finally succeeds and no save
      throws. */
  ghost predicate Cooperative(numberOfWorkers: int, server: Range -> seq<Attempt>, saves: seq<SaveOutcome>) {
    && numberOfWorkers > 0
    && (forall r :: Succeeds(server(r)))
    && (forall i :: 0 <= i < |saves| ==> saves[i] != OpenFailed)
  }

  /** With cooperative collaborators and rounds enough, the download succeeds
      after exactly `RoundsToComplete` further rounds, and the metadata file
      is gone when `File.delete` succeeds. */
  lemma {:induction false} CooperativeDownloadSucceeds(fileSize: int, n: nat, server: Range -> seq<Attempt>,
                                                       saves: seq<SaveOutcome>, deleted: bool, k: nat, s: Progress)
    requires Cooperative(n, server, saves)
    requires 0 <= s.window.start && s.window.end <= fileSize
    requires k + RoundsToComplete(fileSize, s.window) <= |saves|
    ensures DownloadFrom(fileSize, n, server, saves, deleted, k, s).outcome == Succeeded
    ensures DownloadFrom(fileSize, n, server, saves, deleted, k, s).rounds == k + RoundsToComplete(fileSize, s.window)
    ensures deleted ==> DownloadFrom(fileSize, n, server, saves, deleted, k, s).state.persisted == None
    decreases |saves| - k
  {
    if s.window.start <= s.window.end {
      PlayRoundOutcome(fileSize, n, server, saves[k], s);
      var next := PlayRound(fileSize, n, server, saves[k], s).1;
      CooperativeDownloadSucceeds(fileSize, n, server, saves, deleted, k + 1, next);
    }
  }

  /** What any download from round `k` on a window at a non-negative offset,
      within the file, ends with: at most `|saves|` rounds, a window still
      within the file, success exactly when the window is empty (and then no
      metadata file when `File.delete` succeeds), and a division by zero
      exactly when there are no workers and a round was begun. */
  lemma {:induction false} DownloadFromFacts(fileSize: int, n: nat, server: Range -> seq<Attempt>,
                                             saves: seq<SaveOutcome>, deleted: bool, k: nat, s: Progress)
    requires k <= |saves|
    requires 0 <= s.window.start && s.window.end <= fileSize
    ensures var f := DownloadFrom(fileSize, n, server, saves, deleted, k, s);
      && k <= f.rounds <= |saves|
      && f.state.window.end <= fileSize && 0 <= f.state.window.start
      && f.outcome != NegativeWorkers
      && (f.outcome == Succeeded <==> f.state.window.end < f.state.window.start)
      && (f.outcome == Succeeded && deleted ==> f.state.persisted == None)
      && (f.outcome == Stopped(DivisionByZero) <==> n == 0 && s.window.start <= s.window.end && k < |saves|)
    decreases |saves| - k
  {
    if s.window.start <= s.window.end && k < |saves| && n > 0 {
      PlayRoundOutcome(fileSize, n, server, saves[k], s);
      var (result, next) := PlayRound(fileSize, n, server, saves[k], s);
      if result.Ran? {
        DownloadFromFacts(fileSize, n, server, saves, deleted, k + 1, next);
      }
    }
  }

  /** What every download ends with, when the window starts within the file:
      at most `|saves|` rounds and a window still within the file; a negative
      worker count fails at once; success exactly when the window ends up
      empty, and then no metadata file is left when `File.delete` succeeds; a
      division by zero exactly when there are no workers and a round is begun.
      With cooperative collaborators and rounds enough it succeeds after
      exactly `RoundsToComplete` rounds. */
  lemma DownloadFacts(fileSize: int, n: int, server: Range -> seq<Attempt>, saves: seq<SaveOutcome>,
                      deleted: bool, s: Progress)
    requires 0 <= s.window.start && s.window.end <= fileSize
    ensures var f := Download(fileSize, n, server, saves, deleted, s);
      && f.rounds <= |saves|
      && 0 <= f.state.window.start && f.state.window.end <= fileSize
      && (f.outcome == NegativeWorkers <==> n < 0)
      && (f.outcome == Succeeded <==> n >= 0 && f.state.window.end < f.state.window.start)
      && (f.outcome == Succeeded && deleted ==> f.state.persisted == None)
      && (f.outcome == Stopped(DivisionByZero) <==> n == 0 && s.window.start <= s.window.end && |saves| > 0)
    ensures Cooperative(n, server, saves) && RoundsToComplete(fileSize, s.window) <= |saves| ==>
              && Download(fileSize, n, server, saves, deleted, s).outcome == Succeeded
              && Download(fileSize, n, server, saves, deleted, s).rounds == RoundsToComplete(fileSize, s.window)
  {
    if n >= 0 {
      DownloadFromFacts(fileSize, n, server, saves, deleted, 0, s);
      if Cooperative(n, server, saves) && RoundsToComplete(fileSize, s.window) <= |saves| {
        CooperativeDownloadSucceeds(fileSize, n, server, saves, deleted, 0, s);
      }
    }
  }

  /** `DownloadURL`, from the point the metadata exists. At most `|saves|`
      rounds are run, round `k` saving with outcome `saves[k]`. It ends in the
      state `Download` gives: the download succeeds exactly when the missing
      range ends up empty, and then the metadata file is deleted. */
  method DownloadURL(metaData: DownloadableMetadata, numberOfWorkers: int,
                     server: Range -> seq<Attempt>, saves: seq<SaveOutcome>, deleted: bool, file: DiskFile)
    returns (outcome: DownloadOutcome, rounds: nat)
    requires metaData.Valid() && metaData.missingRange.start >= 0
    modifies metaData, file
    ensures Final(outcome, rounds, Progress(metaData.missingRange, metaData.persisted, file.bytes))
         == Download(metaData.fileSize, numberOfWorkers, server, saves, deleted,
                     Progress(old(metaData.missingRange), old(metaData.persisted), old(file.bytes)))
    ensures metaData.Valid()
    ensures outcome == NegativeWorkers <==> numberOfWorkers < 0
    ensures outcome == Succeeded <==> numberOfWorkers >= 0 && metaData.IsCompleted()
    ensures outcome == Succeeded && deleted ==> metaData.persisted == None
    ensures outcome == Stopped(DivisionByZero) <==> numberOfWorkers == 0 && !old(metaData.IsCompleted()) && |saves| > 0
    ensures rounds <= |saves|
    ensures Cooperative(numberOfWorkers, server, saves)
            && RoundsToComplete(metaData.fileSize, old(metaData.missingRange)) <= |saves|
            ==> outcome == Succeeded && rounds == RoundsToComplete(metaData.fileSize, old(metaData.missingRange))
  {
    rounds := 0;
    ghost var s0 := Progress(metaData.missingRange, metaData.persisted, file.bytes);
    DownloadFacts(metaData.fileSize, numberOfWorkers, server, saves, deleted, s0);
    if numberOfWorkers < 0 {
      return NegativeWorkers, 0;
    }
    var chunkQueue := new ChunkQueue();
    var fileWriter := new FileWriter(metaData, chunkQueue);
    var httpRangeGetters := new Range[numberOfWorkers](_ => Range(0, 0));
    ghost var target := DownloadFrom(metaData.fileSize, numberOfWorkers, server, saves, deleted, 0, s0);
    assert target == Download(metaData.fileSize, numberOfWorkers, server, saves, deleted, s0);
    var stopped := false;
    outcome := OutOfRounds;
    while !stopped && !metaData.IsCompleted() && rounds < |saves|
      invariant metaData.Valid() && metaData.missingRange.start >= 0
      invariant rounds <= |saves|
      invariant !stopped ==> chunkQueue.items == [] && outcome == OutOfRounds
      invariant !stopped ==>
                  target == DownloadFrom(metaData.fileSize, numberOfWorkers, server, saves, deleted, rounds,
                                  Progress(metaData.missingRange, metaData.persisted, file.bytes))
      invariant stopped ==>
                  target == Final(outcome, rounds, Progress(metaData.missingRange, metaData.persisted, file.bytes))
      decreases |saves| - rounds, if stopped then 0 else 1
    {
      var result := RunRound(fileWriter, httpRangeGetters, server, saves[rounds], file);
      if result.Ran? {
        rounds := rounds + 1;
      } else {
        outcome := Stopped(result);
        stopped := true;
      }
    }
    if !stopped {
      ghost var s := Progress(metaData.missingRange, metaData.persisted, file.bytes);
      if metaData.IsCompleted() {
        metaData.Delete(deleted);
        outcome := Succeeded;
        assert Progress(metaData.missingRange, metaData.persisted, file.bytes)
            == s.(persisted := if deleted then None else s.persisted);
      } else {
        assert rounds == |saves|;
      }
    }
    assert target == Final(outcome, rounds, Progress(metaData.missingRange, metaData.persisted, file.bytes));
  }
}
