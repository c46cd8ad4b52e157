/** HTTPRangeGetter.java: one worker of a round. It fetches its sub-range,
    reads the body `CHUNK_SIZE` bytes at a time into one reused buffer, asks the
    token bucket for `CHUNK_SIZE` tokens before each read, and queues a chunk
    per read at the running file offset. A failed attempt is retried from the
    start of the sub-range, for ever.

    Each try of `downloadRange` is given as an `Attempt`: either no response
    body at all, or the body as a `Stream`, that is what each successful
    `read` returned and how the stream ended (end of stream, or an
    `IOException`). */
module RangeGetter {
  import opened Java
  import opened Ranges
  import opened Chunks
  import opened ChunkQueues
  import opened Decimal

  /** `CHUNK_SIZE`: the size of the read buffer and of each token request. */
  const CHUNK_SIZE: int := 4096

  datatype StreamEnd = EndOfStream | ReadFailed

  /** What one `read(data, 0, CHUNK_SIZE)` returns: at most `CHUNK_SIZE` bytes. */
  type Block = b: seq<byte> | |b| <= CHUNK_SIZE

  /** One attempt's response body: the bytes of each read, in order. */
  datatype Stream = Stream(blocks: seq<Block>, end: StreamEnd)

  /** One try of `downloadRange`: `getInputStream` (line 35) throws before
      any body is read (an error status, or the read timeout while waiting
      for the response headers), or it returns the body `body`. */
  datatype Attempt = NoResponse | Response(body: Stream)

  /** The attempt read its body to the end, so `run` stops after it. */
  predicate Reached(t: Attempt) {
    t.Response? && t.body.end == EndOfStream
  }

  /** The chunks one attempt queues: none without a body. */
  function AttemptOutput(start: int, t: Attempt): seq<Chunk>
  {
    if t.NoResponse? then [] else Emitted(start, t.body.blocks)
  }

  /** The token requests of one attempt: none without a body, since the first
      request comes after `getInputStream` returned. */
  function AttemptTakes(t: Attempt): nat
  {
    if t.NoResponse? then 0 else |t.body.blocks| + 1
  }

  /** `checkResponseCode`: true when no exception is thrown, that is when the
      code divided by 100 with Java's truncating division is 2. */
  function CheckResponseCode(code: int): (accepted: bool)
    ensures accepted <==> 200 <= code <= 299
  {
    Div(code, 100) == 2
  }

  /** The value of the `Range` request header, spaces around the dash included. */
  function RangeHeader(r: Range): string
  {
    "bytes=" + LongToString(r.start) + " - " + LongToString(r.end)
  }

  /** The first index at or after `from` where " - " occurs in `s`. */
  function FindSeparator(s: string, from: nat): (i: Option<nat>)
    ensures i.Some? ==> from <= i.value && i.value + 3 <= |s| && s[i.value..i.value + 3] == " - "
    decreases |s| - from
  {
    if from + 3 > |s| then None
    else if s[from..from + 3] == " - " then Some(from)
    else FindSeparator(s, from + 1)
  }

  /** Reads a `Range` header value of the shape `RangeHeader` produces. */
  function ParseRangeHeader(h: string): Option<Range>
  {
    if |h| < 6 || h[..6] != "bytes=" then None
    else
      var body := h[6..];
      match FindSeparator(body, 0)
      case None => None
      case Some(i) =>
        match (ParseLong(body[..i]), ParseLong(body[i + 3..]))
        case (Some(a), Some(b)) => Some(Range(a, b))
        case _ => None
  }

  lemma {:induction false} SeparatorAfterNumber(a: string, rest: string, from: nat)
    requires ' ' !in a && from <= |a|
    ensures FindSeparator(a + " - " + rest, from) == Some(|a|)
    decreases |a| - from
  {
    var s := a + " - " + rest;
    if from < |a| {
      assert s[from] == a[from] && s[from] != ' ';
      assert s[from..from + 3] != " - ";
      SeparatorAfterNumber(a, rest, from + 1);
    } else {
      assert s[from..from + 3] == " - ";
    }
  }

  /** The header names exactly the sub-range: it reads back to `r`. */
  lemma RangeHeaderRoundTrip(r: Range)
    ensures ParseRangeHeader(RangeHeader(r)) == Some(r)
  {
    var a, b := LongToString(r.start), LongToString(r.end);
    var h := RangeHeader(r);
    assert h[..6] == "bytes=";
    var body := h[6..];
    assert body == a + " - " + b;
    SeparatorAfterNumber(a, b, 0);
    assert body[..|a|] == a && body[|a| + 3..] == b;
    ParseLongToString(r.start);
    ParseLongToString(r.end);
  }

  /** Bytes delivered by the blocks. */
  function Consumed(blocks: seq<Block>): nat
  {
    if blocks == [] then 0 else Consumed(blocks[..|blocks| - 1]) + |blocks[|blocks| - 1]|
  }

  /** The buffer `new byte[CHUNK_SIZE]` starts as. */
  function ZeroBuffer(): (b: seq<byte>)
    ensures |b| == CHUNK_SIZE
  {
    seq(CHUNK_SIZE, _ => 0)
  }

  /** The buffer after the blocks: each read overwrites only its own prefix. */
  function BufferAfter(blocks: seq<Block>): (b: seq<byte>)
    ensures |b| == CHUNK_SIZE
  {
    if blocks == [] then ZeroBuffer()
    else
      var last := blocks[|blocks| - 1];
      last + BufferAfter(blocks[..|blocks| - 1])[|last|..]
  }

  /** A byte of the buffer that some read reached holds what the last read
      reaching it put there. */
  lemma {:induction false} BufferAfterLastRead(blocks: seq<Block>, p: int, k: nat)
    requires k < |blocks| && 0 <= p < |blocks[k]|
    requires forall j :: k < j < |blocks| ==> |blocks[j]| <= p
    ensures BufferAfter(blocks)[p] == blocks[k][p]
    decreases |blocks|
  {
    var init := blocks[..|blocks| - 1];
    if k < |blocks| - 1 {
      forall j | k < j < |init| ensures |init[j]| <= p {
        assert init[j] == blocks[j];
      }
      BufferAfterLastRead(init, p, k);
    }
  }

  /** A byte of the buffer that no read reached is still 0. */
  lemma {:induction false} BufferAfterUnread(blocks: seq<Block>, p: int)
    requires 0 <= p < CHUNK_SIZE
    requires forall j :: 0 <= j < |blocks| ==> |blocks[j]| <= p
    ensures BufferAfter(blocks)[p] == 0
    decreases |blocks|
  {
    if blocks != [] {
      var init := blocks[..|blocks| - 1];
      forall j | 0 <= j < |init| ensures |init[j]| <= p {
        assert init[j] == blocks[j];
      }
      BufferAfterUnread(init, p);
    }
  }

  /** The chunks one attempt queues: one per read, carrying a copy of the whole
      buffer, the offset reached so far and the read's count. */
  function Emitted(start: int, blocks: seq<Block>): seq<Chunk>
  {
    if blocks == [] then []
    else
      var init := blocks[..|blocks| - 1];
      Emitted(start, init)
        + [Chunk(Some(BufferAfter(blocks)), start + Consumed(init), |blocks[|blocks| - 1]|)]
  }

  /** What `run` queues over the attempts up to the first that succeeds. */
  function RunOutput(start: int, attempts: seq<Attempt>): seq<Chunk>
  {
    if attempts == [] then []
    else
      AttemptOutput(start, attempts[0])
        + (if Reached(attempts[0]) then [] else RunOutput(start, attempts[1..]))
  }

  /** The token requests `run` makes over the same attempts. */
  function RunTakes(attempts: seq<Attempt>): nat
  {
    if attempts == [] then 0
    else
      AttemptTakes(attempts[0])
        + (if Reached(attempts[0]) then 0 else RunTakes(attempts[1..]))
  }

  /** What attempts that all failed queue, attempt after attempt. */
  function FailedOutput(start: int, attempts: seq<Attempt>): seq<Chunk>
  {
    if attempts == [] then []
    else FailedOutput(start, attempts[..|attempts| - 1]) + AttemptOutput(start, attempts[|attempts| - 1])
  }

  /** The token requests of attempts that all failed. */
  function FailedTakes(attempts: seq<Attempt>): nat
  {
    if attempts == [] then 0
    else FailedTakes(attempts[..|attempts| - 1]) + AttemptTakes(attempts[|attempts| - 1])
  }

  /** After `a` failed attempts, `run` has queued their chunks and what is
      left to queue is what `run` of the remaining attempts queues. */
  lemma {:induction false} RunOutputSplit(start: int, attempts: seq<Attempt>, a: nat)
    requires a <= |attempts|
    requires forall j :: 0 <= j < a ==> !Reached(attempts[j])
    ensures RunOutput(start, attempts) == FailedOutput(start, attempts[..a]) + RunOutput(start, attempts[a..])
    decreases a
  {
    if a == 0 {
      assert attempts[..0] == [] && attempts[0..] == attempts;
    } else {
      RunOutputSplit(start, attempts, a - 1);
      var failed, last, rest := FailedOutput(start, attempts[..a - 1]), AttemptOutput(start, attempts[a - 1]), RunOutput(start, attempts[a..]);
      assert attempts[a - 1..][0] == attempts[a - 1] && attempts[a - 1..][1..] == attempts[a..];
      assert RunOutput(start, attempts[a - 1..]) == last + rest;
      assert attempts[..a][..a - 1] == attempts[..a - 1] && attempts[..a][a - 1] == attempts[a - 1];
      assert FailedOutput(start, attempts[..a]) == failed + last;
      AppendAssoc(failed, last, rest);
    }
  }

  /** The token requests split the same way. */
  lemma {:induction false} RunTakesSplit(attempts: seq<Attempt>, a: nat)
    requires a <= |attempts|
    requires forall j :: 0 <= j < a ==> !Reached(attempts[j])
    ensures RunTakes(attempts) == FailedTakes(attempts[..a]) + RunTakes(attempts[a..])
    decreases a
  {
    if a == 0 {
      assert attempts[..0] == [] && attempts[0..] == attempts;
    } else {
      RunTakesSplit(attempts, a - 1);
      assert attempts[a - 1..][0] == attempts[a - 1] && attempts[a - 1..][1..] == attempts[a..];
      assert attempts[..a][..a - 1] == attempts[..a - 1] && attempts[..a][a - 1] == attempts[a - 1];
    }
  }

  /** The first attempt that reaches the end of its stream is the last one
      `run` makes: it queues the failed attempts before it, then that one,
      and succeeds. */
  lemma RunOutputAt(start: int, attempts: seq<Attempt>, a: nat)
    requires a < |attempts| && Reached(attempts[a])
    requires forall j :: 0 <= j < a ==> !Reached(attempts[j])
    ensures RunOutput(start, attempts) == FailedOutput(start, attempts[..a]) + Emitted(start, attempts[a].body.blocks)
    ensures RunTakes(attempts) == FailedTakes(attempts[..a]) + |attempts[a].body.blocks| + 1
    ensures Succeeds(attempts)
  {
    RunOutputSplit(start, attempts, a);
    RunTakesSplit(attempts, a);
    assert attempts[a..][0] == attempts[a];
    AppendNil(Emitted(start, attempts[a].body.blocks));
  }

  /** When every attempt fails, `run` queues all of them and does not
      succeed. */
  lemma RunOutputAllFail(start: int, attempts: seq<Attempt>)
    requires forall j :: 0 <= j < |attempts| ==> !Reached(attempts[j])
    ensures RunOutput(start, attempts) == FailedOutput(start, attempts)
    ensures RunTakes(attempts) == FailedTakes(attempts)
    ensures !Succeeds(attempts)
  {
    RunOutputSplit(start, attempts, |attempts|);
    RunTakesSplit(attempts, |attempts|);
    assert attempts[..|attempts|] == attempts && attempts[|attempts|..] == [];
    AppendNil(FailedOutput(start, attempts));
  }

  // Sequence identities stated on whole chunk sequences, so that the proofs
  // of this module use them without reasoning element by element.
  lemma AppendNil(a: seq<Chunk>)
    ensures a + [] == a
  {
  }

  lemma AppendAssoc(a: seq<Chunk>, b: seq<Chunk>, c: seq<Chunk>)
    ensures a + b + c == a + (b + c)
  {
  }

  predicate Succeeds(attempts: seq<Attempt>) {
    exists i :: 0 <= i < |attempts| && Reached(attempts[i])
  }

  /** The k-th chunk of an attempt: its offset is the sub-range start plus the
      bytes of the blocks before it, its size is the k-th read's count (at most
      `CHUNK_SIZE`), its payload is that read, and the rest of its copy of the
      buffer is what earlier reads left there. */
  lemma {:induction false} EmittedChunk(start: int, blocks: seq<Block>, k: nat)
    requires k < |blocks|
    ensures |Emitted(start, blocks)| == |blocks|
    ensures Emitted(start, blocks)[k].offset == start + Consumed(blocks[..k])
    ensures Emitted(start, blocks)[k].size == |blocks[k]| <= CHUNK_SIZE
    ensures Emitted(start, blocks)[k].data.Some?
    ensures |Emitted(start, blocks)[k].data.value| == CHUNK_SIZE
    ensures Emitted(start, blocks)[k].data.value[..|blocks[k]|] == blocks[k]
    ensures Emitted(start, blocks)[k].data.value[|blocks[k]|..] == BufferAfter(blocks[..k])[|blocks[k]|..]
    decreases |blocks|
  {
    var n := |blocks|;
    var init := blocks[..n - 1];
    if k < n - 1 {
      EmittedChunk(start, init, k);
      assert init[..k] == blocks[..k] && init[k] == blocks[k];
    } else {
      EmittedLength(start, init);
      assert init == blocks[..k];
    }
  }

  lemma {:induction false} EmittedLength(start: int, blocks: seq<Block>)
    ensures |Emitted(start, blocks)| == |blocks|
    decreases |blocks|
  {
    if blocks != [] {
      var init := blocks[..|blocks| - 1];
      EmittedLength(start, init);
    }
  }

  /** Consecutive chunks of one attempt are back to back in the file. */
  lemma EmittedAdjacent(start: int, blocks: seq<Block>, k: nat)
    requires k + 1 < |blocks|
    ensures |Emitted(start, blocks)| == |blocks|
    ensures Emitted(start, blocks)[k + 1].offset
         == Emitted(start, blocks)[k].offset + Emitted(start, blocks)[k].size
  {
    EmittedChunk(start, blocks, k);
    EmittedChunk(start, blocks, k + 1);
    var pre := blocks[..k + 1];
    assert pre[..k] == blocks[..k];
  }

  class HTTPRangeGetter {
    const url: string
    const range: Range
    const outQueue: ChunkQueue

    constructor (url: string, range: Range, outQueue: ChunkQueue)
      ensures this.url == url && this.range == range && this.outQueue == outQueue
    {
      this.url := url;
      this.range := range;
      this.outQueue := outQueue;
    }

    /** `streamToChunkQueue`: queues one chunk per read and returns whether the
        stream failed, and how many times it asked the token bucket for
        `CHUNK_SIZE` tokens: once before the first read and once after each
        chunk. */
    method StreamToChunkQueue(input: Stream) returns (failed: bool, takes: nat)
      modifies outQueue
      ensures outQueue.items == old(outQueue.items) + Emitted(range.start, input.blocks)
      ensures failed <==> input.end == ReadFailed
      ensures takes == |input.blocks| + 1
    {
      var data := new byte[CHUNK_SIZE](_ => 0);
      var offset := range.start;
      takes := 1;
      var i := 0;
      while i < |input.blocks|
        invariant 0 <= i <= |input.blocks|
        invariant data[..] == BufferAfter(input.blocks[..i])
        invariant offset == range.start + Consumed(input.blocks[..i])
        invariant outQueue.items == old(outQueue.items) + Emitted(range.start, input.blocks[..i])
        invariant takes == i + 1
      {
        var got := input.blocks[i];
        // `read(data, 0, CHUNK_SIZE)` fills the front of the buffer
        forall j | 0 <= j < |got| {
          data[j] := got[j];
        }
        assert input.blocks[..i + 1][..i] == input.blocks[..i];
        assert data[..] == got + BufferAfter(input.blocks[..i])[|got|..];
        var c := NewChunk(data, offset, |got|);
        outQueue.Add(c);
        offset := offset + |got|;
        takes := takes + 1;
        i := i + 1;
      }
      assert input.blocks[..i] == input.blocks;
      failed := input.end == ReadFailed;
    }

    /** `run`: repeats the download of the sub-range until an attempt reaches
        the end of its stream. The attempts are those the server answers with;
        `done` is false only when every one of them failed, after which the
        source would go on trying. */
    method Run(attempts: seq<Attempt>) returns (done: bool, takes: nat)
      modifies outQueue
      ensures done <==> Succeeds(attempts)
      ensures outQueue.items == old(outQueue.items) + RunOutput(range.start, attempts)
      ensures takes == RunTakes(attempts)
    {
      done := false;
      takes := 0;
      var a := 0;
      while a < |attempts|
        invariant 0 <= a <= |attempts|
        invariant forall j :: 0 <= j < a ==> !Reached(attempts[j])
        invariant outQueue.items == old(outQueue.items) + FailedOutput(range.start, attempts[..a])
        invariant takes == FailedTakes(attempts[..a])
      {
        var failed, t;
        if attempts[a].NoResponse? {
          // `getInputStream` threw: nothing read, no token asked for
          AppendNil(outQueue.items);
          failed, t := true, 0;
        } else {
          failed, t := StreamToChunkQueue(attempts[a].body);
        }
        AppendAssoc(old(outQueue.items), FailedOutput(range.start, attempts[..a]), AttemptOutput(range.start, attempts[a]));
        takes := takes + t;
        if !failed {
          RunOutputAt(range.start, attempts, a);
          done := true;
          return;
        }
        assert attempts[..a + 1][..a] == attempts[..a] && attempts[..a + 1][a] == attempts[a];
        a := a + 1;
      }
      assert attempts[..a] == attempts;
      RunOutputAllFail(range.start, attempts);
    }
  }
}
