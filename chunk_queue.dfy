/** The `BlockingQueue<Chunk>` shared by the range getters (producers) and the
    file writer (consumer), as a sequence in queue order. Only one thread runs
    at a time in this model, so a `take` on an empty queue, which would block
    for ever, reports that instead. */
module ChunkQueues {
  import opened Java
  import opened Chunks

  class ChunkQueue {
    var items: seq<Chunk>

    constructor ()
      ensures items == []
    {
      items := [];
    }

    /** `add`: appends at the tail. */
    method Add(c: Chunk)
      modifies this
      ensures items == old(items) + [c]
    {
      items := items + [c];
    }

    /** `take`: removes the head; `None` when the queue is empty. */
    method Take() returns (c: Option<Chunk>)
      modifies this
      ensures old(items) == [] ==> c == None && items == []
      ensures old(items) != [] ==> c == Some(old(items)[0]) && items == old(items)[1..]
    {
      if items == [] {
        c := None;
      } else {
        c := Some(items[0]);
        items := items[1..];
      }
    }

    /** `clear`: drops whatever is left. */
    method Clear()
      modifies this
      ensures items == []
    {
      items := [];
    }
  }
}
