/** Chunk.java: a block of downloaded bytes with the file offset it belongs at
    and the number of bytes in it that are meaningful. */
module Chunks {
  import opened Java

  /** `data` is absent for the sentinel chunks that carry no payload; `getData`,
      `getOffset` and `getSize_in_bytes` are the destructors. Nothing ties
      `size` to the length of `data`. */
  datatype Chunk = Chunk(data: Option<seq<byte>>, offset: int, size: int)

  /** The constructor: keeps a private copy of the caller's buffer (or no data
      when the buffer is null) and stores the offset and size exactly as given.
      The copy is a value, so later writes into `data` do not reach the chunk. */
  method NewChunk(data: array?<byte>, offset: int, size: int) returns (c: Chunk)
    ensures data == null <==> c.data == None
    ensures data != null ==> c.data == Some(data[..])
    ensures c.offset == offset && c.size == size
  {
    var copy := if data == null then None else Some(data[..]);
    c := Chunk(copy, offset, size);
  }
}
