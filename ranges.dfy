/** Range.java: an inclusive byte interval `[start, end]` with a derived length.
    Java's `Long` fields are never reassigned, so the class is a value. */
module Ranges {

  /** The constructor does not demand `start <= end`: a range whose end lies
      before its start has a length of zero or less, which is how the download
      window says "nothing is missing". `getStart` and `getEnd` are the
      destructors `start` and `end`. */
  datatype Range = Range(start: int, end: int) {

    /** `getLength`: the number of bytes in the range, `end - start + 1`;
        it is below one exactly when the range is reversed. */
    function Length(): (n: int)
      ensures n < 1 <==> end < start
    {
      end - start + 1
    }

    /** The bytes the range stands for. */
    predicate Contains(b: int) {
      start <= b <= end
    }
  }
}
