/** Small pieces of the Java platform that the downloader relies on:
    an optional value (Java's null), signed bytes and Java's integer division. */
module Java {

  datatype Option<+T> = None | Some(value: T)

  /** A Java `byte`: a signed 8-bit integer. */
  newtype byte = b: int | -128 <= b < 128

  /** Java's `/` on integers: the quotient is truncated toward zero
      (Dafny's own `/` is Euclidean and differs for negative dividends),
      so the remainder it leaves has the sign of the dividend. */
  function Div(a: int, n: int): (q: int)
    requires n > 0
    ensures a >= 0 ==> 0 <= a - q * n < n
    ensures a < 0 ==> -n < a - q * n <= 0
  {
    if a >= 0 then a / n else -((-a) / n)
  }

  /** Java's `%` on integers: what `Div` leaves over. */
  function Rem(a: int, n: int): (r: int)
    requires n > 0
    ensures Div(a, n) * n + r == a
    ensures a >= 0 ==> 0 <= r < n
    ensures a < 0 ==> -n < r <= 0
  {
    a - Div(a, n) * n
  }
}
