/** Option and Result values standing in for Java's null and for the exceptions the export code throws. */
module Wrappers {

  datatype Option<+T> = None | Some(value: T)

  /** The exceptions the modelled code throws or lets through, by kind. */
  datatype Error =
    | IllegalArgument     // IllegalArgumentException raised by a guard of the code
    | Arithmetic          // ArithmeticException: Java integer division by zero
    | NegativeArraySize   // NegativeArraySizeException from `new T[n][m]` with n or m negative
    | NullPointer         // NullPointerException from dereferencing a null element
    | IndexOutOfBounds    // reading or storing past the end of an array
    | MalformedURL        // MalformedURLException from java.net.URL
    | Interrupted         // InterruptedException
    | InterruptedIO       // InterruptedIOException
    | Failed              // any other exception of a retrieval or decoding collaborator

  datatype Result<+T> = Ok(value: T) | Err(error: Error)

  /** Java's `a / b` on int: the quotient truncated toward zero. */
  function JavaDiv(a: int, b: int): (q: int)
    requires b != 0
    ensures b > 0 && a >= 0 ==> q == a / b
    ensures Abs(q) == Abs(a) / Abs(b)
    ensures q < 0 ==> (a < 0) != (b < 0)
  {
    var x, y := Abs(a), Abs(b);
    DivNonNegative(x, y);
    var m := x / y;
    if (a < 0) == (b < 0) then m else -m
  }

  lemma DivNonNegative(x: nat, y: nat)
    requires y > 0
    ensures x / y >= 0
  {
  }

  function Abs(a: int): nat { if a < 0 then -a else a }

  /** Java's `(int) x` for a double x in range: truncation toward zero. */
  function TruncToInt(x: real): (n: int)
    ensures x >= 0.0 ==> n as real <= x < n as real + 1.0
    ensures x < 0.0 ==> n as real - 1.0 < x <= n as real
  {
    if x >= 0.0 then x.Floor else -((-x).Floor)
  }

  const IntMax := 0x7fff_ffff
  const IntMin := -0x8000_0000

  /**
   * Java's `(int) x` for a finite double x: truncation toward zero, saturating at the bounds of int
   * (section 5.1.3 of the Java Language Specification).
   */
  function CastToInt(x: real): (n: int)
    ensures IntMin <= n <= IntMax
    ensures x >= 0.0 ==> 0 <= n && n as real <= x
    ensures 0.0 <= x <= IntMax as real ==> x < n as real + 1.0
    ensures x >= IntMax as real ==> n == IntMax
  {
    if x >= IntMax as real then IntMax
    else if x <= IntMin as real then IntMin
    else TruncToInt(x)
  }

  /** Java int arithmetic: the two's-complement 32-bit value congruent to x modulo 2^32. */
  function Wrap32(x: int): (n: int)
    ensures IntMin <= n <= IntMax
    ensures IntMin <= x <= IntMax ==> n == x
    ensures (x - n) % 0x1_0000_0000 == 0
  {
    var m := x % 0x1_0000_0000;
    if m > IntMax then m - 0x1_0000_0000 else m
  }
}
