/**
 * Shared vocabulary of the model: the value ranges of the Java primitives the
 * programs use, and the Java exceptions they throw, represented as values.
 */
module Common {
  /** A Java `char`: an unsigned 16-bit UTF-16 code unit. */
  type Char16 = c: int | 0 <= c < 0x1_0000

  /** An unsigned byte, as read and written by the binary standard-stream library. */
  type Byte = b: int | 0 <= b < 0x100

  /** "ABRACADABRA!", the message of the coding examples and tests. */
  const ABRACADABRA: seq<Char16> := [0x41, 0x42, 0x52, 0x41, 0x43, 0x41, 0x44, 0x41, 0x42, 0x52, 0x41, 0x21]

  /** The Java exceptions thrown by the modelled code. */
  datatype Exception =
    | IllegalArgument       // java.lang.IllegalArgumentException
    | NoSuchElement         // java.util.NoSuchElementException
    | IndexOutOfBounds      // array or string index out of bounds
    | NullPointer           // java.lang.NullPointerException
    | UnsupportedOperation  // java.lang.UnsupportedOperationException
    | StackOverflow         // java.lang.StackOverflowError, raised by unbounded recursion

  /** A Java reference that may be null (or, for `equals`, an object of another class). */
  datatype Option<+T> = None | Some(value: T)

  /** A call that either returns a value or throws. */
  datatype Result<+T> = Ok(value: T) | Err(error: Exception)

  /**
   * `a * b` as `a` additions of `b`. The value is the product; written this
   * way, each step of it is linear arithmetic for the verifier.
   */
  function Mul(a: nat, b: int): int
    decreases a
  {
    if a == 0 then 0 else Mul(a - 1, b) + b
  }

  lemma {:induction false} MulIsProduct(a: nat, b: int)
    ensures Mul(a, b) == a * b
    decreases a
  {
    if a > 0 {
      MulIsProduct(a - 1, b);
    }
  }
}
