/** The parts of Java and Kotlin semantics the state-set code relies on:
    nullable references, exceptions, and 32-bit two's-complement ints. */
module Jvm {

  /** A nullable reference: `None` is Java's `null`. */
  datatype Option<+T> = None | Some(value: T)

  /** The run-time exceptions the modelled code can throw. */
  datatype JavaException =
    | IllegalArgument(message: string)
    | ArrayIndexOutOfBounds

  /** A value, or the exception a call throws instead. */
  datatype Result<+T> = Ok(value: T) | Throws(exception: JavaException)

  const MIN_INT: int := -0x8000_0000
  const MAX_INT: int := 0x7fff_ffff
  const TWO_TO_32: int := 0x1_0000_0000

  /** Java's and Kotlin's `int`. */
  type Int32 = x: int | MIN_INT <= x <= MAX_INT

  /** Unary minus on `int`: two's complement, so `-MIN_VALUE == MIN_VALUE`. */
  function Neg(x: Int32): (r: Int32)
    ensures (r + x) % TWO_TO_32 == 0
    ensures x != MIN_INT ==> r == -x
  {
    if x == MIN_INT then MIN_INT else -x
  }

  /** Kotlin's `Int.inv()`: bitwise complement, which on two's complement is `-x - 1`. */
  function Inv(x: Int32): (r: Int32)
    ensures r != x
    ensures (x < 0) != (r < 0)
  {
    -(x as int) - 1
  }

  /** Negating twice gives the value back, `MIN_VALUE` included. */
  lemma NegInvolution(x: Int32)
    ensures Neg(Neg(x)) == x
  {
  }

  /** Negation differs from complement by exactly one except at `MIN_VALUE`,
      so a negated value is never its complement. */
  lemma NegIsNotInv(x: Int32)
    ensures Neg(x) != Inv(x)
  {
  }
}
