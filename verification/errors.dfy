/** Failure values for the cipher engine.

    Every exception the Java engine can raise on its own code paths becomes an
    `Err` carrying one of the `Error` kinds below, so that callers see the
    failure instead of a crash.
 */
module Errors {

  /** The distinct ways an engine operation can fail. */
  datatype Error =
    | IndexOutOfRange     // Alphabet.toChar: "character index out of range"
    | NotInAlphabet       // Alphabet.toInt: "character not in alphabet"
    | DivisionByZero      // `% size()` on an empty alphabet (ArithmeticException)
    | NullRotor           // a slot that was never bound is used (NullPointerException)
    | NullPlugboard       // the plugboard is used before it was set (NullPointerException)
    | SlotIndexOutOfRange // an index outside the slot array or the name array
    | SettingTooShort     // setting.charAt past its end (StringIndexOutOfBoundsException)
    | NegativeSlotCount   // `new Rotor[numRotors]` with numRotors < 0

  /** The outcome of an operation that may fail; usable with `:-`. */
  datatype Result<+T> = Ok(value: T) | Err(error: Error) {

    predicate IsFailure() {
      Err?
    }

    function PropagateFailure<U>(): Result<U>
      requires Err?
    {
      Err(error)
    }

    function Extract(): T
      requires Ok?
    {
      value
    }
  }

  /** An optional value; `None` stands for a Java `null` reference. */
  datatype Option<+T> = None | Some(value: T)
}
