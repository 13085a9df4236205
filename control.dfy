/** How a kernel step ends: it carries on, or it stops the machine for good
    (`c_panic`, a failed `my_assert!`, or a Rust index panic). */
module Control {

  datatype HaltReason =
    | Panic(message: string)
      /** `my_assert!` failed; the text handed to `c_panic` is what
          AssertMessage.MessageBuffer.MyAssertMessage builds from these three,
          with `itoa` as written. */
    | AssertionFailed(file: string, line: nat, condition: string)
      /** An array index out of bounds (a Rust panic). */
    | IndexOutOfBounds

  datatype Outcome = Continue | Halted(reason: HaltReason)
}
