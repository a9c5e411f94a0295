/**
 * Types shared by every harness model: machine integers, the outcome a harness
 * reports to the fuzzer, and the fuzzer state's execution counter.
 */
module Common {

  /** An unsigned 8-bit value (`u8` in Rust, `uint8_t` in C). */
  newtype u8 = x: int | 0 <= x < 0x100

  /** An unsigned 32-bit value (`uint32_t` in C, a guest register on the 32-bit ARM target). */
  newtype u32 = x: int | 0 <= x < 0x1_0000_0000

  /** The ASCII code of a character literal such as `b'M'`. */
  function Byte(c: char): (b: u8)
    requires c as int < 0x100
    ensures b as int == c as int
  {
    c as int as u8
  }

  /** What one execution of a target reports to the fuzzer (LibAFL's `ExitKind`). */
  datatype ExitKind = Ok | Crash | Timeout

  datatype Option<T> = None | Some(value: T)

  /** The `Result<_, libafl::Error>` an executor's `run_target` returns. */
  datatype Result<T> = Success(value: T) | Failure(error: string)

  function Min(a: nat, b: nat): (m: nat)
    ensures m <= a && m <= b && (m == a || m == b)
  {
    if a <= b then a else b
  }

  /**
   * The part of LibAFL's `StdState` that the custom executors touch: the
   * number of executions performed so far.
   */
  class FuzzerState {
    var executions: nat

    constructor ()
      ensures executions == 0
    {
      executions := 0;
    }

    /** `*state.executions_mut() += 1` */
    method CountExecution()
      modifies this
      ensures executions == old(executions) + 1
    {
      executions := executions + 1;
    }
  }
}
