/** Definitions shared by every benchmark of the suite: the three-valued
    verification outcome that each benchmark reports, an optional value for
    environment settings that may be absent, and the limits of C's `int`. */
module Bots {

  /** The verification outcome of a benchmark run
      (BOTS_RESULT_SUCCESSFUL, BOTS_RESULT_UNSUCCESSFUL, BOTS_RESULT_NA). */
  datatype Outcome = Successful | Unsuccessful | NotApplicable

  datatype Option<+T> = None | Some(value: T)

  /** The check that ends the knapsack (`knapsack_check`) and connected
      components (`cc_check`) benchmarks, and each branch of `fib_verify`:
      success exactly when the two results agree, never not-applicable. */
  function Check(expected: int, actual: int): (r: Outcome)
    ensures r != NotApplicable
    ensures r == Successful <==> expected == actual
  {
    if expected == actual then Successful else Unsuccessful
  }

  /** INT_MIN and INT_MAX of a 32-bit C `int`. */
  const IntMin: int := -0x8000_0000
  const IntMax: int := 0x7FFF_FFFF

  /** LLONG_MAX of a 64-bit C `long long`. */
  const LLongMax: int := 0x7FFF_FFFF_FFFF_FFFF
}
