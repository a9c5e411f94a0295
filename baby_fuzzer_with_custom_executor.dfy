/**
 * baby_fuzzer_with_custom_executor: the target lives inside a hand-written
 * executor whose `run_target` counts the execution, walks the input along
 * "MATT" over an 8-byte signal map and returns `Ok(ExitKind::Crash)` at the
 * end of the word.
 */
module BabyFuzzerWithCustomExecutor {
  import opened Common
  import opened Coverage
  import opened Chains

  /** `SIGNALS: [u8; 8]` */
  const SignalsLen: nat := 8

  const Word: seq<u8> := [Byte('M'), Byte('A'), Byte('T'), Byte('T')]

  /** The last map cell with a mark site (`mark_map(3)`). */
  const Top: nat := 3

  /**
   * `CustomExecutor::run_target`. The `println!` of the crashing input is
   * output only. The executor never produces an `Err`.
   */
  method RunTarget(state: FuzzerState, signals: array<u8>, buff: seq<u8>) returns (r: Result<ExitKind>)
    requires signals.Length == SignalsLen
    modifies state, signals
    ensures state.executions == old(state.executions) + 1
    ensures forall i :: 0 <= i < SignalsLen ==>
              signals[i] == if i < Cells(buff, WordChain(Word), Top) then 1 else old(signals[i])
    ensures r == Success(Outcome(buff, WordChain(Word)))
  {
    state.CountExecution();
    ghost var chain := WordChain(Word);
    Mark(signals, 0);
    DepthNext(buff, chain, 0);
    if |buff| > 0 && buff[0] == Byte('M') {
      Mark(signals, 1);
      DepthNext(buff, chain, 1);
      if |buff| > 1 && buff[1] == Byte('A') {
        Mark(signals, 2);
        DepthNext(buff, chain, 2);
        if |buff| > 2 && buff[2] == Byte('T') {
          Mark(signals, 3);
          DepthNext(buff, chain, 3);
          if |buff| > 3 && buff[3] == Byte('T') {
            return Success(Crash);
          }
        }
      }
    }
    r := Success(Ok);
  }

  /**
   * What `RunTarget` means: cell k is marked exactly when k <= 3 and the
   * input begins with the first k letters of "MATT", and the executor
   * reports `Crash` exactly on inputs that begin with "MATT".
   */
  lemma RunTargetMeaning(buff: seq<u8>, k: nat)
    ensures k < Cells(buff, WordChain(Word), Top) <==> k <= Top && HasPrefix(buff, Word[..k])
    ensures Outcome(buff, WordChain(Word)) == Crash <==> HasPrefix(buff, Word)
  {
    WordCells(buff, Word, Top, k);
    WordOutcome(buff, Word);
  }

  /**
   * Running one input twice gives the same outcome both times and leaves the
   * same map as running it once, since marking is idempotent; only the
   * execution counter tells the two apart.
   */
  method RunTwice(state: FuzzerState, signals: array<u8>, buff: seq<u8>) returns (first: Result<ExitKind>, second: Result<ExitKind>)
    requires signals.Length == SignalsLen
    modifies state, signals
    ensures first == second
    ensures forall i :: 0 <= i < SignalsLen ==>
              signals[i] == if i < Cells(buff, WordChain(Word), Top) then 1 else old(signals[i])
    ensures state.executions == old(state.executions) + 2
  {
    first := RunTarget(state, signals, buff);
    second := RunTarget(state, signals, buff);
  }
}
