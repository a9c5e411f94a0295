/**
 * test_Fuzzer: a custom executor like the previous one, with a seven-step
 * chain along "MATTHEW" over an 8-byte signal map.
 */
module TestFuzzer {
  import opened Common
  import opened Coverage
  import opened Chains

  /** `SIGNALS: [u8; 8]` */
  const SignalsLen: nat := 8

  const Word: seq<u8> := [Byte('M'), Byte('A'), Byte('T'), Byte('T'), Byte('H'), Byte('E'), Byte('W')]

  /** The last map cell with a mark site (`mark_signal(6)`). */
  const Top: nat := 6

  /**
   * `CustomExecutor::run_target`: counts the execution, marks cell k once
   * the input begins with the first k letters of "MATTHE", and returns
   * `Ok(ExitKind::Crash)` on "MATTHEW". Every read of `buff[k]` sits behind
   * `buff.len() > k`, which is why the method needs no requirement on the
   * input.
   */
  method RunTarget(state: FuzzerState, signals: array<u8>, buff: seq<u8>) returns (r: Result<ExitKind>)
    requires signals.Length == SignalsLen
    modifies state, signals
    ensures state.executions == old(state.executions) + 1
    ensures forall i :: 0 <= i < SignalsLen ==>
              signals[i] == if i < Cells(buff, WordChain(Word), Top) then 1 else old(signals[i])
    ensures r == Success(Outcome(buff, WordChain(Word)))
  {
    state.CountExecution();
    ghost var chain := WordChain(Word);
    Mark(signals, 0);
    DepthNext(buff, chain, 0);
    if |buff| > 0 && buff[0] == Byte('M') {
      Mark(signals, 1);
      DepthNext(buff, chain, 1);
      if |buff| > 1 && buff[1] == Byte('A') {
        Mark(signals, 2);
        DepthNext(buff, chain, 2);
        if |buff| > 2 && buff[2] == Byte('T') {
          Mark(signals, 3);
          DepthNext(buff, chain, 3);
          if |buff| > 3 && buff[3] == Byte('T') {
            Mark(signals, 4);
            DepthNext(buff, chain, 4);
            if |buff| > 4 && buff[4] == Byte('H') {
              Mark(signals, 5);
              DepthNext(buff, chain, 5);
              if |buff| > 5 && buff[5] == Byte('E') {
                Mark(signals, 6);
                DepthNext(buff, chain, 6);
                if |buff| > 6 && buff[6] == Byte('W') {
                  return Success(Crash);
                }
              }
            }
          }
        }
      }
    }
    r := Success(Ok);
  }

  /**
   * What `RunTarget` means: cell k is marked exactly when k <= 6 and the
   * input begins with the first k letters of "MATTHEW" (cell 7 is never
   * written), and the executor reports `Crash` exactly on inputs that begin
   * with the whole word.
   */
  lemma RunTargetMeaning(buff: seq<u8>, k: nat)
    ensures k < Cells(buff, WordChain(Word), Top) <==> k <= Top && HasPrefix(buff, Word[..k])
    ensures Outcome(buff, WordChain(Word)) == Crash <==> HasPrefix(buff, Word)
  {
    WordCells(buff, Word, Top, k);
    WordOutcome(buff, Word);
  }
}
