/**
 * baby_fuzzer_with_minimizer: an in-process harness over a 16-byte signal
 * map that reports a crash on "MAT". The same closure is the predicate of
 * the test-case minimisation pass that follows the fuzzing loop, so the
 * lemmas below say which reductions of a crashing input keep it crashing.
 */
module BabyFuzzerWithMinimizer {
  import opened Common
  import opened Coverage
  import opened Chains

  /** `SIGNALS: [u8; 16]`, whose length is `SIGNALS_LEN` */
  const SignalsLen: nat := 16

  const Word: seq<u8> := [Byte('M'), Byte('A'), Byte('T')]

  /** The last map cell with a mark site (`mark_mp(2)`). */
  const Top: nat := 2

  /**
   * The harness closure: marks cells 0..2 along "MA" and returns
   * `ExitKind::Crash` on a third byte 'T' without marking a third cell.
   */
  method Harness(signals: array<u8>, buff: seq<u8>) returns (r: ExitKind)
    requires signals.Length == SignalsLen
    modifies signals
    ensures forall i :: 0 <= i < SignalsLen ==>
              signals[i] == if i < Cells(buff, WordChain(Word), Top) then 1 else old(signals[i])
    ensures r == Outcome(buff, WordChain(Word))
  {
    ghost var chain := WordChain(Word);
    r := Ok;
    Mark(signals, 0);
    DepthNext(buff, chain, 0);
    if |buff| > 0 && buff[0] == Byte('M') {
      Mark(signals, 1);
      DepthNext(buff, chain, 1);
      if |buff| > 1 && buff[1] == Byte('A') {
        Mark(signals, 2);
        DepthNext(buff, chain, 2);
        if |buff| > 2 && buff[2] == Byte('T') {
          r := Crash;
        }
      }
    }
  }

  /**
   * What `Harness` means: cell k is marked exactly when k <= 2 and the input
   * begins with the first k letters of "MAT" (cells 3..15 are never
   * touched; cell 1 needs only an 'M' in front), and the verdict is `Crash`
   * exactly on inputs that begin with "MAT".
   */
  lemma HarnessMeaning(buff: seq<u8>, k: nat)
    ensures k < Cells(buff, WordChain(Word), Top) <==> k <= Top && HasPrefix(buff, Word[..k])
    ensures 1 < Cells(buff, WordChain(Word), Top) <==> |buff| > 0 && buff[0] == Byte('M')
    ensures Outcome(buff, WordChain(Word)) == Crash <==> HasPrefix(buff, Word)
  {
    WordCells(buff, Word, Top, 1);
    assert Word[..1] == [Byte('M')];
    WordCells(buff, Word, Top, k);
    WordOutcome(buff, Word);
  }

  /**
   * The crash predicate and the coverage only look at the first three bytes:
   * deleting any block that starts at or after position 3 keeps both, which
   * is what lets the minimiser cut the tail of a crashing input.
   */
  lemma DeleteTailKeepsCrash(buff: seq<u8>, i: nat, j: nat)
    requires 3 <= i <= j <= |buff|
    ensures Outcome(buff[..i] + buff[j..], WordChain(Word)) == Outcome(buff, WordChain(Word))
    ensures Cells(buff[..i] + buff[j..], WordChain(Word), Top) == Cells(buff, WordChain(Word), Top)
  {
  }

  /**
   * Every crashing input has at least three bytes, and "MAT" itself crashes,
   * so "MAT" is a shortest crashing input, and the only one of its length.
   */
  lemma ShortestCrash(buff: seq<u8>)
    ensures Outcome(Word, WordChain(Word)) == Crash
    ensures Outcome(buff, WordChain(Word)) == Crash ==> |buff| >= |Word|
    ensures Outcome(buff, WordChain(Word)) == Crash && |buff| == |Word| ==> buff == Word
  {
    WordOutcome(buff, Word);
    WordOutcome(Word, Word);
    assert Word[..|Word|] == Word;
    assert buff[..|buff|] == buff;
  }
}
