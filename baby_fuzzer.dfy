/**
 * baby_fuzzer: an in-process harness over an 8-byte signal map that walks
 * the input along "MATT" and panics when it gets to the end.
 */
module BabyFuzzer {
  import opened Common
  import opened Coverage
  import opened Chains

  /** `SIGNALS: [u8; 8]` */
  const SignalsLen: nat := 8

  /** The input the harness hunts for. */
  const Word: seq<u8> := [Byte('M'), Byte('A'), Byte('T'), Byte('T')]

  /** The last map cell with a mark site (`mark_signal(3)`). */
  const Top: nat := 3

  /**
   * The harness closure. `panic!("Found the objective")` unwinds out of the
   * closure and the in-process executor reports it as a crash, so the model
   * returns `Crash` there. The map is not reset by the harness: cells it does
   * not mark keep whatever they held. The `DepthNext` steps tell the
   * verifier how far along the chain each nested branch is.
   */
  method Harness(signals: array<u8>, buf: seq<u8>) returns (r: ExitKind)
    requires signals.Length == SignalsLen
    modifies signals
    ensures forall i :: 0 <= i < SignalsLen ==>
              signals[i] == if i < Cells(buf, WordChain(Word), Top) then 1 else old(signals[i])
    ensures r == Outcome(buf, WordChain(Word))
  {
    ghost var chain := WordChain(Word);
    r := Ok;
    Mark(signals, 0);
    DepthNext(buf, chain, 0);
    if |buf| > 0 && buf[0] == Byte('M') {
      Mark(signals, 1);
      DepthNext(buf, chain, 1);
      if |buf| > 1 && buf[1] == Byte('A') {
        Mark(signals, 2);
        DepthNext(buf, chain, 2);
        if |buf| > 2 && buf[2] == Byte('T') {
          Mark(signals, 3);
          DepthNext(buf, chain, 3);
          if |buf| > 3 && buf[3] == Byte('T') {
            r := Crash;
          }
        }
      }
    }
  }

  /**
   * What `Harness` means for the map and the verdict: cell k is marked
   * exactly when k <= 3 and the input begins with the first k letters of
   * "MATT" (so cell 0 always, cells 4..7 never), and the closure panics
   * exactly on inputs that begin with "MATT". The empty input marks cell 0
   * only.
   */
  lemma HarnessMeaning(buf: seq<u8>, k: nat)
    ensures k < Cells(buf, WordChain(Word), Top) <==> k <= Top && HasPrefix(buf, Word[..k])
    ensures Outcome(buf, WordChain(Word)) == Crash <==> HasPrefix(buf, Word)
    ensures Cells([], WordChain(Word), Top) == 1
  {
    assert !Passes([], WordChain(Word)[0]);
    WordCells(buf, Word, Top, k);
    WordOutcome(buf, Word);
  }
}
