/**
 * The coverage map every harness writes: a fixed-size byte array whose cells
 * go from 0 to 1 when the instrumented branch is taken.
 */
module Coverage {
  import opened Common

  /** A map of `n` zero bytes. */
  function Zeros(n: nat): (r: seq<u8>)
    ensures |r| == n && forall i :: 0 <= i < n ==> r[i] == 0
  {
    seq(n, _ => 0)
  }

  /**
   * `mark_signal` / `mark_mp` / `mark_map`: write 1 at `idx` through the map
   * pointer. An index outside the map would be a write outside the static
   * array, so the callers must stay inside it.
   */
  method Mark(signals: array<u8>, idx: nat)
    requires idx < signals.Length
    modifies signals
    ensures signals[idx] == 1
    ensures forall i :: 0 <= i < signals.Length && i != idx ==> signals[i] == old(signals[i])
  {
    signals[idx] := 1;
  }

  /** The zeroing loop of the C harnesses' `init` and `create_shmem_array`. */
  method Clear(signals: array<u8>)
    modifies signals
    ensures signals[..] == Zeros(signals.Length)
  {
    for i := 0 to signals.Length
      invariant forall k :: 0 <= k < i ==> signals[k] == 0
    {
      signals[i] := 0;
    }
  }
}
