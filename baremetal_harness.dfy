/**
 * The bare-metal target run under QEMU: `LLVMFuzzerTestOneInput` over an
 * array of 32-bit words. A zero in word 3 makes it spin forever (the timeout
 * the fuzzer is meant to find); otherwise it sorts the first `size` words
 * into non-increasing order with an exchange sort, and then either tells
 * QEMU that the run ended (sync-exit build) or spins inside `BREAKPOINT`
 * until the emulator stops it (breakpoint build).
 */
module BaremetalHarness {
  import opened Common

  /**
   * How a call ends. None of them is a normal return: `TimeoutLoop` is the
   * `while (1)` of the timeout trigger, `Breakpoint` the `for (;;)` inside
   * `BREAKPOINT`, `EndOk` the `libafl_qemu_end(LIBAFL_QEMU_END_OK)` exit.
   */
  datatype Finish = TimeoutLoop | Breakpoint | EndOk

  /** Every word is at least as large as every word after it. */
  predicate NonIncreasing(s: seq<u32>) {
    forall k, m :: 0 <= k < m < |s| ==> s[k] >= s[m]
  }

  /**
   * The two tests of the inner loop: skip a zero word, exchange when the
   * word is larger than the one at `i`. Skipping zero changes nothing,
   * since an unsigned zero is never larger than anything.
   */
  function Exchanges(x: u32, pivot: u32): (b: bool)
    ensures b <==> x > pivot
  {
    if x == 0 then false else x > pivot
  }

  /** The three-assignment swap through `tmp`. */
  method Swap(data: array<u32>, i: nat, j: nat)
    requires i < data.Length && j < data.Length
    modifies data
    ensures data[i] == old(data[j]) && data[j] == old(data[i])
    ensures forall k :: 0 <= k < data.Length && k != i && k != j ==> data[k] == old(data[k])
    ensures multiset(data[..]) == multiset(old(data[..]))
  {
    var tmp := data[i];
    data[i] := data[j];
    data[j] := tmp;
    assert data[..] == old(data[..])[i := old(data[j])][j := old(data[i])];
  }

  /**
   * One pass of the inner loop for position `i`: afterwards no word in
   * `data[i+1..n)` is larger than `data[i]`. Only words in `data[i..n)` are
   * exchanged, so an upper `bound` on those words still holds afterwards (the
   * outer loop uses this for the positions it has already settled).
   * After an exchange, a new word at `i` that is at most 100 makes the loop
   * look at the same `j` once more (`j--` then `++j`); that second look never
   * exchanges, because the word now at `j` is smaller than the one at `i`. The
   * ghost `recheck` carries this fact and pays for termination.
   */
  method PlaceMax(data: array<u32>, n: nat, i: nat, ghost bound: u32)
    requires i < n <= data.Length
    requires forall m :: i <= m < n ==> data[m] <= bound
    modifies data
    ensures forall m :: i < m < n ==> data[m] <= data[i]
    ensures forall m :: i <= m < n ==> data[m] <= bound
    ensures forall k :: 0 <= k < data.Length && !(i <= k < n) ==> data[k] == old(data[k])
    ensures multiset(data[..]) == multiset(old(data[..]))
  {
    var j := i + 1;
    ghost var recheck := false;
    while j < n
      invariant i + 1 <= j <= n
      invariant recheck ==> j < n && data[j] < data[i]
      invariant forall m :: i < m < j ==> data[m] <= data[i]
      invariant forall m :: i <= m < n ==> data[m] <= bound
      invariant forall k :: 0 <= k < data.Length && !(i <= k < n) ==> data[k] == old(data[k])
      invariant multiset(data[..]) == multiset(old(data[..]))
      decreases 2 * (n - j) + (if recheck then 0 else 1)
    {
      recheck := false;
      if Exchanges(data[j], data[i]) {
        Swap(data, i, j);
        if data[i] <= 100 {
          j := j - 1;
          recheck := true;
        }
      }
      j := j + 1;
    }
  }

  /**
   * `LLVMFuzzerTestOneInput`. Word 3 is read whatever `size` is, so the
   * array must hold at least four words, and at least `size` of them. The
   * `libafl_qemu_start_phys` call of the sync-exit build only tells the
   * emulator where the input lies and is not modelled.
   */
  method TestOneInput(data: array<u32>, size: u32, syncExit: bool) returns (f: Finish)
    requires 4 <= data.Length && size as int <= data.Length
    modifies data
    ensures f == TimeoutLoop <==> old(data[3]) == 0
    ensures f == TimeoutLoop ==> data[..] == old(data[..])
    ensures f != TimeoutLoop ==> f == (if syncExit then EndOk else Breakpoint)
    ensures f != TimeoutLoop ==> NonIncreasing(data[..size])
    ensures multiset(data[..size]) == multiset(old(data[..size]))
    ensures data[size..] == old(data[size..])
  {
    if data[3] == 0 {
      return TimeoutLoop;
    }
    ghost var orig := data[..];
    var n := size as int;
    for i := 0 to n
      invariant multiset(data[..]) == multiset(orig)
      invariant forall k :: n <= k < data.Length ==> data[k] == orig[k]
      invariant forall k, m :: 0 <= k < i && k < m < n ==> data[k] >= data[m]
    {
      ghost var bound: u32 := if i == 0 then 0xFFFF_FFFF else data[i - 1];
      PlaceMax(data, n, i, bound);
    }
    PrefixMultiset(data[..], orig, n);
    f := if syncExit then EndOk else Breakpoint;
  }

  /** Two sequences with the same multiset and the same tail have the same multiset before it. */
  lemma PrefixMultiset(a: seq<u32>, b: seq<u32>, n: nat)
    requires n <= |a| == |b|
    requires multiset(a) == multiset(b)
    requires forall k :: n <= k < |a| ==> a[k] == b[k]
    ensures multiset(a[..n]) == multiset(b[..n]) && a[n..] == b[n..]
  {
    assert a[n..] == b[n..];
    assert a == a[..n] + a[n..];
    assert b == b[..n] + b[n..];
    assert multiset(a[..n]) == multiset(a) - multiset(a[n..]);
    assert multiset(b[..n]) == multiset(b) - multiset(b[n..]);
  }

  /**
   * A non-increasing arrangement of a multiset is unique, so the words the
   * sort leaves in `data[..size]` are determined by the input's multiset
   * alone: however the exchanges and re-checks interleave, the result is
   * the same.
   */
  lemma {:induction false} NonIncreasingUnique(a: seq<u32>, b: seq<u32>)
    requires NonIncreasing(a) && NonIncreasing(b)
    requires multiset(a) == multiset(b)
    ensures a == b
  {
    assert |a| == |multiset(a)| == |multiset(b)| == |b|;
    if a != [] {
      HeadIsLargest(b, a[0]);
      HeadIsLargest(a, b[0]);
      assert a[0] == b[0];
      assert a == [a[0]] + a[1..];
      assert b == [b[0]] + b[1..];
      assert multiset(a[1..]) == multiset(a) - multiset([a[0]]);
      assert multiset(b[1..]) == multiset(b) - multiset([b[0]]);
      NonIncreasingUnique(a[1..], b[1..]);
    }
  }

  /** The first word of a non-increasing sequence is at least any word in it. */
  lemma HeadIsLargest(s: seq<u32>, x: u32)
    requires NonIncreasing(s) && x in multiset(s)
    ensures x <= s[0]
  {
  }
}
