/**
 * The shape shared by every harness of the repository: a chain of nested
 * `if`s, each comparing one input byte with a constant. Cell 0 is always
 * marked; passing comparison k marks cell k+1 only while k+1 <= top (the
 * last cell with a mark site), and passing all of them is the objective (a
 * crash). In most harnesses the last comparison marks no cell. A `Check` is
 * one comparison; `Depth` is how far into the chain an input gets.
 */
module Chains {
  import opened Common

  /** One nested comparison: is input byte `pos` equal to `want`? */
  datatype Check = Check(pos: nat, want: u8)

  /** A check passes when its byte exists and has the wanted value. */
  predicate Passes(buf: seq<u8>, c: Check) {
    c.pos < |buf| && buf[c.pos] == c.want
  }

  /**
   * The number of leading checks of `chain` that `buf` passes: the checks
   * before it all pass and the one at it (if any) fails.
   */
  function Depth(buf: seq<u8>, chain: seq<Check>): (d: nat)
    ensures d <= |chain|
    ensures forall k :: 0 <= k < d ==> Passes(buf, chain[k])
    ensures d < |chain| ==> !Passes(buf, chain[d])
  {
    if chain == [] || !Passes(buf, chain[0]) then 0
    else 1 + Depth(buf, chain[1..])
  }

  /**
   * One step of a harness's nested `if`s: having passed the first k checks,
   * the input goes deeper exactly when it passes check k.
   */
  lemma DepthNext(buf: seq<u8>, chain: seq<Check>, k: nat)
    requires k < |chain| && k <= Depth(buf, chain)
    ensures Passes(buf, chain[k]) ==> k + 1 <= Depth(buf, chain)
    ensures !Passes(buf, chain[k]) ==> Depth(buf, chain) == k
  {
  }

  /** An input gets at least k checks deep exactly when it passes the first k. */
  lemma DepthAtLeast(buf: seq<u8>, chain: seq<Check>, k: nat)
    requires k <= |chain|
    ensures k <= Depth(buf, chain) <==> forall j :: 0 <= j < k ==> Passes(buf, chain[j])
  {
  }

  /**
   * The number of coverage cells a run marks when the harness has mark
   * sites for cells 0 .. top: cell 0 unconditionally, cell k once k checks
   * have passed.
   */
  function Cells(buf: seq<u8>, chain: seq<Check>, top: nat): (n: nat)
    ensures 1 <= n <= top + 1
    ensures n - 1 <= Depth(buf, chain)
  {
    Min(Depth(buf, chain), top) + 1
  }

  /** The harness reports the objective exactly when the whole chain passes. */
  function Outcome(buf: seq<u8>, chain: seq<Check>): (r: ExitKind)
    ensures r == Crash <==> forall k :: 0 <= k < |chain| ==> Passes(buf, chain[k])
    ensures r != Timeout
  {
    if Depth(buf, chain) == |chain| then Crash else Ok
  }

  /**
   * Every byte the chain compares on the way to its exit is inside the
   * buffer: what a harness that reads without length guards demands.
   */
  predicate Readable(buf: seq<u8>, chain: seq<Check>) {
    forall k :: 0 <= k < |chain| && k <= Depth(buf, chain) ==> chain[k].pos < |buf|
  }

  /** The chain of the guarded Rust harnesses: byte i must equal `word[i]`. */
  function WordChain(word: seq<u8>): (chain: seq<Check>)
    ensures |chain| == |word|
    ensures forall i :: 0 <= i < |word| ==> chain[i] == Check(i, word[i])
  {
    seq(|word|, i requires 0 <= i < |word| => Check(i, word[i]))
  }

  predicate HasPrefix(buf: seq<u8>, p: seq<u8>) {
    |p| <= |buf| && buf[..|p|] == p
  }

  /** Against a word, the depth is the length of the common prefix. */
  lemma {:induction false} WordDepth(buf: seq<u8>, word: seq<u8>, k: nat)
    requires k <= |word|
    ensures k <= Depth(buf, WordChain(word)) <==> HasPrefix(buf, word[..k])
  {
    var chain := WordChain(word);
    var d := Depth(buf, chain);
    if k <= d {
      if k > 0 {
        assert Passes(buf, chain[k - 1]);
      }
      forall i | 0 <= i < k
        ensures buf[i] == word[i]
      {
        assert Passes(buf, chain[i]);
      }
      assert buf[..k] == word[..k];
    } else {
      assert !Passes(buf, chain[d]);
      if k <= |buf| {
        assert buf[..k][d] != word[..k][d];
      }
    }
  }

  /** So a harness built on a word crashes exactly on inputs that begin with the word. */
  lemma WordOutcome(buf: seq<u8>, word: seq<u8>)
    ensures Outcome(buf, WordChain(word)) == Crash <==> HasPrefix(buf, word)
  {
    WordDepth(buf, word, |word|);
    assert word[..|word|] == word;
  }

  /**
   * And, for a word of at least top + 1 letters, map cell k is among the
   * `Cells` a run marks exactly when k <= top and the input begins with the
   * first k letters of the word.
   */
  lemma WordCells(buf: seq<u8>, word: seq<u8>, top: nat, k: nat)
    requires top < |word|
    ensures k < Cells(buf, WordChain(word), top) <==> k <= top && HasPrefix(buf, word[..k])
  {
    if k <= top {
      WordDepth(buf, word, k);
    }
  }
}
