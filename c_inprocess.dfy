/**
 * The C target of fuzzing_c_code_inprocess_executor: a global 100-byte map,
 * its initialisation, its mark helper and a harness whose chain checks
 * bytes 0, 1, 3 and 4 (byte 2 is skipped) and calls `abort()` at the end.
 */
module CInprocess {
  import opened Common
  import opened Coverage
  import opened Chains

  /** `MAP_SIZE` */
  const MapSize: nat := 100

  /** The comparisons of `c_harness`, in nesting order. */
  const Chain: seq<Check> := [Check(0, Byte('m')), Check(1, Byte('a')), Check(3, Byte('t')), Check(4, Byte('t'))]

  /** The last map cell with a mark site (`mark_mp(3)`). */
  const Top: nat := 3

  /** `init`: zeroes the whole map and reports success. */
  method Init(mp: array<u8>) returns (r: int)
    requires mp.Length == MapSize
    modifies mp
    ensures r == 0
    ensures mp[..] == Zeros(MapSize)
  {
    Clear(mp);
    r := 0;
  }

  /**
   * `mark_mp`: the index is a `uint8_t`, so values 100..255 exist; the map
   * has only 100 cells, so callers must stay below `MAP_SIZE`.
   */
  method MarkMp(mp: array<u8>, idx: u8) returns (r: int)
    requires mp.Length == MapSize && (idx as int) < MapSize
    modifies mp
    ensures r == 0
    ensures mp[idx] == 1
    ensures forall i :: 0 <= i < MapSize && i != idx as int ==> mp[i] == old(mp[i])
  {
    Mark(mp, idx as nat);
    r := 0;
  }

  /**
   * `c_harness`. None of its reads is guarded by a length, so the caller
   * must supply every byte the chain gets to look at (`Readable`); five
   * bytes always suffice (`FiveBytesSuffice`). `abort()` is the `Crash`
   * outcome.
   */
  method CHarness(mp: array<u8>, buff: seq<u8>) returns (r: ExitKind)
    requires mp.Length == MapSize
    requires Readable(buff, Chain)
    modifies mp
    ensures forall i :: 0 <= i < MapSize ==>
              mp[i] == if i < Cells(buff, Chain, Top) then 1 else old(mp[i])
    ensures r == Outcome(buff, Chain)
  {
    r := Ok;
    var _ := MarkMp(mp, 0);
    DepthNext(buff, Chain, 0);
    if buff[0] == Byte('m') {
      var _ := MarkMp(mp, 1);
      DepthNext(buff, Chain, 1);
      if buff[1] == Byte('a') {
        var _ := MarkMp(mp, 2);
        DepthNext(buff, Chain, 2);
        if buff[3] == Byte('t') {
          var _ := MarkMp(mp, 3);
          DepthNext(buff, Chain, 3);
          if buff[4] == Byte('t') {
            r := Crash;
          }
        }
      }
    }
  }

  /**
   * What `CHarness` means: cell 0 is always marked; cell 1 on 'm' at byte
   * 0; cell 2 on "ma" at bytes 0..1; cell 3 when byte 3 is also 't'; no
   * cell from 4 on is ever marked; and the harness aborts exactly when byte
   * 4 is 't' as well.
   */
  lemma CHarnessMeaning(buff: seq<u8>)
    ensures 1 <= Cells(buff, Chain, Top) <= 4
    ensures 1 < Cells(buff, Chain, Top) <==> |buff| > 0 && buff[0] == Byte('m')
    ensures 2 < Cells(buff, Chain, Top) <==> |buff| > 1 && buff[0] == Byte('m') && buff[1] == Byte('a')
    ensures 3 < Cells(buff, Chain, Top) <==>
              |buff| > 3 && buff[0] == Byte('m') && buff[1] == Byte('a') && buff[3] == Byte('t')
    ensures Outcome(buff, Chain) == Crash <==>
              |buff| > 4 && buff[0] == Byte('m') && buff[1] == Byte('a') && buff[3] == Byte('t') && buff[4] == Byte('t')
  {
    DepthNext(buff, Chain, 0);
    if Passes(buff, Chain[0]) {
      DepthNext(buff, Chain, 1);
      if Passes(buff, Chain[1]) {
        DepthNext(buff, Chain, 2);
        if Passes(buff, Chain[2]) {
          DepthNext(buff, Chain, 3);
        }
      }
    }
  }

  /** Byte 2 is never examined: changing it changes neither the map nor the verdict. */
  lemma ByteTwoIgnored(buff: seq<u8>, x: u8)
    requires |buff| > 2
    ensures Cells(buff[2 := x], Chain, Top) == Cells(buff, Chain, Top)
    ensures Outcome(buff[2 := x], Chain) == Outcome(buff, Chain)
  {
  }

  /**
   * An input of five bytes or more meets the harness's requirement; shorter
   * ones meet it too when they fail a check before running out, e.g. a single
   * byte other than 'm'.
   */
  lemma FiveBytesSuffice(buff: seq<u8>)
    ensures |buff| >= 5 ==> Readable(buff, Chain)
    ensures Readable([Byte('x')], Chain)
    ensures !Readable([Byte('m')], Chain)
  {
    assert Depth([Byte('x')], Chain) == 0;
    assert Depth([Byte('m')], Chain) >= 1 by {
      DepthAtLeast([Byte('m')], Chain, 1);
    }
  }
}
