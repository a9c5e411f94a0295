/**
 * The C target of fuzzing_c_code_with_fork_executor. Its coverage map is a
 * 100-byte System V shared-memory segment; here the segment is one owned
 * array and attaching to it is the identity.
 */
module CFork {
  import opened Common
  import opened Coverage
  import opened Chains

  /** `SHMEM_COUNT` */
  const ShmemCount: nat := 100

  /** The comparisons of `c_harness`: all three look at byte 0. */
  const Chain: seq<Check> := [Check(0, Byte('a')), Check(0, Byte('b')), Check(0, Byte('c'))]

  /** The last map cell with a mark site (`set_shmem_map(3)`). */
  const Top: nat := 3

  /** `create_shmem_array`, after the segment exists: zeroes all of it. */
  method CreateShmemArray(seg: array<u8>) returns (r: int)
    requires seg.Length == ShmemCount
    modifies seg
    ensures r == 0
    ensures seg[..] == Zeros(ShmemCount)
  {
    Clear(seg);
    r := 0;
  }

  /** `set_shmem_map`: an index of 100 or more would write past the segment. */
  method SetShmemMap(seg: array<u8>, idx: u8) returns (r: int)
    requires seg.Length == ShmemCount && (idx as int) < ShmemCount
    modifies seg
    ensures r == 0
    ensures seg[idx] == 1
    ensures forall i :: 0 <= i < ShmemCount && i != idx as int ==> seg[i] == old(seg[i])
  {
    Mark(seg, idx as nat);
    r := 0;
  }

  /** `get_shmem_map`: reads one byte, widened to `int`, and changes nothing. */
  method GetShmemMap(seg: array<u8>, idx: u8) returns (r: int)
    requires seg.Length == ShmemCount && (idx as int) < ShmemCount
    ensures 0 <= r < 0x100
    ensures r == seg[idx] as int
  {
    r := seg[idx] as int;
  }

  /** A set followed by a get at the same index reads 1, and the other cells are untouched. */
  method SetThenGet(seg: array<u8>, idx: u8) returns (v: int)
    requires seg.Length == ShmemCount && (idx as int) < ShmemCount
    modifies seg
    ensures v == 1
    ensures forall i :: 0 <= i < ShmemCount && i != idx as int ==> seg[i] == old(seg[i])
  {
    var _ := SetShmemMap(seg, idx);
    v := GetShmemMap(seg, idx);
  }

  /**
   * `c_harness`. It reads `arr[0]` unguarded, so the input must not be
   * empty; it reads nothing else. The branch that would mark cells 2 and 3
   * and call `abort()` (the `Crash` outcome) is proved unreachable.
   */
  method CHarness(seg: array<u8>, arr: seq<u8>) returns (r: ExitKind)
    requires seg.Length == ShmemCount
    requires |arr| > 0
    modifies seg
    ensures forall i :: 0 <= i < ShmemCount ==>
              seg[i] == if i < Cells(arr, Chain, Top) then 1 else old(seg[i])
    ensures r == Outcome(arr, Chain)
  {
    r := Ok;
    var _ := SetShmemMap(seg, 0);
    DepthNext(arr, Chain, 0);
    if arr[0] == Byte('a') {
      var _ := SetShmemMap(seg, 1);
      DepthNext(arr, Chain, 1);
      if arr[0] == Byte('b') {
        // Byte 0 is already 'a': the marks of cells 2 and 3 and the
        // `abort()` below this comparison are dead code.
        assert false;
      }
    }
  }

  /**
   * The nested comparisons ask byte 0 to be 'a' and then 'b': no input gets
   * past the first one, so cells 2 and 3 are never marked, cell 1 is marked
   * exactly on a leading 'a', and the `abort()` is unreachable.
   */
  lemma NeverAborts(arr: seq<u8>)
    ensures Depth(arr, Chain) <= 1
    ensures Cells(arr, Chain, Top) <= 2
    ensures 1 < Cells(arr, Chain, Top) <==> |arr| > 0 && arr[0] == Byte('a')
    ensures Outcome(arr, Chain) == Ok
  {
  }
}
