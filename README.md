# Fuzzing harnesses of matthewchavis8/Fuzzers, modelled in Dafny

The repository configures LibAFL fuzzers around small instrumented targets.
This project models those targets and the code that drives them:

- **Four Rust harnesses**: `baby_fuzzer`, `baby_fuzzer_with_minimizer`,
  `baby_fuzzer_with_custom_executor` and `test_Fuzzer`.
- **Two C harnesses**: the in-process one and the fork one. Both come with
  a helper that zeroes their coverage map, and the fork one also has a
  helper that reads a map byte back.
- **The bare-metal target** `LLVMFuzzerTestOneInput`: a timeout trigger
  followed by an in-place exchange sort.
- **The low-level QEMU harness and its setup.**

## Shared shape of the six harnesses

Each of the six harnesses is a chain of nested comparisons of one input byte
with a constant. Cell 0 is always marked. Passing comparison k marks
coverage cell k+1 only while k+1 <= `Top`, the last cell with a mark site.
Passing every comparison is the objective. In five of the six harnesses the
last comparison marks no cell and only triggers the objective. Only the fork
harness has a mark (cell 3) before its `abort()`.

`Chains` captures this shape once:

- `Check(pos, want)` is one comparison.
- `Depth` counts how many leading comparisons an input passes.
- `Cells` is the number of map cells a run marks.
- `Outcome` is `Crash` exactly when the whole chain passes.

Each harness method keeps its source's nested `if`s, with one exception.
In the fork harness, everything below the second comparison is dead code, so
there a single `assert false` stands for the third comparison, the marks of
cells 2 and 3 and the `abort()`. It proves that branch unreachable.

The contract of each harness method says that cell i becomes 1 when
i < `Cells` and keeps its old value otherwise. It also says the method
returns `Outcome`. A lemma per harness then translates
`Cells` and `Outcome` into the source's terms: which prefix of "MATT",
"MAT" or "MATTHEW" the input starts with, or which bytes of the C input
hold which letters.

The coverage map is an `array<u8>` passed to the harness. The source's
global `static mut` map and its raw pointer are one object here.

## The other modules

**`BaremetalHarness`** models `LLVMFuzzerTestOneInput` over an
`array<u32>`. The three ways the call ends are a `Finish` value:

- the timeout spin on `data[3] == 0`;
- the `BREAKPOINT` spin;
- `libafl_qemu_end`.

The contract proves three things:

- the first `size` words are a permutation of the input;
- they are non-increasing;
- the rest of the array is unchanged.

A uniqueness lemma shows that these facts fix the result.

**`LowLevel`** models QEMU as a `Qemu` class with guest memory and a
breakpoint set. What the guest computes when run is the function parameter
`emulate`, which maps memory and breakpoints to exit reason, memory and PC
reads.

## Model

| member | source | states |
|---|---|---|
| Common.FuzzerState.CountExecution | baby_fuzzer_with_custom_executor/src/main.rs:45 | the execution counter grows by exactly one |
| Coverage.Mark | baby_fuzzer/src/main.rs:12-14 | the mark helper (`mark_signal`, `mark_mp`, `mark_map`) sets the cell at `idx` to 1 and leaves every other cell as it was; `idx` must be inside the map |
| Coverage.Clear | fuzzing_c_code_inprocess_executor/src/harness.c:13-15 | after the zeroing loop every cell of the map is 0 |
| Chains.Depth | baby_fuzzer/src/main.rs:21-33 | the depth is at most the chain length, all checks before it pass, and the check at it (if any) fails |
| Chains.DepthAtLeast | baby_fuzzer/src/main.rs:21-33 | an input gets at least k checks deep iff it passes the first k checks |
| Chains.Cells | baby_fuzzer/src/main.rs:21-27 | a run marks between 1 and top+1 cells, never more than depth+1 |
| Chains.Outcome | baby_fuzzer/src/main.rs:28-34 | the verdict is Crash iff every check passes, and never Timeout |
| Chains.WordDepth | baby_fuzzer/src/main.rs:22-28 | against a word chain, k is at most the depth iff the input begins with the first k letters |
| Chains.WordOutcome | baby_fuzzer/src/main.rs:22-29 | a word chain reports Crash iff the input begins with the whole word |
| Chains.WordCells | baby_fuzzer/src/main.rs:21-27 | cell k is marked iff k <= top and the input begins with the first k letters |
| BabyFuzzer.Harness | baby_fuzzer/src/main.rs:17-35 | cells below `Cells` become 1 and the others keep their values; the verdict is `Outcome`, with panic as Crash; no length requirement is needed, because every read is guarded |
| BabyFuzzer.HarnessMeaning | baby_fuzzer/src/main.rs:21-34 | cell k is marked iff k <= 3 and the input starts with the first k letters of "MATT"; the harness panics iff the input starts with "MATT"; the empty input marks only cell 0 |
| BabyFuzzerWithMinimizer.Harness | baby_fuzzer_with_minimizer/src/main.rs:29-44 | cells below `Cells` become 1 and the rest are unchanged; the verdict is `Outcome` |
| BabyFuzzerWithMinimizer.HarnessMeaning | baby_fuzzer_with_minimizer/src/main.rs:33-43 | cell k is marked iff k <= 2 and the input starts with the first k letters of "MAT"; cell 1 is marked iff byte 0 is 'M'; the verdict is Crash iff the input starts with "MAT" |
| BabyFuzzerWithMinimizer.DeleteTailKeepsCrash | baby_fuzzer_with_minimizer/src/main.rs:132-135 | deleting any block at or after position 3 keeps both the verdict and the marked cells |
| BabyFuzzerWithMinimizer.ShortestCrash | baby_fuzzer_with_minimizer/src/main.rs:34-39 | "MAT" crashes, every crashing input has at least 3 bytes, and "MAT" is the only crashing input of length 3 |
| BabyFuzzerWithCustomExecutor.RunTarget | baby_fuzzer_with_custom_executor/src/main.rs:38-64 | the counter grows by one; cells below `Cells` become 1 and the rest are unchanged; the result is `Ok(Outcome)`, never an error |
| BabyFuzzerWithCustomExecutor.RunTargetMeaning | baby_fuzzer_with_custom_executor/src/main.rs:49-63 | cell k is marked iff k <= 3 and the input starts with the first k letters of "MATT"; the result is Crash iff the input starts with "MATT" |
| BabyFuzzerWithCustomExecutor.RunTwice | baby_fuzzer_with_custom_executor/src/main.rs:14-16 | two runs of one input give equal results and the same map as one run; only the counter (+2) differs |
| TestFuzzer.RunTarget | test_Fuzzer/src/main.rs:43-79 | the counter grows by one; cells below `Cells` become 1 and the rest are unchanged; the result is `Ok(Outcome)`, never an error; no length requirement is needed |
| TestFuzzer.RunTargetMeaning | test_Fuzzer/src/main.rs:56-78 | cell k is marked iff k <= 6 and the input starts with the first k letters of "MATTHEW" (so cell 7 is never written); the result is Crash iff the input starts with "MATTHEW" |
| CInprocess.Init | fuzzing_c_code_inprocess_executor/src/harness.c:12-17 | all 100 cells are 0 and the result is 0 |
| CInprocess.MarkMp | fuzzing_c_code_inprocess_executor/src/harness.c:20-24 | only cell `idx` changes, to 1; the result is 0; `idx` must be below 100 |
| CInprocess.CHarness | fuzzing_c_code_inprocess_executor/src/harness.c:27-42 | cells below `Cells` become 1 and the rest are unchanged; abort is Crash iff the whole chain passes; it requires only that each byte the chain reaches exists |
| CInprocess.CHarnessMeaning | fuzzing_c_code_inprocess_executor/src/harness.c:28-37 | cell 1 is marked iff byte 0 is 'm'; cell 2 iff also byte 1 is 'a'; cell 3 iff also byte 3 is 't'; cells from 4 up are never marked; abort iff also byte 4 is 't' |
| CInprocess.ByteTwoIgnored | fuzzing_c_code_inprocess_executor/src/harness.c:30-36 | byte 2 changes neither the marked cells nor the verdict |
| CInprocess.FiveBytesSuffice | fuzzing_c_code_inprocess_executor/src/harness.c:30-36 | five bytes always satisfy the read requirement; one byte other than 'm' does too; a lone "m" does not |
| CFork.CreateShmemArray | fuzzing_c_code_with_fork_executor/src/harness.c:24-38 | all 100 bytes of the segment are 0 and the result is 0 |
| CFork.SetShmemMap | fuzzing_c_code_with_fork_executor/src/harness.c:48-60 | only byte `idx` changes, to 1; the result is 0; `idx` must be below 100 |
| CFork.GetShmemMap | fuzzing_c_code_with_fork_executor/src/harness.c:70-78 | returns byte `idx` (a value in 0..255) and changes nothing |
| CFork.SetThenGet | fuzzing_c_code_with_fork_executor/src/harness.c:48-78 | a get after a set at the same index reads 1, and the other bytes are untouched |
| CFork.CHarness | fuzzing_c_code_with_fork_executor/src/harness.c:98-111 | cells below `Cells` become 1 and the rest are unchanged; the verdict is `Outcome`; it needs a non-empty input; the branch under the second comparison is unreachable |
| CFork.NeverAborts | fuzzing_c_code_with_fork_executor/src/harness.c:101-107 | the depth is at most 1, so at most cells 0 and 1 are marked; cell 1 is marked iff byte 0 is 'a'; the verdict is always Ok |
| BaremetalHarness.Exchanges | fuzzing_baremetal/example/harness.c:41-43 | skipping zero and then comparing is the same as comparing unconditionally |
| BaremetalHarness.Swap | fuzzing_baremetal/example/harness.c:44-46 | the two words change places, nothing else changes, and the multiset is kept |
| BaremetalHarness.PlaceMax | fuzzing_baremetal/example/harness.c:40-50 | afterwards `data[i]` is at least every word in `data[i+1..n)`; an upper bound on `data[i..n)` survives; only `data[i..n)` changes; the multiset is kept; the `j--` re-check terminates |
| BaremetalHarness.TestOneInput | fuzzing_baremetal/example/harness.c:28-61 | it spins (TimeoutLoop) iff `data[3] == 0`, changing nothing; otherwise `data[..size]` ends non-increasing and a permutation of the input, the rest is unchanged, and it ends at `libafl_qemu_end` (sync-exit build) or spinning in `BREAKPOINT` |
| BaremetalHarness.PrefixMultiset | fuzzing_baremetal/example/harness.c:39-51 | the same multiset and the same tail give the same multiset in the prefix |
| BaremetalHarness.NonIncreasingUnique | fuzzing_baremetal/example/harness.c:39-51 | two non-increasing sequences with the same multiset are equal, so the sorted result is determined by the input |
| BaremetalHarness.HeadIsLargest | fuzzing_baremetal/example/harness.c:39-46 | the first word of a non-increasing sequence is at least every word in it |
| LowLevel.Qemu.SetBreakpoint | fuzzing_baremetal/src/fuzzer_low_level.rs:130 | adds the address to the breakpoints; memory is unchanged |
| LowLevel.Qemu.RemoveBreakpoint | fuzzing_baremetal/src/fuzzer_low_level.rs:139 | removes the address from the breakpoints; memory is unchanged |
| LowLevel.Qemu.WritePhysMem | fuzzing_baremetal/src/fuzzer_low_level.rs:160 | memory becomes `Inject` of the bytes; breakpoints are unchanged |
| LowLevel.Qemu.Run | fuzzing_baremetal/src/fuzzer_low_level.rs:162 | the guest runs from the current memory and breakpoints, and memory becomes what the run left |
| LowLevel.Qemu.CreateFastSnapshot | fuzzing_baremetal/src/fuzzer_low_level.rs:146 | the snapshot holds the current memory |
| LowLevel.Qemu.RestoreFastSnapshot | fuzzing_baremetal/src/fuzzer_low_level.rs:195 | memory becomes the snapshot's; breakpoints are unchanged |
| LowLevel.Truncate | fuzzing_baremetal/src/fuzzer_low_level.rs:17 | the result is the first min(len, 50) bytes of the input |
| LowLevel.Inject | fuzzing_baremetal/src/fuzzer_low_level.rs:156-160 | exactly the bytes in `[addr, addr+len)` take the input's values, and every other byte keeps its value |
| LowLevel.PcOrZero | fuzzing_baremetal/src/fuzzer_low_level.rs:177-180 | a failed PC read counts as 0 |
| LowLevel.FindPc | fuzzing_baremetal/src/fuzzer_low_level.rs:175-181 | returns the first CPU whose PC lies in `[bp, bp+5)`, or none iff no CPU's PC does |
| LowLevel.Classify | fuzzing_baremetal/src/fuzzer_low_level.rs:162-184 | Timeout iff a timeout exit; Ok iff a breakpoint or host-signal exit with some PC in the window; Crash iff an unexpected exit, or such an exit with no PC in the window; panic iff any other exit |
| LowLevel.UnreadablePcs | fuzzing_baremetal/src/fuzzer_low_level.rs:177-180 | when no PC can be read, the verdict is Ok iff there is a CPU and `bp == 0` |
| LowLevel.Harness | fuzzing_baremetal/src/fuzzer_low_level.rs:149-198 | the truncated input is written at `input_addr` and the guest runs; the verdict is `Classify` of the run; memory is restored to the snapshot iff the PC check was reached; the breakpoints are unchanged |
| LowLevel.Setup | fuzzing_baremetal/src/fuzzer_low_level.rs:130-146 | the first run must stop at a breakpoint, otherwise setup panics; after it, `main` is removed and `BREAKPOINT` added; the snapshot holds the memory reached |
| LowLevel.SetupThenRunTwice | fuzzing_baremetal/src/fuzzer_low_level.rs:130-198 | setup succeeds iff the first run stops at a breakpoint; the first verdict is that of the input run from the snapshot with only `BREAKPOINT` set; when that run reaches the PC check, running the same input again gives the same verdict |

## Left out

- **LibAFL engine.** Corpora, feedbacks, schedulers, mutators, the tmin
  minimiser stage and the fuzzing loop are library code that is not part of
  this model. So the minimiser pass is represented only by the property of
  the crash predicate it relies on.
- **Launcher, broker, shared-memory provider and core binding.** This is
  multi-process plumbing.
- **QEMU and ELF plumbing.** Emulator construction, symbol resolution,
  environment variables and device listing are foreign calls. In the model,
  the addresses of `main`, `BREAKPOINT` and the input are parameters.
- **OS calls in the fork harness.** `shmget`, `shmat` and `shmctl`, and
  `destroy_shmem` with them, are not modelled. The segment is one owned
  100-byte array, and attaching to it is the identity.
- **The C `main.rs` wrappers, `fuzzer_sync_exit.rs`, `fuzzer_breakpoint.rs`
  and `startup.c`.** They are FFI wiring, feature dispatch or bare-metal
  startup code.
- **Output and timing.** This covers the `println!` calls, the monitors,
  time observers and RNG seeding.
- **Aliasing of the static maps.** Each map is one array passed to its
  harness; a write through some other pointer is not modelled.
- **`libafl_qemu_start_phys`.** It only tells the emulator where the input
  lies and does not change the outcome.
- **Spin loops.** The endless loops (the timeout trigger's `while (1)` and
  `BREAKPOINT`'s `for (;;)`) are `Finish` values, not divergence.
- **`tmp` in the exchange sort.** The source declares it `int`; the model
  treats it as the same 32-bit word, since the value round-trips.
- **`signal.handle()`** after a host-signal shutdown is LibAFL code. The
  model assumes it returns and changes nothing that the model tracks.
- **Guest CPU registers** other than the PC reads returned by a run are not
  part of the snapshot model.
- **Length requirement of the C harnesses.** `CInprocess.CHarness`
  requires `Readable` and `CFork.CHarness` requires a non-empty input,
  because the C code reads without length checks. The source's callers
  (fuzzing_c_code_inprocess_executor/src/main.rs:19,
  fuzzing_c_code_with_fork_executor/src/main.rs:34) pass inputs of any
  length, including inputs shortened by mutation. On shorter inputs the C
  code reads past the buffer, which is undefined behaviour that the model
  does not describe.
- **Physical memory bounds.** The low-level harness requires the input to
  fit in guest memory; what QEMU does on a write beyond it is not modelled.
- Common.FuzzerState.CountExecution: the counter is unbounded, so the wrap
  of the source's 64-bit `executions` counter is not modelled.
- LowLevel.FindPc: `breakpoint_addr + 5` is computed without 32-bit
  overflow, so a breakpoint within 5 bytes of the top of the address space
  is not modelled as the source would compute it.

## Notes on the code

The model follows the code wherever the code differs from the usual
account of these harnesses.

- **Snapshot restore.** A snapshot-restoring executor is usually described
  as restoring the snapshot before every run, so that every run starts from
  the same state. This harness restores it after the run, and only on the
  path that reaches the PC check. Timeouts and unexpected exits return
  first, so the next run starts from wherever the guest stopped. What
  follows a panic is decided by the executor, which is not part of this
  model.
  `LowLevel.Harness` and `LowLevel.SetupThenRunTwice` state this.
- **Host-signal shutdown.** A `HostSignal` shutdown is not an error here. It
  falls through to the PC check, and `LowLevel.Classify` follows that.
- **When cell 3 is marked.** The "MATT" harnesses mark cell 3 once the
  input begins with "MAT". The fourth 'T' does not mark a cell; it
  triggers the objective.
