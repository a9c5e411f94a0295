/**
 * The QEMU-driven fuzzer of fuzzing_baremetal in its low-level form: the
 * setup that runs the guest to `main`, swaps breakpoints and takes a fast
 * snapshot, and the harness that writes each input into guest memory, runs
 * the guest, turns the emulator's exit into a verdict and restores the
 * snapshot. The emulator is a `Qemu` object with guest memory and a
 * breakpoint set; what the guest does when it runs is a function
 * `emulate` from memory and breakpoints to a `GuestRun`.
 */
module LowLevel {
  import opened Common

  /** `MAX_INPUT_SIZE`: inputs longer than this are cut. */
  const MaxInputSize: nat := 50

  /** Why `qemu.run()` came back, as far as the harness tells the cases apart. */
  datatype RunExit =
    | BreakpointExit              // Ok(QemuExitReason::Breakpoint(_))
    | TimeoutExit                 // Ok(QemuExitReason::Timeout)
    | HostSignalEnd               // Ok(QemuExitReason::End(QemuShutdownCause::HostSignal(_)))
    | OtherEnd                    // Ok(QemuExitReason::End(_)) for any other shutdown cause
    | SyncExit                    // Ok(QemuExitReason::SyncExit(_))
    | UnexpectedExit              // Err(QemuExitError::UnexpectedExit)
    | OtherError                  // any other Err(_)

  /**
   * One guest run: how it stopped, guest memory afterwards, and what reading
   * the PC register of each CPU gives (`None` for a failed read).
   */
  datatype GuestRun = GuestRun(exit: RunExit, memory: seq<u8>, pcs: seq<Option<u32>>)

  /** A fast snapshot of guest memory. */
  datatype Snapshot = Snapshot(memory: seq<u8>)

  /** The harness returns an exit kind, or panics on an exit it does not expect. */
  datatype Verdict = Exit(kind: ExitKind) | Panic

  /** The emulator, reduced to what the fuzzer reads and changes. */
  class Qemu {
    var memory: seq<u8>
    var breakpoints: set<nat>

    constructor (image: seq<u8>)
      ensures memory == image && breakpoints == {}
    {
      memory := image;
      breakpoints := {};
    }

    method SetBreakpoint(addr: nat)
      modifies this
      ensures breakpoints == old(breakpoints) + {addr}
      ensures memory == old(memory)
    {
      breakpoints := breakpoints + {addr};
    }

    method RemoveBreakpoint(addr: nat)
      modifies this
      ensures breakpoints == old(breakpoints) - {addr}
      ensures memory == old(memory)
    {
      breakpoints := breakpoints - {addr};
    }

    /** `write_phys_mem`: the bytes land at `addr` and nothing else changes. */
    method WritePhysMem(addr: nat, buf: seq<u8>)
      requires addr + |buf| <= |memory|
      modifies this
      ensures memory == Inject(old(memory), addr, buf)
      ensures breakpoints == old(breakpoints)
    {
      memory := Inject(memory, addr, buf);
    }

    /** `run`: the guest runs from the current state until something stops it. */
    method Run(emulate: (seq<u8>, set<nat>) -> GuestRun) returns (g: GuestRun)
      modifies this
      ensures g == emulate(old(memory), old(breakpoints))
      ensures memory == g.memory && breakpoints == old(breakpoints)
    {
      g := emulate(memory, breakpoints);
      memory := g.memory;
    }

    method CreateFastSnapshot() returns (s: Snapshot)
      ensures s == Snapshot(memory)
    {
      s := Snapshot(memory);
    }

    method RestoreFastSnapshot(s: Snapshot)
      modifies this
      ensures memory == s.memory && breakpoints == old(breakpoints)
    {
      memory := s.memory;
    }
  }

  /** The input as the harness writes it: at most `MaxInputSize` leading bytes. */
  function Truncate(buf: seq<u8>): (t: seq<u8>)
    ensures |t| == Min(|buf|, MaxInputSize)
    ensures t == buf[..|t|]
  {
    if |buf| > MaxInputSize then buf[..MaxInputSize] else buf
  }

  /** Guest memory with `bytes` written at `addr`. */
  function Inject(mem: seq<u8>, addr: nat, bytes: seq<u8>): (m: seq<u8>)
    requires addr + |bytes| <= |mem|
    ensures |m| == |mem|
    ensures forall i :: 0 <= i < |m| ==>
              m[i] == if addr <= i < addr + |bytes| then bytes[i - addr] else mem[i]
  {
    mem[..addr] + bytes + mem[addr + |bytes|..]
  }

  /** A failed PC read counts as address 0 (`unwrap_or(&0)`). */
  function PcOrZero(pc: Option<u32>): (a: nat)
    ensures pc.Some? ==> a == pc.value as nat
    ensures pc.None? ==> a == 0
  {
    match pc
    case Some(v) => v as nat
    case None => 0
  }

  /** The half-open window `breakpoint_addr..breakpoint_addr + 5`. */
  predicate InWindow(a: nat, bp: nat) {
    bp <= a < bp + 5
  }

  /**
   * `pcs.find(...)`: the first CPU whose PC (0 when unreadable) lies in the
   * window, if any.
   */
  function FindPc(pcs: seq<Option<u32>>, bp: nat): (r: Option<nat>)
    ensures r.Some? ==> r.value < |pcs| && InWindow(PcOrZero(pcs[r.value]), bp)
    ensures r.Some? ==> forall j :: 0 <= j < r.value ==> !InWindow(PcOrZero(pcs[j]), bp)
    ensures r.None? <==> forall j :: 0 <= j < |pcs| ==> !InWindow(PcOrZero(pcs[j]), bp)
  {
    if pcs == [] then None
    else if InWindow(PcOrZero(pcs[0]), bp) then Some(0)
    else match FindPc(pcs[1..], bp)
      case None => None
      case Some(i) => Some(i + 1)
  }

  /** The exits after which the harness goes on to look at the CPUs' PCs. */
  predicate ChecksPc(exit: RunExit) {
    exit == BreakpointExit || exit == HostSignalEnd
  }

  /**
   * The `match` on the run's result followed by the PC check: a timeout is
   * a timeout, an unexpected exit a crash, a breakpoint or host-signal
   * shutdown is fine exactly when some CPU stopped in the window around
   * `BREAKPOINT`, and anything else panics.
   */
  function Classify(exit: RunExit, pcs: seq<Option<u32>>, bp: nat): (v: Verdict)
    ensures v == Exit(Timeout) <==> exit == TimeoutExit
    ensures v == Exit(Ok) <==> ChecksPc(exit) && FindPc(pcs, bp).Some?
    ensures v == Exit(Crash) <==> exit == UnexpectedExit || (ChecksPc(exit) && FindPc(pcs, bp).None?)
    ensures v == Panic <==> exit in {OtherEnd, SyncExit, OtherError}
  {
    match exit
    case TimeoutExit => Exit(Timeout)
    case UnexpectedExit => Exit(Crash)
    case BreakpointExit => if FindPc(pcs, bp).Some? then Exit(Ok) else Exit(Crash)
    case HostSignalEnd => if FindPc(pcs, bp).Some? then Exit(Ok) else Exit(Crash)
    case _ => Panic
  }

  /**
   * When no PC can be read, every CPU counts as being at address 0, so the
   * run is judged fine only if there is a CPU and the window starts at 0.
   */
  lemma UnreadablePcs(pcs: seq<Option<u32>>, bp: nat)
    requires forall i :: 0 <= i < |pcs| ==> pcs[i].None?
    ensures FindPc(pcs, bp).Some? <==> |pcs| > 0 && bp == 0
  {
  }

  /**
   * The harness closure. Guest memory must have room for the (cut) input at
   * `inputAddr`. Timeouts and unexpected exits return before the snapshot
   * is restored; a panic leaves the state as the run left it.
   */
  method Harness(qemu: Qemu, snap: Snapshot, emulate: (seq<u8>, set<nat>) -> GuestRun,
                 inputAddr: nat, bp: nat, input: seq<u8>) returns (v: Verdict)
    requires inputAddr + |Truncate(input)| <= |qemu.memory|
    modifies qemu
    ensures var g := emulate(Inject(old(qemu.memory), inputAddr, Truncate(input)), old(qemu.breakpoints));
            v == Classify(g.exit, g.pcs, bp) &&
            qemu.memory == (if ChecksPc(g.exit) then snap.memory else g.memory)
    ensures qemu.breakpoints == old(qemu.breakpoints)
  {
    var buf := input;
    if |buf| > MaxInputSize {
      buf := buf[0..MaxInputSize];
    }
    qemu.WritePhysMem(inputAddr, buf);
    var g := qemu.Run(emulate);
    match g.exit {
      case BreakpointExit =>
      case TimeoutExit => return Exit(Timeout);
      case HostSignalEnd =>
      case UnexpectedExit => return Exit(Crash);
      case _ => return Panic;
    }
    var ret := if FindPc(g.pcs, bp).Some? then Exit(Ok) else Exit(Crash);
    qemu.RestoreFastSnapshot(snap);
    v := ret;
  }

  /**
   * The setup before fuzzing: break at `main`, run there (anything but a
   * breakpoint exit panics, `None` here), move the breakpoint from `main` to
   * `BREAKPOINT`, and snapshot the state reached.
   */
  method Setup(qemu: Qemu, emulate: (seq<u8>, set<nat>) -> GuestRun, mainAddr: nat, bp: nat)
    returns (snap: Option<Snapshot>)
    modifies qemu
    ensures var g := emulate(old(qemu.memory), old(qemu.breakpoints) + {mainAddr});
            qemu.memory == g.memory &&
            (snap.None? <==> g.exit != BreakpointExit) &&
            (snap.Some? ==> snap.value == Snapshot(g.memory)) &&
            qemu.breakpoints == if snap.None? then old(qemu.breakpoints) + {mainAddr}
                                else (old(qemu.breakpoints) - {mainAddr}) + {bp}
  {
    qemu.SetBreakpoint(mainAddr);
    var g := qemu.Run(emulate);
    if g.exit != BreakpointExit {
      return None;
    }
    qemu.RemoveBreakpoint(mainAddr);
    qemu.SetBreakpoint(bp);
    var s := qemu.CreateFastSnapshot();
    snap := Some(s);
  }

  /**
   * Setup on a fresh emulator, then one harness run per input: after a setup
   * that succeeds, `BREAKPOINT` is the only breakpoint, and every run that
   * reaches the PC check puts guest memory back to the snapshot, so a
   * second run of the same input after it gives the same verdict. A run that
   * ends in a timeout or an unexpected exit leaves the next one to start
   * from whatever state the guest was left in.
   */
  method SetupThenRunTwice(image: seq<u8>, emulate: (seq<u8>, set<nat>) -> GuestRun,
                           mainAddr: nat, bp: nat, inputAddr: nat, input: seq<u8>)
    returns (snap: Option<Snapshot>, first: Verdict, second: Verdict)
    requires forall m, b :: |emulate(m, b).memory| == |m|
    requires inputAddr + |Truncate(input)| <= |image|
    ensures snap.Some? <==> emulate(image, {mainAddr}).exit == BreakpointExit
    ensures snap.Some? ==>
              snap.value.memory == emulate(image, {mainAddr}).memory &&
              var g := emulate(Inject(snap.value.memory, inputAddr, Truncate(input)), {bp});
              first == Classify(g.exit, g.pcs, bp) && (ChecksPc(g.exit) ==> second == first)
  {
    var qemu := new Qemu(image);
    assert qemu.breakpoints + {mainAddr} == {mainAddr};
    snap := Setup(qemu, emulate, mainAddr, bp);
    first, second := Panic, Panic;
    if snap.Some? {
      assert qemu.breakpoints == {bp};
      first := Harness(qemu, snap.value, emulate, inputAddr, bp, input);
      second := Harness(qemu, snap.value, emulate, inputAddr, bp, input);
    }
  }
}
