/** The process table and its round-robin scheduler (`ProcessTable`). */
module Process {
  import opened Bits
  import opened Wrappers
  import opened Bindings
  import opened Control
  import opened Vm

  /** What the external `program_load(p, program_number, null)` does: its return
      value, and the `%rip` it installs when it succeeds (status >= 0). */
  datatype LoadResult = LoadResult(status: i32, rip: u64)

  /** How control leaves `run` or `schedule`, neither of which returns normally:
      `exception_return` resumes process `pid` in user mode with `registers`; or the
      scheduler spins forever because nothing is runnable; or the machine halts. */
  datatype Dispatch =
    | UserMode(pid: nat, registers: Registers)
    | Spinning
    | Stopped(reason: HaltReason)

  /** The `file!()` that `my_assert!` reports for this file. */
  const PROCESS_RS: string := "kernel/src/process.rs"

  /** The message `schedule` panics with when there is no current process. */
  const NO_CURRENT: string := "(schedule) No current process available."

  /** A slot after `process_setup`: `process_init` installs the fresh trap frame
      `init`, the page table becomes `kernel_pagetable`, and a successful load sets `%rip`. */
  function SetupSlot(slot: Proc, kpt: u64, init: Registers, load: LoadResult): (q: Proc)
    ensures q.pid == slot.pid && q.state == slot.state && q.displayStatus == slot.displayStatus
    ensures q.pagetable == kpt
    ensures q.registers == if load.status >= 0 then init.(rip := load.rip) else init
  {
    var initialised := slot.(registers := init, pagetable := kpt);
    if load.status >= 0 then initialised.(registers := initialised.registers.(rip := load.rip))
    else initialised
  }

  /** The outcome of `my_assert!(r >= 0)` after `program_load`. */
  function LoadCheck(load: LoadResult): (o: Outcome)
    ensures o == Continue <==> load.status >= 0
    ensures o.Halted? ==> o.reason == AssertionFailed(PROCESS_RS, 45, "r >= 0")
  {
    if load.status >= 0 then Continue else Halted(AssertionFailed(PROCESS_RS, 45, "r >= 0"))
  }

  /** How `run` ends once `set_pagetable` has returned outcome `o`. */
  function RunDispatch(o: Outcome, pid: nat, regs: Registers): (d: Dispatch)
    ensures d == UserMode(pid, regs) <==> o == Continue
    ensures d.Stopped? <==> o.Halted?
    ensures o.Halted? ==> d.reason == o.reason
  {
    match o
    case Continue => UserMode(pid, regs)
    case Halted(reason) => Stopped(reason)
  }

  // ----- the cyclic scan of schedule -----

  /** The slot `schedule` examines on its k-th probe after `cur`. */
  function Probe(cur: nat, k: nat): (i: nat)
    ensures i < NPROC
  {
    (cur + k) % NPROC
  }

  /** Each probe is the slot after the previous one, `(pid + 1) % NPROC`. */
  lemma ProbeNext(cur: nat, k: nat)
    ensures Probe(cur, k + 1) == (Probe(cur, k) + 1) % NPROC
  {
    var q := (cur + k) / NPROC;
    var r := (cur + k) % NPROC;
    if r + 1 < NPROC {
      DivModUnique(cur + k + 1, NPROC, q, r + 1);
    } else {
      DivModUnique(cur + k + 1, NPROC, q + 1, 0);
    }
  }

  /** The first probe k in [from, NPROC] whose slot is runnable, if any. */
  function FirstRunnableFrom(ps: seq<Proc>, cur: nat, from: nat): (r: Option<nat>)
    requires |ps| == NPROC && 1 <= from
    ensures r.Some? ==> from <= r.value <= NPROC && ps[Probe(cur, r.value)].state == PRunnable
    ensures r.Some? ==> forall k | from <= k < r.value :: ps[Probe(cur, k)].state != PRunnable
    ensures r.None? ==> forall k | from <= k <= NPROC :: ps[Probe(cur, k)].state != PRunnable
    decreases NPROC + 1 - from
  {
    if from > NPROC then None
    else if ps[Probe(cur, from)].state == PRunnable then Some(from)
    else FirstRunnableFrom(ps, cur, from + 1)
  }

  /** The number of probes after which `schedule` finds a runnable slot, starting
      from the current process `cur`. */
  function NextRunnable(ps: seq<Proc>, cur: nat): (r: Option<nat>)
    requires |ps| == NPROC
    ensures r.Some? ==> 1 <= r.value <= NPROC && ps[Probe(cur, r.value)].state == PRunnable
    ensures r.Some? ==> forall k | 1 <= k < r.value :: ps[Probe(cur, k)].state != PRunnable
    ensures r.None? ==> forall k | 1 <= k <= NPROC :: ps[Probe(cur, k)].state != PRunnable
  {
    FirstRunnableFrom(ps, cur, 1)
  }

  /** The scan stops at the first probe whose slot is runnable. */
  lemma NextRunnableAt(ps: seq<Proc>, cur: nat, k: nat)
    requires |ps| == NPROC && 1 <= k <= NPROC && ps[Probe(cur, k)].state == PRunnable
    requires forall j | 1 <= j < k :: ps[Probe(cur, j)].state != PRunnable
    ensures NextRunnable(ps, cur) == Some(k)
  {
  }

  /** The probes 1 .. NPROC visit every slot: slot i is probe k. */
  lemma ProbeCovers(cur: nat, i: nat)
    requires cur < NPROC && i < NPROC
    ensures var k := (i + NPROC - cur - 1) % NPROC + 1; 1 <= k <= NPROC && Probe(cur, k) == i
  {
    var k := (i + NPROC - cur - 1) % NPROC + 1;
    var m := i + NPROC - cur - 1;
    if m < NPROC {
      DivModUnique(m, NPROC, 0, m);
      DivModUnique(cur + k, NPROC, 1, i);
    } else {
      DivModUnique(m, NPROC, 1, m - NPROC);
      DivModUnique(cur + k, NPROC, 0, i);
    }
  }

  /** The scan finds nothing exactly when no slot at all is runnable. */
  lemma NextRunnableNone(ps: seq<Proc>, cur: nat)
    requires |ps| == NPROC && cur < NPROC
    ensures NextRunnable(ps, cur).None? <==> forall i | 0 <= i < NPROC :: ps[i].state != PRunnable
  {
    if NextRunnable(ps, cur).None? {
      forall i | 0 <= i < NPROC
        ensures ps[i].state != PRunnable
      {
        ProbeCovers(cur, i);
      }
    }
  }

  /** The scan reaches `cur` itself last: after NPROC probes, and only when it is
      the sole runnable slot. */
  lemma NextRunnableSelf(ps: seq<Proc>, cur: nat)
    requires |ps| == NPROC && cur < NPROC
    ensures NextRunnable(ps, cur) == Some(NPROC) <==>
      ps[cur].state == PRunnable && forall i | 0 <= i < NPROC && i != cur :: ps[i].state != PRunnable
  {
    DivModUnique(cur + NPROC, NPROC, 1, cur);
    assert Probe(cur, NPROC) == cur;
    if NextRunnable(ps, cur) == Some(NPROC) {
      forall i | 0 <= i < NPROC && i != cur
        ensures ps[i].state != PRunnable
      {
        ProbeCovers(cur, i);
      }
    } else if ps[cur].state == PRunnable {
      var k := NextRunnable(ps, cur).value;
      assert 1 <= k < NPROC;
      assert Probe(cur, k) != cur by {
        DivModUnique(cur + k, NPROC, (cur + k) / NPROC, (cur + k) % NPROC);
      }
    }
  }

  /** `ProcessTable`: the NPROC process slots and the current process, if any. */
  class ProcessTable {
    const processes: array<Proc>
    /** `current`: the index of the slot it points at. */
    var current: Option<nat>

    /** Every slot i keeps pid i (as `new` sets it), and `current` is a slot. */
    ghost predicate Valid()
      reads this, processes
    {
      && processes.Length == NPROC
      && (forall i | 0 <= i < NPROC :: processes[i].pid == i)
      && (current.Some? ==> current.value < NPROC)
    }

    /** `ProcessTable::new()`: slot i is a free process with pid i; nothing runs yet. */
    constructor ()
      ensures Valid() && fresh(processes) && current == None
      ensures forall i | 0 <= i < NPROC :: processes[i] == NewProc(i, PFree)
    {
      var ps := new Proc[NPROC](_ => DefaultProc());
      var pid := 0;
      while pid < NPROC
        invariant pid <= NPROC
        invariant forall i | 0 <= i < pid :: ps[i] == NewProc(i, PFree)
      {
        ps[pid] := NewProc(pid, PFree);
        pid := pid + 1;
      }
      processes := ps;
      current := None;
    }

    /** `process_setup(pid, pn)`: initialise slot pid in place (SetupSlot), with
        `programLoad` giving what the loader does for a program number, and return a
        copy of the slot. An index past the table panics; a failed load halts. */
    method ProcessSetup(pid: nat, pn: nat, kernelPagetable: u64, init: Registers,
                        programLoad: i32 -> LoadResult) returns (o: Outcome, p: Proc)
      requires Valid()
      modifies processes
      ensures Valid()
      ensures pid >= NPROC ==> o == Halted(IndexOutOfBounds) && processes[..] == old(processes[..])
      ensures pid < NPROC ==>
        var load := programLoad(ToI32(pn));
        && processes[..] == old(processes[..])[pid := SetupSlot(old(processes[pid]), kernelPagetable, init, load)]
        && o == LoadCheck(load)
        && p == processes[pid]
    {
      if pid >= processes.Length {
        return Halted(IndexOutOfBounds), DefaultProc();
      }
      processes[pid] := processes[pid].(registers := init);
      processes[pid] := processes[pid].(pagetable := kernelPagetable);
      var load := programLoad(ToI32(pn));
      if load.status >= 0 {
        processes[pid] := processes[pid].(registers := processes[pid].registers.(rip := load.rip));
      }
      o := LoadCheck(load);
      p := processes[pid];
    }

    /** `run(pid)`: make slot pid current, whatever its state, load its page table and
        return to user mode with its registers; `set_pagetable` may halt instead. */
    method Run(pid: nat, vm: KernelPageTables) returns (d: Dispatch)
      requires Valid()
      modifies this, vm
      ensures Valid()
      ensures vm.frames == old(vm.frames) && vm.kernelPagetable == old(vm.kernelPagetable)
      ensures pid >= NPROC ==> d == Stopped(IndexOutOfBounds) && current == old(current) && vm.cr3 == old(vm.cr3)
      ensures pid < NPROC ==>
        var o := PagetableCheck(vm.frames, vm.kernelPagetable, vm.handler, processes[pid].pagetable);
        && current == Some(pid)
        && d == RunDispatch(o, pid, processes[pid].registers)
        && vm.cr3 == if o == Continue then Some(processes[pid].pagetable) else old(vm.cr3)
    {
      if pid >= processes.Length {
        return Stopped(IndexOutOfBounds);
      }
      current := Some(pid);
      var o := vm.SetPagetable(processes[pid].pagetable);
      d := RunDispatch(o, pid, processes[pid].registers);
    }

    /** The scanning loop of `schedule()` from slot `start`: probe
        `(pid + 1) % NPROC` repeatedly and report the first runnable slot. After NPROC
        fruitless probes the loop is back where it began, so from then on it would
        only spin; that is reported as None. */
    method FindRunnable(start: nat) returns (found: Option<nat>)
      requires Valid() && start < NPROC
      ensures found == (match NextRunnable(processes[..], start)
                        case Some(k) => Some(Probe(start, k))
                        case None => None)
    {
      ghost var ps := processes[..];
      var pid := start;
      var k := 0;
      while k < NPROC
        invariant k <= NPROC && pid == Probe(start, k)
        invariant forall j | 1 <= j <= k :: ps[Probe(start, j)].state != PRunnable
      {
        pid := (pid + 1) % NPROC;
        k := k + 1;
        ProbeNext(start, k - 1);
        if processes[pid].state == PRunnable {
          NextRunnableAt(ps, start, k);
          return Some(pid);
        }
        // check_keyboard() would end the machine on Control-C; it is not modelled.
      }
      return None;
    }

    /** `schedule()`: from the current process, run the first runnable slot of the
        cyclic scan (NextRunnable); with none runnable it spins forever, and without
        a current process it panics. */
    method Schedule(vm: KernelPageTables) returns (d: Dispatch)
      requires Valid()
      modifies this, vm
      ensures Valid()
      ensures vm.frames == old(vm.frames) && vm.kernelPagetable == old(vm.kernelPagetable)
      ensures old(current).None? ==> d == Stopped(Panic(NO_CURRENT)) && current == None && vm.cr3 == old(vm.cr3)
      ensures old(current).Some? && NextRunnable(processes[..], old(current).value).None? ==>
        d == Spinning && current == old(current) && vm.cr3 == old(vm.cr3)
      ensures old(current).Some? && NextRunnable(processes[..], old(current).value).Some? ==>
        var pid := Probe(old(current).value, NextRunnable(processes[..], old(current).value).value);
        var o := PagetableCheck(vm.frames, vm.kernelPagetable, vm.handler, processes[pid].pagetable);
        && current == Some(pid)
        && d == RunDispatch(o, pid, processes[pid].registers)
        && vm.cr3 == if o == Continue then Some(processes[pid].pagetable) else old(vm.cr3)
    {
      if current.None? {
        return Stopped(Panic(NO_CURRENT));
      }
      var found := FindRunnable(processes[current.value].pid as nat);
      if found.None? {
        return Spinning;
      }
      d := Run(found.value, vm);
    }
  }
}
