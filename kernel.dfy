/** The kernel proper: boot, per-process setup, the physical page allocator
    `assign_physical_page`, and the `mapping` and `mem_tog` system calls. */
module Kernel {
  import opened Bits
  import opened Wrappers
  import opened Bindings
  import opened Control
  import opened Vm
  import opened PageInfo
  import opened Process

  /** `PROC_SIZE`: the stride between the initial stacks of consecutive processes. */
  const PROC_SIZE: nat := 0x40000

  /** `DISP_GLOBAL`'s initial value. */
  const DISP_GLOBAL_INIT: u8 := 1

  // ----- assign_physical_page -----

  /** When `assign_physical_page(addr, _)` refuses: `addr` is not page-aligned, its
      page is past the ledger, or that page is already referenced. */
  predicate AssignRefused(ledger: seq<PhysicalPageInfo>, addr: u64)
  {
    PageOffset(addr) != 0 || PageNumber(addr) >= |ledger| || ledger[PageNumber(addr)].refcount != 0
  }

  /** The ledger and return value after `assign_physical_page(addr, owner)`. */
  function Assign(ledger: seq<PhysicalPageInfo>, addr: u64, owner: nat): (r: (seq<PhysicalPageInfo>, i32))
    ensures r.1 == 0 || r.1 == -1
    ensures r.1 == -1 <==> AssignRefused(ledger, addr)
    ensures r.1 == -1 ==> r.0 == ledger
    ensures r.1 == 0 ==> |r.0| == |ledger| && r.0[PageNumber(addr)] == PhysicalPageInfo(ToI8(owner), 1)
    ensures r.1 == 0 ==> forall pn | 0 <= pn < |ledger| && pn != PageNumber(addr) :: r.0[pn] == ledger[pn]
  {
    if AssignRefused(ledger, addr) then (ledger, -1)
    else (ledger[PageNumber(addr) := PhysicalPageInfo(ToI8(owner), 1)], 0)
  }

  /** A page can be handed out once: assigning it again fails and keeps the first owner. */
  lemma AssignTwice(ledger: seq<PhysicalPageInfo>, addr: u64, first: nat, second: nat)
    requires Assign(ledger, addr, first).1 == 0
    ensures var l1 := Assign(ledger, addr, first).0;
      && Assign(l1, addr, second) == (l1, -1)
      && l1[PageNumber(addr)].owner == ToI8(first)
  {
  }

  /** Assigning to a real owner keeps the ledger's rule that a page is unreferenced
      exactly when it is free. */
  lemma AssignKeepsConsistency(ledger: seq<PhysicalPageInfo>, addr: u64, owner: nat)
    requires ToI8(owner) != OwnerCode(PoFree)
    requires forall pn | 0 <= pn < |ledger| :: RefcountMatchesOwner(ledger[pn])
    ensures var l1 := Assign(ledger, addr, owner).0;
      |l1| == |ledger| && forall pn | 0 <= pn < |l1| :: RefcountMatchesOwner(l1[pn])
  {
    var l1 := Assign(ledger, addr, owner).0;
    forall pn | 0 <= pn < |l1|
      ensures RefcountMatchesOwner(l1[pn])
    {
      if Assign(ledger, addr, owner).1 == 0 && pn == PageNumber(addr) {
        assert l1[pn] == PhysicalPageInfo(ToI8(owner), 1);
      }
    }
  }

  // ----- Kernel::process_setup -----

  /** The initial `%rsp` of process pid, `PROC_START_ADDR + PROC_SIZE * pid`. */
  function StackTop(pid: nat): (rsp: nat)
    ensures rsp % PAGESIZE == 0 && rsp >= PROC_START_ADDR
  {
    DivModUnique(PROC_START_ADDR + PROC_SIZE * pid, PAGESIZE, 256 + 64 * pid, 0);
    PROC_START_ADDR + PROC_SIZE * pid
  }

  /** The stack page of process pid is assignable only for pids 0 .. 4: for higher
      pids it lies past physical memory, so `assign_physical_page` refuses it. */
  lemma StackPageInMemory(pid: nat)
    requires pid < NPROC
    ensures var page := StackTop(pid) - PAGESIZE;
      page % PAGESIZE == 0 && (page < MEMSIZE_PHYSICAL <==> pid <= 4)
  {
    var page := StackTop(pid) - PAGESIZE;
    DivModUnique(page, PAGESIZE, 255 + 64 * pid, 0);
  }

  // ----- the boot selection -----

  /** The `(pid, program_number)` setups that `kernel(command)` performs, in order. */
  function BootSetups(command: string): (s: seq<(nat, nat)>)
    ensures 1 <= |s| <= 4
    ensures forall i | 0 <= i < |s| :: s[i].0 == i + 1
    ensures forall i | 0 <= i < |s| :: s[i].1 <= 6
  {
    match command
    case "fork" => [(1, 4)]
    case "forkexit" => [(1, 5)]
    case "test" => [(1, 6)]
    case "test2" => [(1, 6), (2, 6)]
    case _ => [(1, 0), (2, 1), (3, 2), (4, 3)]
  }

  /** An unrecognised command starts processes 1 .. 4 running programs 0 .. 3. */
  lemma BootSetupsDefault(command: string)
    requires command !in {"fork", "forkexit", "test", "test2"}
    ensures BootSetups(command) == [(1, 0), (2, 1), (3, 2), (4, 3)]
  {
  }

  /** "fork", "forkexit" and "test" start process 1 alone, running programs 4, 5 and 6. */
  lemma BootSetupsSingle()
    ensures BootSetups("fork") == [(1, 4)]
    ensures BootSetups("forkexit") == [(1, 5)]
    ensures BootSetups("test") == [(1, 6)]
  {
  }

  /** "test2" runs program 6 as both process 1 and process 2. */
  lemma BootSetupsTest2()
    ensures BootSetups("test2") == [(1, 6), (2, 6)]
  {
  }

  /** What the setups of `kernel(command)` leave behind: the process slots, the
      ledger, the page-table store, and whether a setup halted. */
  datatype BootEnd = BootEnd(slots: seq<Proc>, ledger: seq<PhysicalPageInfo>, frames: Frames, outcome: Outcome)

  /** Setups name distinct slots of the table, as BootSetups's do. */
  predicate DistinctPids(setups: seq<(nat, nat)>)
  {
    && (forall i | 0 <= i < |setups| :: setups[i].0 < NPROC)
    && (forall i, j | 0 <= i < j < |setups| :: setups[i].0 != setups[j].0)
  }

  /** One `Kernel::process_setup(pid, pn)` on the slots, the ledger and the store:
      the slot is set up whatever the load returns, and a failed load halts before
      the stack page is assigned and mapped. */
  function SetupOne(pid: nat, pn: nat, slots: seq<Proc>, ledger: seq<PhysicalPageInfo>, frames: Frames,
                    kpt: u64, init: Registers, programLoad: i32 -> LoadResult): (e: BootEnd)
    requires |slots| == NPROC && pid < NPROC
    ensures |e.slots| == NPROC && |e.ledger| == |ledger|
  {
    var load := programLoad(ToI32(pn));
    var next := slots[pid := SetupSlot(slots[pid], kpt, init, load)];
    if LoadCheck(load).Halted? then BootEnd(next, ledger, frames, LoadCheck(load))
    else
      var page: u64 := StackTop(pid) - PAGESIZE;
      BootEnd(next, Assign(ledger, page, pid).0, MapFrames(frames, kpt, page, page, PAGESIZE, PTE_PWU, page), Continue)
  }

  /** SetupOne for each `(pid, pn)` in turn; the first failed load halts the rest. */
  function SetupAll(setups: seq<(nat, nat)>, slots: seq<Proc>, ledger: seq<PhysicalPageInfo>, frames: Frames,
                    kpt: u64, init: Registers, programLoad: i32 -> LoadResult): (e: BootEnd)
    requires |slots| == NPROC && forall i | 0 <= i < |setups| :: setups[i].0 < NPROC
    ensures |e.slots| == NPROC && |e.ledger| == |ledger|
    decreases |setups|
  {
    if setups == [] then BootEnd(slots, ledger, frames, Continue)
    else
      var s := SetupOne(setups[0].0, setups[0].1, slots, ledger, frames, kpt, init, programLoad);
      if s.outcome.Halted? then s
      else SetupAll(setups[1..], s.slots, s.ledger, s.frames, kpt, init, programLoad)
  }

  /** Setup never changes a slot's state: only the dropped copy is marked runnable. */
  lemma {:induction false} SetupAllStates(setups: seq<(nat, nat)>, slots: seq<Proc>, ledger: seq<PhysicalPageInfo>,
                                          frames: Frames, kpt: u64, init: Registers, programLoad: i32 -> LoadResult)
    requires |slots| == NPROC && forall i | 0 <= i < |setups| :: setups[i].0 < NPROC
    ensures var e := SetupAll(setups, slots, ledger, frames, kpt, init, programLoad);
      forall i | 0 <= i < NPROC :: e.slots[i].state == slots[i].state
    decreases |setups|
  {
    if setups != [] {
      var s := SetupOne(setups[0].0, setups[0].1, slots, ledger, frames, kpt, init, programLoad);
      if s.outcome == Continue {
        SetupAllStates(setups[1..], s.slots, s.ledger, s.frames, kpt, init, programLoad);
      }
    }
  }

  /** Boot goes on past the setups exactly when every load succeeds; otherwise it
      stops with the failed `my_assert!(r >= 0)` of process.rs. */
  lemma {:induction false} SetupAllOutcome(setups: seq<(nat, nat)>, slots: seq<Proc>, ledger: seq<PhysicalPageInfo>,
                                           frames: Frames, kpt: u64, init: Registers, programLoad: i32 -> LoadResult)
    requires |slots| == NPROC && forall i | 0 <= i < |setups| :: setups[i].0 < NPROC
    ensures var e := SetupAll(setups, slots, ledger, frames, kpt, init, programLoad);
      e.outcome == Continue <==> forall i | 0 <= i < |setups| :: programLoad(ToI32(setups[i].1)).status >= 0
    ensures var e := SetupAll(setups, slots, ledger, frames, kpt, init, programLoad);
      e.outcome.Halted? ==> e.outcome.reason == AssertionFailed(PROCESS_RS, 45, "r >= 0")
    decreases |setups|
  {
    if setups != [] {
      var s := SetupOne(setups[0].0, setups[0].1, slots, ledger, frames, kpt, init, programLoad);
      if s.outcome == Continue {
        SetupAllOutcome(setups[1..], s.slots, s.ledger, s.frames, kpt, init, programLoad);
        assert forall i | 1 <= i < |setups| :: setups[i] == setups[1..][i - 1];
      }
    }
  }

  /** With distinct pids, each slot named by a setup is that setup's SetupSlot of
      the slot's old value once every setup has run, and every slot no setup names
      is unchanged. */
  lemma {:induction false} SetupAllSlots(setups: seq<(nat, nat)>, slots: seq<Proc>, ledger: seq<PhysicalPageInfo>,
                                         frames: Frames, kpt: u64, init: Registers, programLoad: i32 -> LoadResult)
    requires |slots| == NPROC && DistinctPids(setups)
    ensures var e := SetupAll(setups, slots, ledger, frames, kpt, init, programLoad);
      e.outcome == Continue ==> forall i | 0 <= i < |setups| ::
        e.slots[setups[i].0] == SetupSlot(slots[setups[i].0], kpt, init, programLoad(ToI32(setups[i].1)))
    ensures var e := SetupAll(setups, slots, ledger, frames, kpt, init, programLoad);
      forall j | 0 <= j < NPROC && (forall i | 0 <= i < |setups| :: setups[i].0 != j) :: e.slots[j] == slots[j]
    decreases |setups|
  {
    if setups != [] {
      var s := SetupOne(setups[0].0, setups[0].1, slots, ledger, frames, kpt, init, programLoad);
      if s.outcome == Continue {
        var rest := setups[1..];
        assert forall i | 0 <= i < |rest| :: rest[i] == setups[i + 1];
        SetupAllSlots(rest, s.slots, s.ledger, s.frames, kpt, init, programLoad);
      }
    }
  }

  /** Setups change the ledger only at their stack pages. */
  lemma {:induction false} SetupAllLedger(setups: seq<(nat, nat)>, slots: seq<Proc>, ledger: seq<PhysicalPageInfo>,
                                          frames: Frames, kpt: u64, init: Registers, programLoad: i32 -> LoadResult)
    requires |slots| == NPROC && forall i | 0 <= i < |setups| :: setups[i].0 < NPROC
    ensures var e := SetupAll(setups, slots, ledger, frames, kpt, init, programLoad);
      forall pn | 0 <= pn < |ledger| && (forall i | 0 <= i < |setups| :: pn * PAGESIZE != StackTop(setups[i].0) - PAGESIZE) ::
        e.ledger[pn] == ledger[pn]
    decreases |setups|
  {
    if setups != [] {
      var s := SetupOne(setups[0].0, setups[0].1, slots, ledger, frames, kpt, init, programLoad);
      if s.outcome == Continue {
        var rest := setups[1..];
        assert forall i | 0 <= i < |rest| :: rest[i] == setups[i + 1];
        SetupAllLedger(rest, s.slots, s.ledger, s.frames, kpt, init, programLoad);
        var page: u64 := StackTop(setups[0].0) - PAGESIZE;
        forall pn | 0 <= pn < |ledger| && pn * PAGESIZE != page
          ensures s.ledger[pn] == ledger[pn]
        {
          if Assign(ledger, page, setups[0].0).1 == 0 {
            DivModUnique(page, PAGESIZE, PageNumber(page), 0);
          }
        }
      }
    }
  }

  /** Every command sets up distinct slots of the table. */
  lemma BootSetupsDistinct(command: string)
    ensures DistinctPids(BootSetups(command))
  {
  }

  /** The kernel's state: the process table and the physical page ledger. */
  class Kernel {
    const procTable: ProcessTable
    const pageinfoTable: PhysicalPageInfoTable

    ghost predicate Valid()
      reads this, procTable, procTable.processes, pageinfoTable
    {
      procTable.Valid() && pageinfoTable.Valid()
    }

    /** `Kernel::new()`. */
    constructor ()
      ensures Valid() && fresh(procTable) && fresh(procTable.processes)
      ensures fresh(pageinfoTable) && fresh(pageinfoTable.pageinfo)
      ensures procTable.current == None
      ensures forall i | 0 <= i < NPROC :: procTable.processes[i] == NewProc(i, PFree)
      ensures forall pn | 0 <= pn < NPAGES :: pageinfoTable.pageinfo[pn] == FreeInfo()
    {
      procTable := new ProcessTable();
      pageinfoTable := new PhysicalPageInfoTable();
    }

    /** `assign_physical_page(addr, owner)`, as Assign says. */
    method AssignPhysicalPage(addr: u64, owner: nat) returns (r: i32)
      requires pageinfoTable.Valid()
      modifies pageinfoTable.pageinfo
      ensures pageinfoTable.Valid()
      ensures (pageinfoTable.pageinfo[..], r) == Assign(old(pageinfoTable.pageinfo[..]), addr, owner)
    {
      var pn := PageNumber(addr);
      if PageOffset(addr) != 0 || pn >= pageinfoTable.pageinfo.Length || pageinfoTable.pageinfo[pn].refcount != 0 {
        return -1;
      }
      pageinfoTable.pageinfo[pn] := pageinfoTable.pageinfo[pn].(owner := ToI8(owner));
      pageinfoTable.pageinfo[pn] := pageinfoTable.pageinfo[pn].(refcount := 1);
      assert pageinfoTable.pageinfo[..] == old(pageinfoTable.pageinfo[..])[pn := PhysicalPageInfo(ToI8(owner), 1)];
      return 0;
    }

    /** `Kernel::process_setup(pid, program_number)`: set up the slot (ProcessTable's
        ProcessSetup), then give the returned copy its stack: `%rsp` = StackTop(pid),
        the page below it assigned to pid and mapped P|W|U in the copy's page table,
        and the copy marked runnable. The copy is `edited`; it is then dropped, so
        the slot itself keeps its old state. The refcount of `kernel_pagetable` is
        not raised (that line is commented out). */
    method ProcessSetup(pid: nat, pn: nat, vm: KernelPageTables, init: Registers,
                        programLoad: i32 -> LoadResult) returns (o: Outcome, edited: Proc)
      requires Valid()
      modifies procTable.processes, pageinfoTable.pageinfo, vm
      ensures Valid()
      ensures vm.kernelPagetable == old(vm.kernelPagetable) && vm.cr3 == old(vm.cr3)
      ensures pid >= NPROC ==> o == Halted(IndexOutOfBounds)
      ensures pid < NPROC ==>
        && procTable.processes[..] == old(procTable.processes[..])[pid :=
             SetupSlot(old(procTable.processes[pid]), vm.kernelPagetable, init, programLoad(ToI32(pn)))]
        && o == LoadCheck(programLoad(ToI32(pn)))
      ensures o.Halted? ==> pageinfoTable.pageinfo[..] == old(pageinfoTable.pageinfo[..]) && vm.frames == old(vm.frames)
      ensures o == Continue ==>
        var slot := procTable.processes[pid];
        var page: u64 := StackTop(pid) - PAGESIZE;
        && edited == slot.(registers := slot.registers.(rsp := StackTop(pid)), state := PRunnable)
        && pageinfoTable.pageinfo[..] == Assign(old(pageinfoTable.pageinfo[..]), page, pid).0
        && vm.frames == MapFrames(old(vm.frames), vm.kernelPagetable, page, page, PAGESIZE, PTE_PWU, page)
      ensures pid < NPROC ==>
        var s := SetupOne(pid, pn, old(procTable.processes[..]), old(pageinfoTable.pageinfo[..]), old(vm.frames),
                          vm.kernelPagetable, init, programLoad);
        && procTable.processes[..] == s.slots && pageinfoTable.pageinfo[..] == s.ledger
        && vm.frames == s.frames && o == s.outcome
    {
      var p;
      o, p := procTable.ProcessSetup(pid, pn, vm.kernelPagetable, init, programLoad);
      if o.Halted? {
        return o, p;
      }
      // pageinfo[PAGENUMBER(kernel_pagetable)].refcount += 1 is commented out in the source.
      edited := GiveStack(pid, p, vm);
    }

    /** The second half of `Kernel::process_setup`, on the copy `p` of slot pid:
        its stack pointer, its stack page (assigned to pid and mapped P|W|U, both
        results ignored) and its state. */
    method GiveStack(pid: nat, p: Proc, vm: KernelPageTables) returns (edited: Proc)
      requires pageinfoTable.Valid() && pid < NPROC
      modifies pageinfoTable.pageinfo, vm
      ensures pageinfoTable.Valid()
      ensures vm.kernelPagetable == old(vm.kernelPagetable) && vm.cr3 == old(vm.cr3)
      ensures var page: u64 := StackTop(pid) - PAGESIZE;
        && edited == p.(registers := p.registers.(rsp := StackTop(pid)), state := PRunnable)
        && pageinfoTable.pageinfo[..] == Assign(old(pageinfoTable.pageinfo[..]), page, pid).0
        && vm.frames == MapFrames(old(vm.frames), p.pagetable, page, page, PAGESIZE, PTE_PWU, page)
    {
      var q := p.(registers := p.registers.(rsp := StackTop(pid)));
      var stackPage: u64 := q.registers.rsp - PAGESIZE;
      ghost var ledger := pageinfoTable.pageinfo[..];
      ghost var frames := vm.frames;
      var _ := AssignPhysicalPage(stackPage, pid);
      assert pageinfoTable.pageinfo[..] == Assign(ledger, stackPage, pid).0;
      var _ := vm.VirtualMemoryMap(q.pagetable, stackPage, stackPage, PAGESIZE, PTE_PWU);
      assert vm.frames == MapFrames(frames, q.pagetable, stackPage, stackPage, PAGESIZE, PTE_PWU, stackPage);
      q := q.(state := PRunnable);
      edited := q;
    }

    /** `kernel(command)`: classify physical memory, perform BootSetups(command) in
        order as SetupAll says, then `run(1)`. Because each setup marks only a copy
        runnable, every slot keeps its state. */
    method Boot(command: string, vm: KernelPageTables, isReserved: u64 -> bool, endAddr: u64,
                init: Registers, programLoad: i32 -> LoadResult) returns (d: Dispatch)
      requires Valid()
      modifies procTable, procTable.processes, pageinfoTable.pageinfo, vm
      ensures Valid()
      ensures vm.kernelPagetable == old(vm.kernelPagetable)
      ensures var e := SetupAll(BootSetups(command), old(procTable.processes[..]), InitialLedger(isReserved, endAddr),
                                old(vm.frames), old(vm.kernelPagetable), init, programLoad);
        && procTable.processes[..] == e.slots
        && pageinfoTable.pageinfo[..] == e.ledger
        && vm.frames == e.frames
        && (e.outcome.Halted? ==>
              d == Stopped(e.outcome.reason) && procTable.current == old(procTable.current) && vm.cr3 == old(vm.cr3))
        && (e.outcome == Continue ==>
              var o := PagetableCheck(vm.frames, vm.kernelPagetable, vm.handler, e.slots[1].pagetable);
              && procTable.current == Some(1)
              && d == RunDispatch(o, 1, e.slots[1].registers)
              && vm.cr3 == if o == Continue then Some(e.slots[1].pagetable) else old(vm.cr3))
      ensures forall i | 0 <= i < NPROC :: procTable.processes[i].state == old(procTable.processes[i].state)
      ensures d.UserMode? ==> d.pid == 1 && procTable.current == Some(1)
      ensures d.Spinning? ==> false
    {
      ghost var visited := pageinfoTable.PageinfoInit(isReserved, endAddr);
      var setups := BootSetups(command);
      ghost var whole := SetupAll(setups, old(procTable.processes[..]), InitialLedger(isReserved, endAddr),
                                  old(vm.frames), vm.kernelPagetable, init, programLoad);
      var i := 0;
      while i < |setups|
        invariant i <= |setups| && Valid()
        invariant vm.kernelPagetable == old(vm.kernelPagetable) && vm.cr3 == old(vm.cr3)
        invariant procTable.current == old(procTable.current)
        invariant Remaining(whole, setups[i..], vm, init, programLoad)
        invariant forall j | 0 <= j < NPROC :: procTable.processes[j].state == old(procTable.processes[j].state)
      {
        ghost var rest := setups[i..];
        assert rest[1..] == setups[i + 1..];
        var o, _ := ProcessSetup(setups[i].0, setups[i].1, vm, init, programLoad);
        if o.Halted? {
          return Stopped(o.reason);
        }
        i := i + 1;
      }
      d := procTable.Run(1, vm);
    }

    /** The rest of boot: performing `rest` on the current slots, ledger and store
        ends where the whole of boot ends. */
    ghost predicate Remaining(whole: BootEnd, rest: seq<(nat, nat)>, vm: KernelPageTables, init: Registers,
                              programLoad: i32 -> LoadResult)
      reads this, procTable, procTable.processes, pageinfoTable, pageinfoTable.pageinfo, vm
    {
      && Valid() && (forall i | 0 <= i < |rest| :: rest[i].0 < NPROC)
      && whole == SetupAll(rest, procTable.processes[..], pageinfoTable.pageinfo[..], vm.frames,
                           vm.kernelPagetable, init, programLoad)
    }
  }

  // ----- the system calls -----

  /** `syscall_mapping`'s first guard: the caller can write the record at `addr`
      from user mode, `perm & (PTE_W | PTE_U) == PTE_W | PTE_U`. */
  predicate UserWritable(m: VAMapping)
  {
    BitAnd(I32Bits(m.perm), BitOr(PTE_W, PTE_U)) == BitOr(PTE_W, PTE_U)
  }

  /** Its second guard, on the record's last byte: `perm & (PTE_W | PTE_P) == PTE_W | PTE_P`. */
  predicate PresentWritable(m: VAMapping)
  {
    BitAnd(I32Bits(m.perm), BitOr(PTE_W, PTE_P)) == BitOr(PTE_W, PTE_P)
  }

  /** The address of the record's last byte, `rdi + size_of::<VAMapping>() - 1`,
      wrapping at 2^64. */
  function RecordEnd(rdi: u64): (e: u64)
    ensures rdi + SIZE_OF_VAMAPPING - 1 < U64_LIMIT ==> e == rdi + SIZE_OF_VAMAPPING - 1
  {
    (rdi + SIZE_OF_VAMAPPING - 1) % U64_LIMIT
  }

  /** What `syscall_mapping(p)` writes: the lookup of `%rsi`, at the physical
      address of `%rdi`, when both guards pass; nothing otherwise. */
  function MappingCopy(frames: Frames, p: Proc): (c: Option<(nat, VAMapping)>)
    ensures c.Some? <==>
      && UserWritable(Lookup(frames, p.pagetable, p.registers.rdi))
      && PresentWritable(Lookup(frames, p.pagetable, RecordEnd(p.registers.rdi)))
    ensures c.Some? ==> c.value.1 == Lookup(frames, p.pagetable, p.registers.rsi)
    ensures c.Some? ==> c.value.0 == Lookup(frames, p.pagetable, p.registers.rdi).pa
  {
    var map_ := Lookup(frames, p.pagetable, p.registers.rdi);
    if !UserWritable(map_) then None
    else if !PresentWritable(Lookup(frames, p.pagetable, RecordEnd(p.registers.rdi))) then None
    else Some((map_.pa, Lookup(frames, p.pagetable, p.registers.rsi)))
  }

  /** The unmapped sentinel passes neither guard, so an unmapped `%rdi` writes nothing. */
  lemma MappingNeedsMappedRecord(frames: Frames, p: Proc)
    requires Lookup(frames, p.pagetable, p.registers.rdi) == UNMAPPED
    ensures MappingCopy(frames, p).None?
  {
    assert BitAnd(0, 6) == 0;
  }

  /** The n addresses from `at` on. */
  function Span(at: nat, n: nat): (s: set<nat>)
    ensures forall k :: k in s <==> at <= k < at + n
    decreases n
  {
    if n == 0 then {} else {at} + Span(at + 1, n - 1)
  }

  /** Physical memory after `bytes` are stored from address `at` on. */
  function Store(mem: map<nat, u8>, at: nat, bytes: seq<u8>): (m: map<nat, u8>)
    ensures m.Keys == mem.Keys + Span(at, |bytes|)
    ensures forall i | 0 <= i < |bytes| :: m[at + i] == bytes[i]
    ensures forall k | k in mem && !(at <= k < at + |bytes|) :: m[k] == mem[k]
  {
    map k | k in mem.Keys + Span(at, |bytes|) ::
      if at <= k < at + |bytes| then bytes[k - at] else mem[k]
  }

  /** The n bytes of memory from address `at` on. */
  function Fetch(mem: map<nat, u8>, at: nat, n: nat): (bytes: seq<u8>)
    requires Span(at, n) <= mem.Keys
    ensures |bytes| == n && forall i | 0 <= i < n :: bytes[i] == mem[at + i]
  {
    seq(n, i requires 0 <= i < n => mem[at + i])
  }

  /** After `syscall_mapping` has copied a record out, reading the 16 bytes at the
      destination gives back exactly the lookup of `%rsi`. */
  lemma MappingCopyReadsBack(mem: map<nat, u8>, frames: Frames, p: Proc)
    requires MappingCopy(frames, p).Some?
    ensures var c := MappingCopy(frames, p).value;
      var after := Store(mem, c.0, EncodeVAMapping(c.1));
      DecodeVAMapping(Fetch(after, c.0, SIZE_OF_VAMAPPING)) == Lookup(frames, p.pagetable, p.registers.rsi)
  {
    var c := MappingCopy(frames, p).value;
    var after := Store(mem, c.0, EncodeVAMapping(c.1));
    assert Fetch(after, c.0, SIZE_OF_VAMAPPING) == EncodeVAMapping(c.1);
    VAMappingRoundTrip(c.1);
  }

  /** Rust `!x` on a `u8`. */
  function FlipByte(x: u8): (y: u8)
    ensures y != x
  {
    Pow2Values();
    BitNot(x, 8)
  }

  lemma FlipByteTwice(x: u8)
    ensures FlipByte(FlipByte(x)) == x
  {
    Pow2Values();
  }

  /** What `syscall_mem_tog` does to `DISP_GLOBAL` and to the calling process, from
      the target `%rdi as pid_t`: 0 flips the global flag, the caller's own pid (in
      0 .. NPROC) flips its `display_status`, anything else is ignored. */
  function MemTog(disp: u8, p: Proc): (r: (u8, Proc))
    ensures var target := ToI32(p.registers.rdi);
      && r.0 == (if target == 0 then FlipByte(disp) else disp)
      && r.1 == if target != 0 && 0 <= target <= NPROC && target == p.pid
                then p.(displayStatus := FlipByte(p.displayStatus)) else p
  {
    var target := ToI32(p.registers.rdi);
    if target == 0 then (FlipByte(disp), p)
    else if target < 0 || target > NPROC || target != p.pid then (disp, p)
    else (disp, p.(displayStatus := FlipByte(p.displayStatus)))
  }

  /** The same toggle applied twice restores both flags. */
  lemma MemTogTwice(disp: u8, p: Proc)
    ensures var r := MemTog(disp, p); MemTog(r.0, r.1) == (disp, p)
  {
    FlipByteTwice(disp);
    FlipByteTwice(p.displayStatus);
  }

  /** A toggle changes at most one of the two flags, and nothing else of the process. */
  lemma MemTogChangesOne(disp: u8, p: Proc)
    ensures var r := MemTog(disp, p);
      && r.1.(displayStatus := p.displayStatus) == p
      && (r.0 == disp || r.1 == p)
  {
  }

  /** The machine state the system calls touch: the kernel's static `DISP_GLOBAL`
      and the physical memory `memcpy` writes into. */
  class SyscallState {
    var dispGlobal: u8
    var memory: map<nat, u8>

    constructor (memory: map<nat, u8>)
      ensures dispGlobal == DISP_GLOBAL_INIT && this.memory == memory
    {
      dispGlobal := DISP_GLOBAL_INIT;
      this.memory := memory;
    }

    /** `syscall_mapping(p)`: copy the 16-byte record MappingCopy names into memory. */
    method SyscallMapping(p: Proc, vm: KernelPageTables)
      modifies this
      ensures dispGlobal == old(dispGlobal)
      ensures memory == match MappingCopy(vm.frames, p)
                        case None => old(memory)
                        case Some(c) => Store(old(memory), c.0, EncodeVAMapping(c.1))
    {
      var mappingPtr := p.registers.rdi;
      var ptr := p.registers.rsi;
      var map_ := Lookup(vm.frames, p.pagetable, mappingPtr);
      if BitAnd(I32Bits(map_.perm), BitOr(PTE_W, PTE_U)) != BitOr(PTE_W, PTE_U) {
        return;
      }
      var endaddr := RecordEnd(mappingPtr);
      var endMap := Lookup(vm.frames, p.pagetable, endaddr);
      if BitAnd(I32Bits(endMap.perm), BitOr(PTE_W, PTE_P)) != BitOr(PTE_W, PTE_P) {
        return;
      }
      var ptrLookup := Lookup(vm.frames, p.pagetable, ptr);
      memory := Store(memory, map_.pa, EncodeVAMapping(ptrLookup));
    }

    /** `syscall_mem_tog(process)`: MemTog on `DISP_GLOBAL` and the process, which is
        returned as `updated`. */
    method SyscallMemTog(process: Proc) returns (updated: Proc)
      modifies this
      ensures (dispGlobal, updated) == MemTog(old(dispGlobal), process)
      ensures memory == old(memory)
    {
      updated := process;
      var p := ToI32(process.registers.rdi);
      if p == 0 {
        dispGlobal := FlipByte(dispGlobal);
      } else {
        if p < 0 || p > NPROC || p != process.pid {
          return;
        }
        updated := updated.(displayStatus := FlipByte(updated.displayStatus));
      }
    }
  }
}
