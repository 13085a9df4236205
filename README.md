# WeensyOS Rust kernel: a Dafny model of its bookkeeping core

This project models the sequential core of the Rust port of the WeensyOS
teaching kernel found under `starter-code/kernel/`, and proves properties of
that model. The core has six parts:

- **the physical page ledger** (`PhysicalPageInfoTable`): one `{owner, refcount}`
  record per physical page. `pageinfo_init` classifies every page, and the kernel
  has a single allocator, `assign_physical_page`;
- **the page-table manager** (`KernelPageTables`): four-level x86-64 translation
  as described in section 4.5 of the Intel 64 and IA-32 Architectures Software
  Developer's Manual, Volume 3A. `virtual_memory_init` chains the five static
  kernel tables, identity-maps physical memory and checks the result.
  `set_pagetable` is the guard in front of `lcr3`. `virtual_memory_map`,
  `lookup_l1pagetable` and `virtual_memory_lookup` are also here;
- **the process table** (`ProcessTable`) and its round-robin `schedule`, with `run`
  and `process_setup`;
- **the kernel proper**: the boot command selection in `kernel`,
  `Kernel::process_setup`, and the `mapping` and `mem_tog` system calls;
- **the hardware bindings**: page-number and page-entry arithmetic, the flag
  constants, the process descriptor and the packed `VAMapping` record;
- **the `my_assert!` message builder** of the kernel's stdlib: its `itoa` helper,
  and the bounded appends into the 256-byte static `MESSAGE` buffer.

The modules follow the source files:

| module | file |
|---|---|
| `Bits` | machine integers and Rust's `&`, `\|`, `!`, `>>` and `as` casts, on mathematical integers |
| `Wrappers`, `Control` | `Option`; how a kernel step ends (carry on, or halt with a panic message) |
| `Bindings` | `bindings/src/bindings_x86_64.rs`, plus the kernel constants of `bindings_kernel.rs` |
| `PageInfo` | `kernel/src/ph_page_info.rs` |
| `Vm` | `vm/src/vm.rs` |
| `Process` | `kernel/src/process.rs` |
| `Kernel` | `kernel/src/kernel.rs` |
| `AssertMessage` | `stdlib/src/lib.rs` |

The constants follow `starter-code/kernel-rust/bindings/src/bindings_kernel.rs:6-26`:
NPROC = 16, KERNEL_START_ADDR = 0x40000, KERNEL_STACK_TOP = 0x80000,
PROC_START_ADDR = 0x100000, MEMSIZE_PHYSICAL = 0x200000 and NPAGES = 512.
The process states are the abstract values `PFree`, `PRunnable`, `PBlocked` and
`PBroken`.

Each source entity takes the form it has in the source:

- State the source updates in place is a `class` whose methods are proved against
  specification functions: the ledger array, the process array with its `current`
  slot, the kernel's page-table store with `kernel_pagetable` and `%cr3`, the
  `MESSAGE` array, and `DISP_GLOBAL` with physical memory.
- Loops are `while` loops with invariants: `pageinfo_init`, `ProcessTable::new`,
  the scan of `schedule`, the map loop, the identity check, the digit loop of
  `itoa` and the bounded appends.
- Pure computations are functions with lemmas.

Five parts of the code are modelled as written, not as their comments suggest:

- `Kernel::process_setup` edits the copy of the slot that
  `ProcessTable::process_setup` returns (`Proc` is `Copy`). So the stack pointer,
  and the `P_RUNNABLE` state it sets, never reach the table. `Kernel.Kernel.Boot`
  proves that every slot keeps its state across boot.
- The kernel page table's refcount increment in `Kernel::process_setup` is commented
  out, and the model does not increment it.
- `syscall_mapping` checks `W|U` on the record's first byte, but `W|P` on its last.
- `!` on a `u8` is bitwise complement.
- `my_assert!` copies all ten bytes of its `itoa`, and that `itoa` rotates by the
  digit count. `MyAssertMessage` keeps both; the Findings below give the
  corrected versions.

The page-table stubs are modelled from their doc comments:

- The bodies of `virtual_memory_map`, `lookup_l1pagetable` and
  `virtual_memory_lookup` are placeholders (`vm.rs:138-139`, `155-156`,
  `168-173`). Their return values would make `set_pagetable` halt on every table.
  The model implements instead what their doc comments promise, over an abstract
  store `Frames` of 512-entry tables indexed by frame number.
- Some descriptions of the kernel have `map` allocate missing intermediate tables
  on demand. This `virtual_memory_map` is given no allocator, and its comment says
  it returns -1 "because a required page table was not allocated". The model
  follows the code.
  - `map` never allocates.
  - A page whose last-level table cannot be reached with `perm` stops the call with
    -1 when `perm` has `PTE_P`, leaving the pages already mapped in place.
  - Without `PTE_P` nothing is required of such a page, so it is skipped.
- The same descriptions have `process_setup` raise the kernel table's refcount and
  mark the slot runnable. The code does neither, as noted above, and the model
  follows the code.

## Model

| member | source | states |
|---|---|---|
| `Bits.ToI8` | starter-code/kernel/kernel/src/kernel.rs:127 | `owner as i8` keeps the value modulo 256 and is the identity on the `i8` range |
| `Bits.ToI32` | starter-code/kernel/kernel/src/kernel.rs:171 | `rdi as PidT` keeps the value modulo 2^32 and is the identity on the `i32` range |
| `Bits.BitNot` | starter-code/kernel/bindings/src/bindings_x86_64.rs:27 | `!x` at a fixed width stays within that width |
| `Bindings.PageNumber` | starter-code/kernel/bindings/src/bindings_x86_64.rs:22-24 | the page number of an address is at most the address |
| `Bindings.PageNumberIsShift` | starter-code/kernel/bindings/src/bindings_x86_64.rs:22-24 | `ptr >> PAGEOFFBITS` equals `ptr / 4096` on every 64-bit value |
| `Bindings.PteAddr` | starter-code/kernel/bindings/src/bindings_x86_64.rs:26-28 | `pte_addr(e)` is a multiple of 4096, at most e, and within 4096 below e |
| `Bindings.PteAddrIsMask` | starter-code/kernel/bindings/src/bindings_x86_64.rs:26-28 | `e & !0xFFF` on 64 bits is e with its low twelve bits cleared |
| `Bindings.PageOffsetIsMask` | starter-code/kernel/vm/src/vm.rs:90 | `page_offset(a)`, `a & 0xFFF`, is `a % 4096`, and so are an entry's flag bits |
| `Bindings.PteSplit` | starter-code/kernel/bindings/src/bindings_x86_64.rs:26-31 | `pte_addr(e) \| (e & PTE_FLAGS) == e`: an entry splits exactly into frame address and flags |
| `Bindings.PteCompose` | starter-code/kernel/bindings/src/bindings_x86_64.rs:26-31 | an entry built as `frame \| flags` is their sum, and gives back frame and flags |
| `Bindings.FlagMaskOfEntry` | starter-code/kernel/bindings/src/bindings_x86_64.rs:31 | tested against a mask inside PTE_FLAGS, only the flag bits of an entry matter |
| `Bindings.FlagBits` | starter-code/kernel/bindings/src/bindings_x86_64.rs:31-39 | PTE_P, W, U, A, D and PS are the single bits 0, 1, 2, 5, 6 and 7, all inside PTE_FLAGS |
| `Bindings.FlagUnions` | starter-code/kernel/vm/src/vm.rs:45-52 | the flag unions the kernel spells out, such as `PTE_P \| PTE_W \| PTE_U == 7` |
| `Bindings.DefaultProc` | starter-code/kernel/bindings/src/bindings_x86_64.rs:135-145 | `Proc::default()` has pid 0, state P_FREE, a null page table, display_status 0 and zeroed registers |
| `Bindings.NewProc` | starter-code/kernel/bindings/src/bindings_x86_64.rs:147-154 | `Proc::new(pid, state)` has that pid and state and otherwise equals `Proc::default()` |
| `Bindings.EncodeVAMapping` | starter-code/kernel/bindings/src/bindings_x86_64.rs:156-162 | the packed image of a `VAMapping` (i32, usize, i32) is 16 bytes |
| `Bindings.LittleEndianRoundTrip` | starter-code/kernel/bindings/src/bindings_x86_64.rs:156-162 | n little-endian bytes of a value below 2^(8n) read back as that value |
| `Bindings.VAMappingRoundTrip` | starter-code/kernel/bindings/src/bindings_x86_64.rs:156-162 | decoding the 16 packed bytes of a record gives back the record |
| `Bindings.I32Bits` | starter-code/kernel/kernel/src/kernel.rs:150 | the two's-complement bit pattern of an i32 reads back as that i32 |
| `PageInfo.OwnerCode` | starter-code/kernel/kernel/src/ph_page_info.rs:32-36 | every `PageOwner` code is at most 0, and only PoFree's is 0 |
| `PageInfo.InitialInfo` | starter-code/kernel/kernel/src/ph_page_info.rs:66-77 | the record boot writes has refcount 0 or 1, and 0 exactly when the owner is PoFree |
| `PageInfo.InitialInfoReserved` | starter-code/kernel/kernel/src/ph_page_info.rs:66-67 | a reserved page gets owner -1 and refcount 1, even inside the kernel range |
| `PageInfo.InitialInfoKernel` | starter-code/kernel/kernel/src/ph_page_info.rs:68-71 | a non-reserved page of `[KERNEL_START_ADDR, end)`, or the kernel stack page, gets owner -2 and refcount 1 |
| `PageInfo.InitialInfoFree` | starter-code/kernel/kernel/src/ph_page_info.rs:72-77 | every other page gets owner PoFree and refcount 0 |
| `PageInfo.PhysicalPageInfoTable.constructor` | starter-code/kernel/kernel/src/ph_page_info.rs:43-50 | `new()` gives NPAGES entries, each owned by PoFree with refcount 0 |
| `PageInfo.PhysicalPageInfoTable.PageinfoInit` | starter-code/kernel/kernel/src/ph_page_info.rs:55-80 | after init every entry is the InitialInfo of its address (the whole array is InitialLedger), so its refcount is 0 exactly when it is free; the addresses visited are 0, 4096, ..., once each, in increasing order |
| `PageInfo.PhysicalPageInfoTable.GetPageInfoRef` | starter-code/kernel/kernel/src/ph_page_info.rs:84-86 | `get_page_info_ref(pn)` is Some exactly when pn < NPAGES, and then holds entry pn |
| `Vm.CanonicalLow` | starter-code/kernel/vm/src/vm.rs:142-148 | the walk uses the low 48 bits of an address, which are the address itself exactly below 2^48 |
| `Vm.NextTable` | starter-code/kernel/vm/src/vm.rs:142-148 | one level of the walk passes only through an entry that is present and grants perm, to a table of the store |
| `Vm.RootTable` | starter-code/kernel/vm/src/vm.rs:142-148 | the walk starts only from a page-aligned root that is a table of the store |
| `Vm.LookupL1` | starter-code/kernel/vm/src/vm.rs:142-157 | `lookup_l1pagetable` returns a table of the store or null |
| `Vm.WalkPerm` | starter-code/kernel/vm/src/vm.rs:142-148 | asking for more permissions only makes a walk stop earlier; asking for PTE_P alone equals asking for nothing |
| `Vm.PresentIsFlag` | starter-code/kernel/vm/src/vm.rs:123-125 | "present" is `entry & PTE_P == PTE_P` |
| `Vm.MappingAt` | starter-code/kernel/vm/src/vm.rs:159-161 | a reported mapping carries the physical address and the permission bits |
| `Vm.LookupFacts` | starter-code/kernel/vm/src/vm.rs:159-174 | a mapping `virtual_memory_lookup` reports is a present page: pn is the page number of pa, pa has the page offset of va, and perm is the leaf's flags, with PTE_P |
| `Vm.LeafMappingFacts` | starter-code/kernel/vm/src/vm.rs:159-161 | the same, for the translation through one last-level entry |
| `Vm.SameWalksShaped` | starter-code/kernel/vm/src/vm.rs:142-148 | two stores on which every walk reaches the same tables are tree-shaped together |
| `Vm.WriteLeafKeepsWalks` | starter-code/kernel/vm/src/vm.rs:115-121 | writing a last-level entry keeps every walk and the tree shape |
| `Vm.LookupAfterWrite` | starter-code/kernel/vm/src/vm.rs:115-121 | after writing entry j of region r's last-level table, exactly the addresses of that slot translate through the new entry |
| `Vm.LeafEntryIsOr` | starter-code/kernel/vm/src/vm.rs:115-125 | the leaf entry map writes is `pa \| perm`, or `perm` alone when perm lacks PTE_P (pa ignored) |
| `Vm.LeafEntryMapping` | starter-code/kernel/vm/src/vm.rs:115-125 | through that entry an address maps to the same offset from pa with perm, or is unmapped without PTE_P |
| `Vm.SameSlot` | starter-code/kernel/vm/src/vm.rs:115-121 | the last-level slot of an aligned page holds exactly the addresses of that page |
| `Vm.MapPageWalks` | starter-code/kernel/vm/src/vm.rs:115-121 | writing the entry of one page of the range keeps the tree and its walks |
| `Vm.MapPageWrite` | starter-code/kernel/vm/src/vm.rs:115-121 | writing the entry of the next page extends the mapped prefix by that page |
| `Vm.MapPageWriteAt` | starter-code/kernel/vm/src/vm.rs:115-121 | the per-address step of that extension |
| `Vm.MapPageSkip` | starter-code/kernel/vm/src/vm.rs:123-125 | without PTE_P, skipping an unreachable page leaves its translation as it was |
| `Vm.MapComplete` | starter-code/kernel/vm/src/vm.rs:115-121 | once every page of the range is written, every `va + X` with X < sz translates to `pa + X` with perm |
| `Vm.MapCompleteAt` | starter-code/kernel/vm/src/vm.rs:115-121 | the same, at one address |
| `Vm.SamePageWalk` | starter-code/kernel/vm/src/vm.rs:142-148 | two addresses of one page walk to the same last-level table |
| `Vm.LinkEntry` | starter-code/kernel/vm/src/vm.rs:45-52 | an upper-level link `address(f) \| PTE_P \| PTE_W \| PTE_U` is `f * 4096 + 7` |
| `Vm.NewTables` | starter-code/kernel/vm/src/vm.rs:23-33 | `KernelPageTables::new()` is five zeroed tables at consecutive frames |
| `Vm.LinkedTables` | starter-code/kernel/vm/src/vm.rs:45-52 | chaining keeps the five frames |
| `Vm.LinkedEntries` | starter-code/kernel/vm/src/vm.rs:45-52 | after chaining, table 0 entry 0 links to table 1, table 1 entry 0 to table 2, and table 2 entries 0 and 1 to tables 3 and 4; every other entry is 0 |
| `Vm.NextTableLinked` | starter-code/kernel/vm/src/vm.rs:45-52 | a link entry lets the walk through to its table for any perm within P\|W\|U |
| `Vm.NextTableZero` | starter-code/kernel/vm/src/vm.rs:45-52 | a zero entry stops the walk |
| `Vm.RegionIndices` | starter-code/kernel/vm/src/vm.rs:45-52 | a 2 MiB region has L4 index 0 exactly when it is among the first 512 × 512, L4 and L3 index 0 exactly when among the first 512, and then its L2 index is its number |
| `Vm.ChainedL3` | starter-code/kernel/vm/src/vm.rs:45-52 | in the chained tables, the L4 index 0 leads to table 1 and every other index leads nowhere |
| `Vm.ChainedL2` | starter-code/kernel/vm/src/vm.rs:45-52 | the walk reaches table 2 exactly for the first 512 regions |
| `Vm.ChainedL1` | starter-code/kernel/vm/src/vm.rs:45-52 | only regions 0 and 1 have a last-level table, namely tables 3 and 4 |
| `Vm.LinkedChained` | starter-code/kernel/vm/src/vm.rs:45-52 | the tables `virtual_memory_init` links are chained |
| `Vm.ChainedShaped` | starter-code/kernel/vm/src/vm.rs:45-52 | the chained kernel tables form a tree |
| `Vm.RegionZero` | starter-code/kernel/vm/src/vm.rs:55-61 | region 0 is exactly the first MEMSIZE_PHYSICAL bytes |
| `Vm.KernelLookup` | starter-code/kernel/vm/src/vm.rs:54-61 | after the identity map over the chained tables, an address translates to its low 48 bits with P\|W\|U exactly when those bits are below MEMSIZE_PHYSICAL, and is unmapped otherwise; so the range maps to itself and each alias above 2^48 to the same frame |
| `Vm.MapTargetFits` | starter-code/kernel/vm/src/vm.rs:120-121 | for aligned arguments the next page stays in the range and its frame is aligned and addressable |
| `Vm.MapFrames` | starter-code/kernel/vm/src/vm.rs:127-128 | map allocates no table: the store keeps its frames |
| `Vm.MapStop` | starter-code/kernel/vm/src/vm.rs:127-128 | map stops inside the range or at its end |
| `Vm.MapStatus` | starter-code/kernel/vm/src/vm.rs:127-128 | map returns 0 or -1 |
| `Vm.MapFromWrite` | starter-code/kernel/vm/src/vm.rs:115-121 | after writing one page's entry, map goes on from the next page |
| `Vm.MapFromSkip` | starter-code/kernel/vm/src/vm.rs:123-125 | after skipping a page, map goes on from the next page on the same store |
| `Vm.MapFromEnd` | starter-code/kernel/vm/src/vm.rs:127-128 | map ends with the store unchanged at the end of the range, or at an unreachable page when perm has PTE_P |
| `Vm.MapFramesWalks` | starter-code/kernel/vm/src/vm.rs:115-128 | map keeps the tree and every walk through it |
| `Vm.MapStopFacts` | starter-code/kernel/vm/src/vm.rs:127-128 | map stops on a page boundary, and early only at a present-mapping page with no reachable last-level table |
| `Vm.MapFramesPrefix` | starter-code/kernel/vm/src/vm.rs:115-121 | every page before where map stops is mapped as promised, and every other address is as before |
| `Vm.ReachedStep` | starter-code/kernel/vm/src/vm.rs:127-128 | the reached pages of the range grow by one page at a time |
| `Vm.MapFramesReached` | starter-code/kernel/vm/src/vm.rs:127-128 | every page before where a present map stops had a reachable last-level table |
| `Vm.ReachedWrite` | starter-code/kernel/vm/src/vm.rs:127-128 | one written page keeps the tree and walks and extends the reached pages |
| `Vm.MapFromOutcome` | starter-code/kernel/vm/src/vm.rs:115-128 | the whole contract of `virtual_memory_map` on a tree: 0 exactly when every page was reachable (or perm lacks PTE_P), then every `va + X` maps to `pa + X` with perm; -1 only at a present page whose last-level table was not there; other addresses untouched |
| `Vm.MapPages` | starter-code/kernel/vm/src/vm.rs:130-140 | the page-by-page loop of map computes MapFrames and returns MapStatus |
| `Vm.MapPage` | starter-code/kernel/vm/src/vm.rs:130-140 | one page of that loop: write, skip, or stop with the store unchanged, as MapFrames says |
| `Vm.PagetableCheck` | starter-code/kernel/vm/src/vm.rs:86-113 | `set_pagetable` passes exactly when the table is aligned, `default_int_handler` is identity-mapped in it, it is mapped to itself in `kernel_pagetable`, and `kernel_pagetable` is mapped to itself in it; a misaligned table halts before any other check |
| `Vm.KernelFrames` | starter-code/kernel/vm/src/vm.rs:54-61 | the identity map keeps the five kernel frames |
| `Vm.KernelMapSucceeds` | starter-code/kernel/vm/src/vm.rs:54-61 | the identity map of [0, MEMSIZE_PHYSICAL) over the chained tables succeeds and keeps what map promises |
| `Vm.KernelMapping` | starter-code/kernel/vm/src/vm.rs:54-61 | the kernel's translation of an address is unmapped or has P\|W\|U |
| `Vm.KernelMappedFrom` | starter-code/kernel/vm/src/vm.rs:54-61 | after that map, `kernel_pagetable` translates every address as KernelMapping says |
| `Vm.KernelFramesMapped` | starter-code/kernel/vm/src/vm.rs:42-61 | after `virtual_memory_init`, `kernel_pagetable` maps [0, MEMSIZE_PHYSICAL) to itself, and every address above 2^48 with those low bits to the same frame; nothing else |
| `Vm.KernelTranslation` | starter-code/kernel/vm/src/vm.rs:95-105 | under the kernel map an address looks up to itself exactly when it is below MEMSIZE_PHYSICAL (or is the all-ones unmapped address) |
| `Vm.KernelIdentityCheck` | starter-code/kernel/vm/src/vm.rs:63-74 | under the kernel map every page below MEMSIZE_PHYSICAL maps to itself with P and W, so the check loop passes |
| `Vm.KernelPagetableCheck` | starter-code/kernel/vm/src/vm.rs:76-78 | under the kernel map `set_pagetable(kernel_pagetable)` passes exactly when the handler lies in physical memory (or is the all-ones address) and the table lies in physical memory and is aligned |
| `Vm.KernelPageTables.constructor` | starter-code/kernel/vm/src/vm.rs:23-33 | five zeroed tables; `kernel_pagetable` null; nothing loaded in %cr3 |
| `Vm.KernelPageTables.VirtualMemoryInit` | starter-code/kernel/vm/src/vm.rs:39-79 | `kernel_pagetable` becomes table 0, the store becomes KernelFrames; init continues exactly when the identity check and `set_pagetable` pass, loads %cr3 only then, and otherwise panics |
| `Vm.KernelPageTables.ConnectTables` | starter-code/kernel/vm/src/vm.rs:44-52 | the four link writes turn the new tables into LinkedTables |
| `Vm.KernelPageTables.CheckIdentity` | starter-code/kernel/vm/src/vm.rs:63-74 | the check loop passes exactly when every page below MEMSIZE_PHYSICAL maps to itself with P and W, and otherwise stops with one of its two panics |
| `Vm.KernelPageTables.SetPagetable` | starter-code/kernel/vm/src/vm.rs:86-113 | the outcome is PagetableCheck, and %cr3 changes to the table only when every check passes |
| `Vm.KernelPageTables.VirtualMemoryMap` | starter-code/kernel/vm/src/vm.rs:115-140 | map updates the store as MapFrames says and returns MapStatus, with nothing else changed |
| `Process.SetupSlot` | starter-code/kernel/kernel/src/process.rs:38-47 | setup installs `process_init`'s registers and `kernel_pagetable`, and sets %rip only after a successful load; pid, state and display status are kept, on the assumption stated under Left out that `process_init` leaves them alone |
| `Process.LoadCheck` | starter-code/kernel/kernel/src/process.rs:44-45 | setup continues exactly when `program_load` returns a value >= 0, and otherwise fails `my_assert!(r >= 0)` at process.rs line 45 |
| `Process.RunDispatch` | starter-code/kernel/kernel/src/process.rs:60-67 | `run` ends in user mode with the slot's registers exactly when `set_pagetable` passed, and otherwise halts for its reason |
| `Process.Probe` | starter-code/kernel/kernel/src/process.rs:87 | each probe of the scan is a slot index |
| `Process.ProbeNext` | starter-code/kernel/kernel/src/process.rs:87 | each probe is the previous one plus 1, modulo NPROC |
| `Process.FirstRunnableFrom` | starter-code/kernel/kernel/src/process.rs:86-90 | the scan from a probe on finds the first runnable one, or reports none when no later probe is runnable |
| `Process.NextRunnable` | starter-code/kernel/kernel/src/process.rs:82-90 | the scan tries `cur+1, cur+2, ...` modulo NPROC and stops at the first runnable slot, within NPROC probes |
| `Process.NextRunnableAt` | starter-code/kernel/kernel/src/process.rs:86-89 | the scan stops at the first runnable probe |
| `Process.ProbeCovers` | starter-code/kernel/kernel/src/process.rs:86-90 | the probes 1 to NPROC visit every slot |
| `Process.NextRunnableNone` | starter-code/kernel/kernel/src/process.rs:86-93 | the scan finds nothing exactly when no slot at all is runnable |
| `Process.NextRunnableSelf` | starter-code/kernel/kernel/src/process.rs:82-90 | the scan reaches `cur` itself after NPROC probes, exactly when it is the only runnable slot |
| `Process.ProcessTable.constructor` | starter-code/kernel/kernel/src/process.rs:21-31 | `new()` gives slot i pid i and state P_FREE, and no current process |
| `Process.ProcessTable.ProcessSetup` | starter-code/kernel/kernel/src/process.rs:38-48 | only slot pid changes, to SetupSlot; the outcome is LoadCheck; the copy returned is the slot; an index past the table panics |
| `Process.ProcessTable.Run` | starter-code/kernel/kernel/src/process.rs:56-68 | `run(pid)` makes pid current whatever its state, ends as RunDispatch of `set_pagetable`'s check on that slot's table, and loads %cr3 only when the check passes; a pid past the table halts with nothing changed |
| `Process.ProcessTable.FindRunnable` | starter-code/kernel/kernel/src/process.rs:84-93 | the scanning loop reports the slot NextRunnable names, or none when the slots are all not runnable |
| `Process.ProcessTable.Schedule` | starter-code/kernel/kernel/src/process.rs:74-99 | with no current process it panics; with none runnable it spins; otherwise it runs the slot NextRunnable picks, which is runnable |
| `Kernel.Assign` | starter-code/kernel/kernel/src/kernel.rs:119-130 | `assign_physical_page` returns -1 and changes nothing exactly when the address is misaligned, past the ledger, or already referenced; otherwise it returns 0, sets that page's owner and refcount 1, and leaves every other entry unchanged |
| `Kernel.AssignTwice` | starter-code/kernel/kernel/src/kernel.rs:119-130 | assigning the same page twice fails the second time and keeps the first owner |
| `Kernel.AssignKeepsConsistency` | starter-code/kernel/kernel/src/kernel.rs:119-130 | assigning to a real owner keeps "refcount 0 exactly when free" for every entry |
| `Kernel.StackTop` | starter-code/kernel/kernel/src/kernel.rs:99 | the initial %rsp of pid is a page-aligned address at or above PROC_START_ADDR |
| `Kernel.StackPageInMemory` | starter-code/kernel/kernel/src/kernel.rs:99-101 | the stack page `rsp - PAGESIZE` is aligned and lies in physical memory exactly for pids up to 4 |
| `Kernel.BootSetups` | starter-code/kernel/kernel/src/kernel.rs:68-82 | boot performs one to four setups, for pids 1, 2, ... in order, of programs up to 6 |
| `Kernel.BootSetupsDefault` | starter-code/kernel/kernel/src/kernel.rs:77-81 | any other command sets up processes 1 to 4 with programs 0 to 3 |
| `Kernel.BootSetupsSingle` | starter-code/kernel/kernel/src/kernel.rs:69-71 | "fork", "forkexit" and "test" set up process 1 alone, with programs 4, 5 and 6 |
| `Kernel.BootSetupsTest2` | starter-code/kernel/kernel/src/kernel.rs:72-76 | "test2" sets up program 6 as process 1 and as process 2 |
| `Kernel.Kernel.constructor` | starter-code/kernel/kernel/src/kernel.rs:43-48 | `Kernel::new()` holds a new process table and a new ledger |
| `Kernel.Kernel.AssignPhysicalPage` | starter-code/kernel/kernel/src/kernel.rs:119-130 | the ledger and result are those of Assign |
| `Kernel.Kernel.ProcessSetup` | starter-code/kernel/kernel/src/kernel.rs:94-112 | slots, ledger, store and outcome (for pid < NPROC) are those of SetupOne: the slot is set up as SetupSlot says, and on a successful load the returned copy gets %rsp = StackTop(pid) and state P_RUNNABLE, its stack page is assigned to pid and mapped P\|W\|U; the slot itself keeps its state |
| `Kernel.Kernel.GiveStack` | starter-code/kernel/kernel/src/kernel.rs:99-111 | the copy gets its stack pointer and state, and the ledger and store change as Assign and MapFrames say |
| `Kernel.Kernel.Boot` | starter-code/kernel/kernel/src/kernel.rs:54-87 | slots, ledger and store end as SetupAll of BootSetups(command) says, starting from the ledger `pageinfo_init` leaves (InitialLedger); boot stops with the failed load's reason, or else runs process 1, which becomes current, and dispatches as `run(1)` does on PagetableCheck of its page table; every slot keeps its state and boot never spins |
| `Kernel.SetupOne` | starter-code/kernel/kernel/src/kernel.rs:94-112 | one setup of process pid keeps the table and ledger sizes |
| `Kernel.SetupAll` | starter-code/kernel/kernel/src/kernel.rs:68-82 | the setups in order, stopping at the first failed load, keep the table and ledger sizes |
| `Kernel.SetupAllStates` | starter-code/kernel/kernel/src/kernel.rs:94-112 | the setups leave every slot's state as it was |
| `Kernel.SetupAllOutcome` | starter-code/kernel/kernel/src/kernel.rs:68-82 | boot's setups all go through exactly when every program loads with status >= 0; otherwise they stop with the assertion at process.rs:45 |
| `Kernel.SetupAllSlots` | starter-code/kernel/kernel/src/kernel.rs:68-82 | with distinct pids, after setups that all go through each named slot is SetupSlot of its old value and its program's load, and every other slot is unchanged |
| `Kernel.SetupAllLedger` | starter-code/kernel/kernel/src/kernel.rs:99-111 | the setups change no ledger entry other than the stack pages of the pids they name |
| `Kernel.BootSetupsDistinct` | starter-code/kernel/kernel/src/kernel.rs:68-82 | every command sets up distinct pids below NPROC |
| `Kernel.RecordEnd` | starter-code/kernel/kernel/src/kernel.rs:153 | the record's last byte is `rdi + 15` when that does not wrap |
| `Kernel.MappingCopy` | starter-code/kernel/kernel/src/kernel.rs:143-166 | `syscall_mapping` copies something exactly when lookup(rdi) has W and U and lookup(rdi + 15) has W and P; then it is lookup(rsi), at the physical address lookup(rdi) reports |
| `Kernel.MappingNeedsMappedRecord` | starter-code/kernel/kernel/src/kernel.rs:147-152 | an unmapped %rdi writes nothing |
| `Kernel.Span` | starter-code/kernel/kernel/src/kernel.rs:164 | the n byte addresses one `memcpy` touches |
| `Kernel.Store` | starter-code/kernel/kernel/src/kernel.rs:161-166 | `memcpy` writes exactly the copied bytes at their addresses and leaves every other byte alone |
| `Kernel.Fetch` | starter-code/kernel/kernel/src/kernel.rs:161-166 | reading n bytes gives the bytes at those addresses |
| `Kernel.MappingCopyReadsBack` | starter-code/kernel/kernel/src/kernel.rs:160-166 | after the copy, the 16 bytes at the destination decode to lookup(rsi) |
| `Kernel.FlipByte` | starter-code/kernel/kernel/src/kernel.rs:175 | `!x` on a u8 always changes the byte |
| `Kernel.FlipByteTwice` | starter-code/kernel/kernel/src/kernel.rs:175-181 | `!` on a u8 applied twice restores the byte |
| `Kernel.MemTog` | starter-code/kernel/kernel/src/kernel.rs:170-183 | target 0 complements DISP_GLOBAL; the caller's own pid within [1, NPROC] complements its display_status; any other target changes nothing |
| `Kernel.MemTogTwice` | starter-code/kernel/kernel/src/kernel.rs:170-183 | the same toggle applied twice restores both flags |
| `Kernel.MemTogChangesOne` | starter-code/kernel/kernel/src/kernel.rs:170-183 | a toggle changes at most one of the two flags, and nothing else of the process |
| `Kernel.SyscallState.constructor` | starter-code/kernel/kernel/src/kernel.rs:34 | DISP_GLOBAL starts at 1 |
| `Kernel.SyscallState.SyscallMapping` | starter-code/kernel/kernel/src/kernel.rs:134-167 | memory changes by the copy MappingCopy names and not at all otherwise; DISP_GLOBAL is unchanged |
| `Kernel.SyscallState.SyscallMemTog` | starter-code/kernel/kernel/src/kernel.rs:170-183 | DISP_GLOBAL and the process change as MemTog says; memory is unchanged |
| `AssertMessage.Bytes` | starter-code/kernel/stdlib/src/lib.rs:53 | `as_bytes()` gives one byte per character: its code modulo 256, which is the UTF-8 encoding for ASCII (below U+0080), the only text this kernel passes |
| `AssertMessage.Zeros` | starter-code/kernel/stdlib/src/lib.rs:17 | `[0u8; k]` is k NUL bytes |
| `AssertMessage.Decimal` | starter-code/kernel/stdlib/src/lib.rs:23-31 | the decimal digits of n are at least one digit, all in '0'..'9', with no leading zero |
| `AssertMessage.DecimalValue` | starter-code/kernel/stdlib/src/lib.rs:23-31 | the digits read back as n |
| `AssertMessage.DecimalLength` | starter-code/kernel/stdlib/src/lib.rs:16-18 | n has at most k digits exactly when n < 10^k |
| `AssertMessage.U32Digits` | starter-code/kernel/stdlib/src/lib.rs:16-18 | a u32 has at most ten digits, so they fit the buffer |
| `AssertMessage.Filled` | starter-code/kernel/stdlib/src/lib.rs:20-31 | the buffer after the digit loop is ten bytes |
| `AssertMessage.FillStart` | starter-code/kernel/stdlib/src/lib.rs:18-35 | `start` is an index of the buffer |
| `AssertMessage.RotateLeft` | starter-code/kernel/stdlib/src/lib.rs:36 | `rotate_left(k)` keeps the length and moves element i + k to i, wrapping the first k to the end |
| `AssertMessage.AsWrittenBytes` | starter-code/kernel/stdlib/src/lib.rs:33-38 | `itoa` as written returns ten bytes |
| `AssertMessage.ItoaBytes` | starter-code/kernel/stdlib/src/lib.rs:33-34 | the meant `itoa` returns ten bytes |
| `AssertMessage.ItoaFill` | starter-code/kernel/stdlib/src/lib.rs:17-31 | the digit part of `itoa` leaves the digits of n at the end of the buffer, NUL before them, with `start` as FillStart says |
| `AssertMessage.WriteDigits` | starter-code/kernel/stdlib/src/lib.rs:23-31 | the loop writes the digits of n, least significant first, from index 9 down, leaving NUL before them; it stops at index 0 or at the slot before the first digit |
| `AssertMessage.DigitRound` | starter-code/kernel/stdlib/src/lib.rs:24-29 | one round writes the last digit of m at i, leaves the digits of m / 10 to do, and none once index 0 is written |
| `AssertMessage.Lead` | starter-code/kernel/stdlib/src/lib.rs:23 | the digits still to be written are those of m while m > 0 |
| `AssertMessage.LeadStep` | starter-code/kernel/stdlib/src/lib.rs:24-25 | the digits of m are those of m / 10, then `m % 10 + '0'` |
| `AssertMessage.FillDone` | starter-code/kernel/stdlib/src/lib.rs:23-31 | when the loop is done the buffer is Filled(n) and the first digit is at 10 minus the digit count |
| `AssertMessage.ItoaAsWritten` | starter-code/kernel/stdlib/src/lib.rs:16-39 | `itoa` as written returns the filled buffer rotated left by `9 - start` |
| `AssertMessage.Itoa` | starter-code/kernel/stdlib/src/lib.rs:16-39 | the corrected `itoa` returns the digits of n first, then NUL |
| `AssertMessage.ItoaZero` | starter-code/kernel/stdlib/src/lib.rs:20-21 | `itoa(0)` writes only '0', at index 9, and as written returns the buffer unrotated |
| `AssertMessage.AsWrittenShift` | starter-code/kernel/stdlib/src/lib.rs:35-36 | as written, the rotation `9 - start` is the digit count for one to nine digits, 0 for zero and 9 for ten digits |
| `AssertMessage.AsWrittenLeadingNul` | starter-code/kernel/stdlib/src/lib.rs:33-38 | as written, a number of fewer than five digits comes back with a NUL first |
| `AssertMessage.AsWritten45` | starter-code/kernel/stdlib/src/lib.rs:33-38 | as written, `itoa(45)` is six NULs, "45" and two NULs |
| `AssertMessage.AsWrittenFiveDigits` | starter-code/kernel/stdlib/src/lib.rs:33-38 | as written, every five-digit number comes back as meant |
| `AssertMessage.AsWrittenRepdigit` | starter-code/kernel/stdlib/src/lib.rs:33-38 | as written, 1111111111 also comes back as meant, since rotating ten equal digits changes nothing |
| `AssertMessage.CText` | starter-code/kernel/stdlib/src/lib.rs:85 | what `c_panic` reads from the buffer is the bytes before its first NUL |
| `AssertMessage.CTextAppend` | starter-code/kernel/stdlib/src/lib.rs:85 | a NUL-free text followed by more reads as that text, then what the rest reads as |
| `AssertMessage.ItoaReadsBack` | starter-code/kernel/stdlib/src/lib.rs:33-38 | the meant `itoa` reads, as a C string, as the digits of n, whose value is n |
| `AssertMessage.Fit` | starter-code/kernel/stdlib/src/lib.rs:45-81 | what fits in MESSAGE is a prefix of at most 256 bytes: all of it, or the first 256 bytes |
| `AssertMessage.FitAppend` | starter-code/kernel/stdlib/src/lib.rs:48-52 | appending to what fit appends to the whole message until the buffer is full |
| `AssertMessage.LineShown` | starter-code/kernel/stdlib/src/lib.rs:41-85 | with the meant `itoa`, a NUL-free file name of at most 200 bytes and a line of at most nine digits, the text `c_panic` gets is "Assertion failed at FILE:LINE" |
| `AssertMessage.LineHidden` | starter-code/kernel/stdlib/src/lib.rs:41-85 | with `itoa` as written and a line of fewer than five digits, the text stops at "Assertion failed at FILE:" |
| `AssertMessage.PrefixNoNul` | starter-code/kernel/stdlib/src/lib.rs:48 | "Assertion failed at " is 20 bytes with no NUL |
| `AssertMessage.MessageHead` | starter-code/kernel/stdlib/src/lib.rs:48-80 | the message is its head up to the first ':' followed by the rest |
| `AssertMessage.MessageSplit` | starter-code/kernel/stdlib/src/lib.rs:48-80 | the message splits between two parts of the line's bytes |
| `AssertMessage.ShowsUpTo` | starter-code/kernel/stdlib/src/lib.rs:45-85 | a NUL-free text shorter than the buffer followed by a NUL reads back as that text |
| `AssertMessage.MessageBuffer.constructor` | starter-code/kernel/stdlib/src/lib.rs:43 | MESSAGE starts as 256 NUL bytes |
| `AssertMessage.MessageBuffer.Append` | starter-code/kernel/stdlib/src/lib.rs:48-52 | one guarded append writes only while pos < 256, so MESSAGE holds what fits of the message so far, pos is its length, and the bytes after pos are untouched |
| `AssertMessage.MessageBuffer.WriteMessage` | starter-code/kernel/stdlib/src/lib.rs:45-82 | the appends write, in order, what fits in 256 bytes of "Assertion failed at ", the file, ':', the line's bytes, ':', " condition '", the condition, '\'' and NUL; `len` is the final `pos`; later bytes keep the previous message |
| `AssertMessage.MessageBuffer.MyAssertMessageIntended` | starter-code/kernel/stdlib/src/lib.rs:60-66 | with `itoa` corrected and only its digits copied, MESSAGE holds the message with the decimal line number in place |
| `AssertMessage.MessageShown` | starter-code/kernel/stdlib/src/lib.rs:45-85 | with only the digits copied, a NUL-free file and condition totalling at most 210 bytes reach `c_panic` whole: "Assertion failed at FILE:LINE: condition 'CONDITION'" |
| `AssertMessage.MessageBuffer.MyAssertMessage` | starter-code/kernel/stdlib/src/lib.rs:45-82 | MESSAGE starts with what fits of "Assertion failed at ", FILE, ':', the ten bytes `itoa` as written returns, ':', " condition '", CONDITION, '\'' and NUL, in that order; `len` is the final `pos` and at most 256; later bytes keep the previous message |
| `AssertMessage.MessageBounds` | starter-code/kernel/stdlib/src/lib.rs:45-81 | the message is 46 bytes plus the file and the condition, never more than 256 of it is kept, and all of it fits exactly when file and condition total at most 210 bytes |

## Findings

| source | as written | input that shows it | evidently intended | confidence | as-written member | corrected member |
|---|---|---|---|---|---|---|
| starter-code/kernel/stdlib/src/lib.rs:33-36 | `itoa` rotates the buffer left by `9 - start`, the digit count, so the digits do not move to the start | `itoa(45)` returns six NULs, "45" and two NULs; the `my_assert!(r >= 0)` at process.rs line 45 then panics with "Assertion failed at kernel/src/process.rs:" and no line number (LineHidden) | rotate by the index of the first digit, so that the digits come first and read back as the number (ItoaReadsBack, LineShown) | not executed | `AssertMessage.AsWritten45` | `AssertMessage.Itoa` |
| starter-code/kernel/stdlib/src/lib.rs:61-66 | all ten bytes `itoa` returns are copied, the NUL padding included, so the C string ends right after the digits | with `itoa` corrected, `my_assert!(r >= 0)` at line 45 gives "45" and eight NULs; `c_panic` reads "Assertion failed at kernel/src/process.rs:45" and the condition never shows (LineShown) | copy only the digits, so that the condition follows (MessageShown) | not executed | `AssertMessage.LineShown` | `AssertMessage.MessageBuffer.MyAssertMessageIntended` |

`MyAssertMessage` is the code as written and calls `ItoaAsWritten`.
`MyAssertMessageIntended` applies both corrections.

## Left out

- The `virtual_memory_map`, `lookup_l1pagetable` and `virtual_memory_lookup` bodies are placeholders in the source. They are modelled from their doc comments, without allocation, as described above.
- `Vm.LeafEntry`: the leaf entry is written as the sum `pa + perm`; `LeafEntryIsOr` proves this equals `pa | perm`.
- Masks and shifts in general are modelled as division and remainder by powers of two, with lemmas tying them to the bitwise operators of `Bits`.
- `virtual_memory_lookup` on an address with no present mapping: the doc comment does not say what it returns. The model returns pn -1, pa 2^64 - 1 and perm 0 (`UNMAPPED`). `Vm.KernelTranslation` and `Vm.KernelPagetableCheck` therefore mention the all-ones address.
- `Vm.MapFromOutcome` assumes a range below 2^48 and a tree-shaped store, meaning no last-level table shared or used at two levels. Map itself is modelled on every store; `Vm.MapArgs` asks only for aligned, 64-bit arguments and flag-only `perm`.
- `virtual_memory_map`'s `perm` is an `i32`; the model takes it as non-negative flags within PTE_FLAGS.
- `Vm.KernelPageTables.VirtualMemoryInit`: the map result is ignored, as in the source. The contract names the outcome of the check loop but not which address fails first.
- `Vm.KernelPageTables.CheckIdentity` says which of the two panics can occur, but not at which address.
- `virtual_memory_init` is not called from `Kernel::kernel` in this source, and the model does not call it from `Kernel.Kernel.Boot` either. The tables are a separate object passed in.
- `lcr3` is modelled as the `cr3` field.
- `exception_return` and the `loop {}` after it are modelled as the `UserMode` outcome.
- `check_keyboard` and the endless scan when nothing is runnable are modelled as the `Spinning` outcome; Control-C is not modelled.
- `Process.ProcessTable.FindRunnable`: the scan of `schedule` stops after NPROC fruitless probes, because every later probe repeats them.
- `schedule` reads the current pid from the slot `current` points to. The model keeps `current` as an index, and `ProcessTable.Valid` states that slot i holds pid i, as `new` sets it up.
- `process_init` and `program_load` are external. The model takes them as parameters: the registers `process_init` installs, and a function from the program number to the loader's status and `%rip`. `Process.SetupSlot` assumes that `process_init` leaves the pid, state and display status of the slot alone; its C body is not part of this model.
- `physical_memory_isreserved` and the linker symbol `end` are parameters of `PageinfoInit`.
- `hardware_init`, `console_clear` and `timer_init` have no effect on the model's state and are not modelled.
- `c_panic` is not modelled: halting is the `Halted` outcome, and for `my_assert!` the text it would print is the content of MESSAGE.
- `Kernel.Kernel.ProcessSetup`: the results of `assign_physical_page` and `virtual_memory_map` are ignored, as in the source. The copy `p` is returned so the contract can describe it, although the source drops it.
- `syscall_mapping` and `syscall_mem_tog` take `&mut Proc`. The model passes the process by value and returns it where it changes. `memcpy` is `Store` into a byte map of physical memory, kept apart from the page-table store.
- `Kernel.RecordEnd`: `rdi + 15` is taken to wrap at 2^64; an overflow panic of a debug build is not modelled.
- `Kernel.MemTog`: the source's guard `p > NPROC` lets a target equal to NPROC through when it is the caller's pid. The model keeps that, even though no slot has pid NPROC.
- The commented-out exception dispatcher and the empty free functions of kernel.rs (lines 185-523) are left out. So are `memshow.rs`, the program loaders and their ELF records, the `kernel-rust` variants, the build scripts and the lazy singletons of the two `lib.rs` wrapper files: they are outside the core, or commented out.
- Register padding words are not modelled. `Bindings.Registers` keeps the named registers.
- `get_page_info_ref` returns the entry by value, not a mutable reference.
- `AssertMessage.Bytes` is the UTF-8 encoding only for ASCII (below U+0080); it does not encode other characters as multi-byte sequences. Every file name and condition in this kernel is ASCII.
- `file!()` and the condition text are inputs of `MyAssertMessage`. `Process.LoadCheck` records the file, line and condition of the one assertion in process.rs.
- The single-byte appends of `my_assert!` (':', '\'' and NUL), each guarded by `pos < 256`, use the same `Append` as the loops.
- The local `[u8; 10]` of `itoa` is a sequence value, which is what a Rust array is.
- Splitting into helper methods and lemmas changes nothing: `ConnectTables`, `CheckIdentity`, `GiveStack`, `MapPage`, `WriteDigits`, `ItoaFill`, `Append` and `WriteMessage` are parts of one source function each, written out so that each has its own contract.
