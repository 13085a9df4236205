/** The hardware and kernel bindings shared by every part of the kernel:
    memory-layout and page-table constants, page-number and page-entry
    arithmetic, the process descriptor and the lookup result record. */
module Bindings {
  import opened Bits

  // ----- kernel constants -----

  const NPROC: nat := 16
  const KERNEL_START_ADDR: u64 := 0x40000
  const KERNEL_STACK_TOP: u64 := 0x80000
  const PROC_START_ADDR: u64 := 0x100000
  const MEMSIZE_PHYSICAL: u64 := 0x200000
  const NPAGES: nat := MEMSIZE_PHYSICAL / PAGESIZE
  const MEMSIZE_VIRTUAL: u64 := 0x300000

  const INT_HARDWARE: nat := 32
  const INT_TIMER: nat := INT_HARDWARE + 0

  // ----- paging constants -----

  const PAGESIZE: nat := 4096
  const PAGEOFFBITS: nat := 12

  const PTE_FLAGS: nat := 0xFFF
  const PTE_P: nat := 1
  const PTE_W: nat := 2
  const PTE_U: nat := 4
  const PTE_A: nat := 32
  const PTE_D: nat := 64
  const PTE_PS: nat := 128

  const PFERR_PRESENT: nat := 0x1
  const PFERR_WRITE: nat := 0x2
  const PFERR_USER: nat := 0x4

  // ----- interrupt numbers -----

  const INT_DIVIDE: nat := 0x0
  const INT_DEBUG: nat := 0x1
  const INT_BREAKPOINT: nat := 0x3
  const INT_OVERFLOW: nat := 0x4
  const INT_BOUNDS: nat := 0x5
  const INT_INVALIDOP: nat := 0x6
  const INT_DOUBLEFAULT: nat := 0x8
  const INT_INVALIDTSS: nat := 0xa
  const INT_SEGMENT: nat := 0xb
  const INT_STACK: nat := 0xc
  const INT_GPF: nat := 0xd
  const INT_PAGEFAULT: nat := 0xe

  const INT_SYS: nat := 48
  const INT_SYS_PANIC: nat := 48
  const INT_SYS_GETPID: nat := 49
  const INT_SYS_YIELD: nat := 50
  const INT_SYS_PAGE_ALLOC: nat := 51
  const INT_SYS_FORK: nat := 52
  const INT_SYS_EXIT: nat := 53
  const INT_SYS_MAPPING: nat := 54
  const INT_SYS_MEM_TOG: nat := 56
  const INT_SYS_BRK: nat := 57
  const INT_SYS_SBRK: nat := 58

  // ----- page-number and page-entry arithmetic -----

  // The kernel computes these with shifts and masks; the model states them as
  // division and remainder by PAGESIZE, and the lemmas after them prove that the
  // two agree on every 64-bit value.

  /** `page_number(ptr)`, `ptr >> PAGEOFFBITS`. */
  function PageNumber(a: u64): (r: u64)
    ensures r <= a
  {
    a / PAGESIZE
  }

  /** `pte_addr(entry)`, `entry & !PTE_FLAGS`: the entry with its twelve flag bits cleared. */
  function PteAddr(e: u64): (r: u64)
    ensures r % PAGESIZE == 0 && r <= e && e - r < PAGESIZE
  {
    DivModUnique(e - e % PAGESIZE, PAGESIZE, e / PAGESIZE, 0);
    e - e % PAGESIZE
  }

  /** `page_offset(ptr)`, `ptr & PTE_FLAGS`: the low twelve bits of an address. */
  function PageOffset(a: u64): (r: nat)
    ensures r < PAGESIZE
  {
    a % PAGESIZE
  }

  /** The flag bits of an entry, `entry & PTE_FLAGS`. */
  function PteFlags(e: nat): (r: nat)
    ensures r <= PTE_FLAGS
  {
    e % PAGESIZE
  }

  lemma PageNumberIsShift(a: u64)
    ensures PageNumber(a) == Shr(a, PAGEOFFBITS)
  {
    Pow2Values();
    ShrIsDiv(a, PAGEOFFBITS);
  }

  lemma PteAddrIsMask(e: u64)
    ensures PteAddr(e) == BitAnd(e, BitNot(PTE_FLAGS, 64))
  {
    Pow2Values();
    BitAndHighMask(e, 64, 12);
  }

  lemma PageOffsetIsMask(a: u64)
    ensures PageOffset(a) == BitAnd(a, PTE_FLAGS) && PteFlags(a) == BitAnd(a, PTE_FLAGS)
  {
    Pow2Values();
    BitAndLowMask(a, 12);
  }

  /** An entry splits exactly into its frame address and its flag bits. */
  lemma PteSplit(e: u64)
    ensures BitOr(PteAddr(e), PteFlags(e)) == e
  {
    Pow2Values();
    BitOrAligned(PteAddr(e), PteFlags(e), 12);
  }

  /** An entry built as `frame_address | flags` gives back both parts. */
  lemma {:induction false} PteCompose(addr: u64, flags: nat)
    requires addr % PAGESIZE == 0 && flags <= PTE_FLAGS
    ensures BitOr(addr, flags) == addr + flags
    ensures addr + flags < U64_LIMIT ==> PteAddr(addr + flags) == addr && PteFlags(addr + flags) == flags
  {
    Pow2Values();
    BitOrAligned(addr, flags, 12);
    DivModUnique(addr, PAGESIZE, addr / PAGESIZE, 0);
    DivModUnique(addr + flags, PAGESIZE, addr / PAGESIZE, flags);
  }

  /** Only the flag bits of an entry take part in `entry & mask` when the mask is a set of flags. */
  lemma {:induction false} FlagMaskOfEntry(e: nat, mask: nat)
    requires mask <= PTE_FLAGS
    ensures BitAnd(e, mask) == BitAnd(PteFlags(e), mask)
  {
    Pow2Values();
    BitAndLowBits(e, mask, 12);
  }

  /** The permission and status flags are single bits inside PTE_FLAGS, each at its own
      position. */
  lemma FlagBits()
    ensures PTE_P == Pow2(0) && PTE_W == Pow2(1) && PTE_U == Pow2(2)
    ensures PTE_A == Pow2(5) && PTE_D == Pow2(6) && PTE_PS == Pow2(7)
    ensures BitAnd(PTE_P, PTE_FLAGS) == PTE_P && BitAnd(PTE_W, PTE_FLAGS) == PTE_W
    ensures BitAnd(PTE_U, PTE_FLAGS) == PTE_U && BitAnd(PTE_A, PTE_FLAGS) == PTE_A
    ensures BitAnd(PTE_D, PTE_FLAGS) == PTE_D && BitAnd(PTE_PS, PTE_FLAGS) == PTE_PS
  {
    Pow2Values();
    BitAndLowMask(PTE_P, 12);
    BitAndLowMask(PTE_W, 12);
    BitAndLowMask(PTE_U, 12);
    BitAndLowMask(PTE_A, 12);
    BitAndLowMask(PTE_D, 12);
    BitAndLowMask(PTE_PS, 12);
  }

  /** The flag combinations the kernel spells out, such as `PTE_P | PTE_W | PTE_U`. */
  lemma FlagUnions()
    ensures BitOr(BitOr(PTE_P, PTE_W), PTE_U) == 7
    ensures BitOr(PTE_P, PTE_W) == 3 && BitOr(PTE_W, PTE_P) == 3 && BitOr(PTE_W, PTE_U) == 6
    ensures BitAnd(7, 3) == 3 && BitAnd(7, 6) == 6 && BitAnd(7, 7) == 7 && BitAnd(7, 1) == 1
  {
    assert BitOr(1, 2) == 3 && BitOr(2, 1) == 3 && BitOr(3, 4) == 7 && BitOr(2, 4) == 6;
    assert BitAnd(7, 3) == 3 && BitAnd(7, 6) == 6 && BitAnd(7, 7) == 7 && BitAnd(7, 1) == 1;
  }

  // ----- process descriptors -----

  /** `x86_64_registers`: the saved trap frame (padding words omitted). */
  datatype Registers = Registers(
    rax: u64, rcx: u64, rdx: u64, rbx: u64, rbp: u64, rsi: u64, rdi: u64,
    r8: u64, r9: u64, r10: u64, r11: u64, r12: u64, r13: u64, r14: u64, r15: u64,
    fs: u64, gs: u64, intno: u64, err: u64, rip: u64, cs: nat, rflags: u64, rsp: u64, ss: nat)

  function DefaultRegisters(): Registers
  {
    Registers(0, 0, 0, 0, 0, 0, 0, 0, 0, 0, 0, 0, 0, 0, 0, 0, 0, 0, 0, 0, 0, 0, 0, 0)
  }

  /** Process states; the numeric codes are not part of this model. */
  datatype ProcState = PFree | PRunnable | PBlocked | PBroken

  /** `Proc`: a process descriptor; `pagetable` is the address of its root table, 0 for null. */
  datatype Proc = Proc(pid: i32, registers: Registers, state: ProcState, pagetable: u64, displayStatus: u8)

  /** `Proc::default()`. */
  function DefaultProc(): (p: Proc)
    ensures p.pid == 0 && p.state == PFree && p.pagetable == 0 && p.displayStatus == 0
    ensures p.registers == DefaultRegisters()
  {
    Proc(0, DefaultRegisters(), PFree, 0, 0)
  }

  /** `Proc::new(pid, state)`: the default descriptor with only pid and state replaced. */
  function NewProc(pid: i32, state: ProcState): (p: Proc)
    ensures p.pid == pid && p.state == state
    ensures p.(pid := 0, state := PFree) == DefaultProc()
  {
    DefaultProc().(pid := pid, state := state)
  }

  // ----- the lookup result record -----

  /** `VAMapping`: page number, physical address and permission bits of a virtual address. */
  datatype VAMapping = VAMapping(pn: i32, pa: u64, perm: i32)

  /** `size_of::<VAMapping>()` for the packed layout: i32, usize, i32. */
  const SIZE_OF_VAMAPPING: nat := 4 + 8 + 4

  /** The n little-endian bytes of x. */
  function LittleEndian(x: nat, n: nat): (bytes: seq<u8>)
    ensures |bytes| == n
  {
    if n == 0 then [] else [x % 256] + LittleEndian(x / 256, n - 1)
  }

  function FromLittleEndian(bytes: seq<u8>): nat
  {
    if bytes == [] then 0 else bytes[0] + 256 * FromLittleEndian(bytes[1..])
  }

  lemma {:induction false} LittleEndianRoundTrip(x: nat, n: nat)
    requires x < Pow2(8 * n)
    ensures FromLittleEndian(LittleEndian(x, n)) == x
  {
    if n > 0 {
      Pow2Add(8, 8 * (n - 1));
      Pow2Values();
      assert x / 256 < Pow2(8 * (n - 1));
      LittleEndianRoundTrip(x / 256, n - 1);
      assert LittleEndian(x, n)[1..] == LittleEndian(x / 256, n - 1);
    }
  }

  /** The two's-complement bit pattern of an i32. */
  function I32Bits(x: i32): (r: u32)
    ensures ToI32(r) == x
  {
    if x < 0 then x + U32_LIMIT else x
  }

  /** The packed in-memory image of a VAMapping, as `memcpy` copies it out. */
  function EncodeVAMapping(m: VAMapping): (bytes: seq<u8>)
    ensures |bytes| == SIZE_OF_VAMAPPING
  {
    LittleEndian(I32Bits(m.pn), 4) + LittleEndian(m.pa, 8) + LittleEndian(I32Bits(m.perm), 4)
  }

  function DecodeVAMapping(bytes: seq<u8>): VAMapping
    requires |bytes| == SIZE_OF_VAMAPPING
  {
    var pa := FromLittleEndian(bytes[4..12]);
    assert pa < U64_LIMIT by {
      FromLittleEndianBound(bytes[4..12]);
      Pow2Values();
    }
    VAMapping(ToI32(FromLittleEndian(bytes[..4])), pa, ToI32(FromLittleEndian(bytes[12..])))
  }

  lemma {:induction false} FromLittleEndianBound(bytes: seq<u8>)
    ensures FromLittleEndian(bytes) < Pow2(8 * |bytes|)
  {
    if bytes != [] {
      FromLittleEndianBound(bytes[1..]);
      Pow2Add(8, 8 * (|bytes| - 1));
      Pow2Values();
    }
  }

  /** Reading the 16 copied bytes back yields the same record. */
  lemma VAMappingRoundTrip(m: VAMapping)
    ensures DecodeVAMapping(EncodeVAMapping(m)) == m
  {
    var bytes := EncodeVAMapping(m);
    Pow2Values();
    Pow2Add(16, 16);
    assert Pow2(8 * 4) == U32_LIMIT;
    assert Pow2(8 * 8) == U64_LIMIT;
    assert bytes[..4] == LittleEndian(I32Bits(m.pn), 4);
    assert bytes[4..12] == LittleEndian(m.pa, 8);
    assert bytes[12..] == LittleEndian(I32Bits(m.perm), 4);
    LittleEndianRoundTrip(I32Bits(m.pn), 4);
    LittleEndianRoundTrip(m.pa, 8);
    LittleEndianRoundTrip(I32Bits(m.perm), 4);
  }
}
