/** The physical page ledger: one `{owner, refcount}` record per physical page. */
module PageInfo {
  import opened Bits
  import opened Bindings
  import opened Wrappers

  /** `PhysicalPageInfo`: owner is a pid (>= 0) or a negative `PageOwner` code. */
  datatype PhysicalPageInfo = PhysicalPageInfo(owner: i8, refcount: i8)

  /** `PageOwner`, with its `repr(i8)` discriminants given by OwnerCode. */
  datatype PageOwner = PoFree | PoReserved | PoKernel

  function OwnerCode(o: PageOwner): (c: i8)
    ensures c <= 0 && (c == 0 <==> o == PoFree)
  {
    match o
    case PoFree => 0
    case PoReserved => -1
    case PoKernel => -2
  }

  /** The entry every slot holds before initialisation. */
  function FreeInfo(): PhysicalPageInfo
  {
    PhysicalPageInfo(OwnerCode(PoFree), 0)
  }

  /** The ledger's consistency rule: a page is unreferenced exactly when it is free. */
  predicate RefcountMatchesOwner(e: PhysicalPageInfo)
  {
    e.refcount == 0 <==> e.owner == OwnerCode(PoFree)
  }

  /** How boot classifies the page at `addr`: reserved memory first, then the kernel
      image `[KERNEL_START_ADDR, end)` and the kernel stack page, then free. */
  function InitialOwner(addr: u64, isReserved: u64 -> bool, endAddr: u64): PageOwner
  {
    if isReserved(addr) then PoReserved
    else if (KERNEL_START_ADDR <= addr && addr < endAddr) || addr == KERNEL_STACK_TOP - PAGESIZE then PoKernel
    else PoFree
  }

  /** The record boot writes for the page at `addr`. */
  function InitialInfo(addr: u64, isReserved: u64 -> bool, endAddr: u64): (e: PhysicalPageInfo)
    ensures RefcountMatchesOwner(e)
    ensures e.refcount == 0 || e.refcount == 1
  {
    var o := InitialOwner(addr, isReserved, endAddr);
    PhysicalPageInfo(OwnerCode(o), if o != PoFree then 1 else 0)
  }

  /** Reserved memory wins over the kernel range. */
  lemma InitialInfoReserved(addr: u64, isReserved: u64 -> bool, endAddr: u64)
    requires isReserved(addr)
    ensures InitialInfo(addr, isReserved, endAddr) == PhysicalPageInfo(-1, 1)
  {
  }

  lemma InitialInfoKernel(addr: u64, isReserved: u64 -> bool, endAddr: u64)
    requires !isReserved(addr)
    requires (KERNEL_START_ADDR <= addr < endAddr) || addr == KERNEL_STACK_TOP - PAGESIZE
    ensures InitialInfo(addr, isReserved, endAddr) == PhysicalPageInfo(-2, 1)
  {
  }

  lemma InitialInfoFree(addr: u64, isReserved: u64 -> bool, endAddr: u64)
    requires !isReserved(addr)
    requires !(KERNEL_START_ADDR <= addr < endAddr) && addr != KERNEL_STACK_TOP - PAGESIZE
    ensures InitialInfo(addr, isReserved, endAddr) == FreeInfo()
  {
  }

  /** The whole ledger as `pageinfo_init` leaves it. */
  function InitialLedger(isReserved: u64 -> bool, endAddr: u64): seq<PhysicalPageInfo>
  {
    seq(NPAGES, pn requires 0 <= pn < NPAGES => InitialInfo(pn * PAGESIZE, isReserved, endAddr))
  }

  /** `PhysicalPageInfoTable`: the fixed `NPAGES`-entry ledger array. */
  class PhysicalPageInfoTable {
    var pageinfo: array<PhysicalPageInfo>

    ghost predicate Valid()
      reads this
    {
      pageinfo.Length == NPAGES
    }

    /** `new()`: every page free with refcount 0. */
    constructor ()
      ensures Valid() && fresh(pageinfo)
      ensures forall pn | 0 <= pn < NPAGES :: pageinfo[pn] == FreeInfo()
    {
      pageinfo := new PhysicalPageInfo[NPAGES](_ => FreeInfo());
    }

    /** `pageinfo_init`: classify every page, visiting addresses 0, PAGESIZE, ...
        below MEMSIZE_PHYSICAL once each, in increasing order (`visited`). */
    method PageinfoInit(isReserved: u64 -> bool, endAddr: u64) returns (ghost visited: seq<u64>)
      requires Valid()
      modifies pageinfo
      ensures Valid()
      ensures forall pn | 0 <= pn < NPAGES :: pageinfo[pn] == InitialInfo(pn * PAGESIZE, isReserved, endAddr)
      ensures pageinfo[..] == InitialLedger(isReserved, endAddr)
      ensures forall pn | 0 <= pn < NPAGES :: RefcountMatchesOwner(pageinfo[pn])
      ensures |visited| == NPAGES && forall k | 0 <= k < NPAGES :: visited[k] == k * PAGESIZE
    {
      var addr: u64 := 0;
      visited := [];
      while addr < MEMSIZE_PHYSICAL
        invariant addr % PAGESIZE == 0 && addr <= MEMSIZE_PHYSICAL
        invariant |visited| == addr / PAGESIZE && forall k | 0 <= k < |visited| :: visited[k] == k * PAGESIZE
        invariant forall pn | 0 <= pn < addr / PAGESIZE :: pageinfo[pn] == InitialInfo(pn * PAGESIZE, isReserved, endAddr)
      {
        var owner := InitialOwner(addr, isReserved, endAddr);
        var pn := addr / PAGESIZE;
        pageinfo[pn] := PhysicalPageInfo(OwnerCode(owner), if owner != PoFree then 1 else 0);
        visited := visited + [addr];
        addr := addr + PAGESIZE;
      }
    }

    /** `get_page_info_ref(pn)`: the entry for page `pn`, if there is one. */
    function GetPageInfoRef(pn: nat): (r: Option<PhysicalPageInfo>)
      reads this, pageinfo
      requires Valid()
      ensures r.Some? <==> pn < NPAGES
      ensures r.Some? ==> r.value == pageinfo[pn]
    {
      if pn < pageinfo.Length then Some(pageinfo[pn]) else None
    }
  }
}
