/** The page-table manager: four-level x86-64 translation (section 4.5 of the
    Intel 64 and IA-32 Architectures Software Developer's Manual, Volume 3A)
    over an abstract store of 512-entry tables indexed by frame number. */
module Vm {
  import opened Bits
  import opened Bindings
  import opened Wrappers
  import opened Control

  const ENTRIES: nat := 512
  /** Four-level translation uses the low 48 bits of an address. */
  const ADDR_LIMIT: nat := 0x1_0000_0000_0000
  /** The 2 MiB regions of a 48-bit address space; each has its own last-level slot. */
  const REGIONS: nat := 0x800_0000

  type Table = s: seq<u64> | |s| == ENTRIES witness seq(512, _ => 0)

  /** Page-table frames by frame number; the table of frame f lives at address f * PAGESIZE. */
  type Frames = map<nat, Table>

  function EmptyTable(): Table
  {
    seq(ENTRIES, _ => 0)
  }

  // ----- splitting an address into table indices -----

  function Canonical(a: u64): nat
  {
    a % ADDR_LIMIT
  }

  /** Only an address below 2^48 is its own low 48 bits. */
  lemma CanonicalLow(a: u64)
    ensures Canonical(a) <= a && (Canonical(a) == a <==> a < ADDR_LIMIT)
  {
    DivModUnique(a, ADDR_LIMIT, a / ADDR_LIMIT, a % ADDR_LIMIT);
    if a < ADDR_LIMIT {
      DivModUnique(a, ADDR_LIMIT, 0, a);
    }
  }

  /** The virtual page number, bits 47:12. */
  function Vpn(a: u64): (v: nat)
    ensures v < REGIONS * ENTRIES
  {
    Canonical(a) / PAGESIZE
  }

  /** Bits 47:21: which last-level table translates `a`. */
  function Region(a: u64): (r: nat)
    ensures r < REGIONS
  {
    Vpn(a) / ENTRIES
  }

  /** Bits 20:12: the slot of `a` in its last-level table. */
  function L1Index(a: u64): (i: nat)
    ensures i < ENTRIES
  {
    Vpn(a) % ENTRIES
  }

  /** Bits 47:39, 38:30 and 29:21, taken from a region number. */
  function L4Index(r: nat): (i: nat)
    ensures i < ENTRIES
  {
    (r / (ENTRIES * ENTRIES)) % ENTRIES
  }

  function L3Index(r: nat): (i: nat)
    ensures i < ENTRIES
  {
    (r / ENTRIES) % ENTRIES
  }

  function L2Index(r: nat): (i: nat)
    ensures i < ENTRIES
  {
    r % ENTRIES
  }

  // ----- the walk -----

  /** `entry & PTE_P != 0`; PTE_P is bit 0, so this is the parity of the entry
      (PresentIsFlag). */
  predicate Present(e: nat)
  {
    e % 2 == 1
  }

  lemma PresentIsFlag(e: nat)
    ensures Present(e) <==> BitAnd(e, PTE_P) == PTE_P
  {
    if e != 0 {
      assert BitAnd(e, 1) == 2 * BitAnd(e / 2, 0) + (if e % 2 == 1 then 1 else 0);
    }
  }

  /** An entry through which the walk may pass when it asks for `perm`. */
  predicate Grants(e: nat, perm: nat)
  {
    Present(e) && BitAnd(e, perm) == perm
  }

  /** One level of the walk: from table `f`, follow entry `i` if it grants `perm`
      and names a table of the store. */
  function NextTable(frames: Frames, f: Option<nat>, i: nat, perm: nat): (g: Option<nat>)
    requires i < ENTRIES
    ensures g.Some? ==> g.value in frames
    ensures g.Some? ==> f.Some? && f.value in frames && Grants(frames[f.value][i], perm)
  {
    if f.Some? && f.value in frames && Grants(frames[f.value][i], perm)
       && PageNumber(PteAddr(frames[f.value][i])) in frames
    then Some(PageNumber(PteAddr(frames[f.value][i])))
    else None
  }

  /** The top-level table designated by the pointer `pt`. */
  function RootTable(frames: Frames, pt: u64): (f: Option<nat>)
    ensures f.Some? <==> pt % PAGESIZE == 0 && pt / PAGESIZE in frames
    ensures f.Some? ==> f.value == pt / PAGESIZE
  {
    if PageOffset(pt) == 0 && PageNumber(pt) in frames then Some(PageNumber(pt)) else None
  }

  function L3Table(frames: Frames, pt: u64, r: nat, perm: nat): Option<nat>
  {
    NextTable(frames, RootTable(frames, pt), L4Index(r), perm)
  }

  function L2Table(frames: Frames, pt: u64, r: nat, perm: nat): Option<nat>
  {
    NextTable(frames, L3Table(frames, pt, r, perm), L3Index(r), perm)
  }

  function L1Table(frames: Frames, pt: u64, r: nat, perm: nat): Option<nat>
  {
    NextTable(frames, L2Table(frames, pt, r, perm), L2Index(r), perm)
  }

  /** `lookup_l1pagetable(pagetable, va, perm)`: the last-level table of `va`, or None (null). */
  function LookupL1(frames: Frames, pt: u64, va: u64, perm: nat): (l1: Option<nat>)
    ensures l1.Some? ==> l1.value in frames
  {
    L1Table(frames, pt, Region(va), perm)
  }

  // ----- lookup -----

  /** What a lookup reports for an address with no present mapping. */
  const UNMAPPED: VAMapping := VAMapping(-1, U64_LIMIT - 1, 0)

  function MappingAt(pa: u64, perm: nat): (m: VAMapping)
    requires perm <= PTE_FLAGS
    ensures m.pa == pa && m.perm == perm
  {
    VAMapping(ToI32(PageNumber(pa)), pa, perm)
  }

  lemma AlignedBelowLimit(x: u64)
    requires x % PAGESIZE == 0
    ensures x <= U64_LIMIT - PAGESIZE
  {
    var q := x / PAGESIZE;
    assert x == q * PAGESIZE;
    assert q < U64_LIMIT / PAGESIZE;
  }

  /** The translation of `va` through the last-level entry `e`. */
  function LeafMapping(e: u64, va: u64): (m: VAMapping)
  {
    if Present(e) then
      AlignedBelowLimit(PteAddr(e));
      MappingAt(PteAddr(e) + PageOffset(va), PteFlags(e))
    else UNMAPPED
  }

  /** `virtual_memory_lookup(pagetable, va)`. */
  function Lookup(frames: Frames, pt: u64, va: u64): VAMapping
  {
    match LookupL1(frames, pt, va, PTE_P)
    case None => UNMAPPED
    case Some(l1) => LeafMapping(frames[l1][L1Index(va)], va)
  }

  /** A mapping lookup reports is a present page: its page number is that of its
      physical address, whose page offset is that of `va`, under the leaf's flags. */
  lemma LookupFacts(frames: Frames, pt: u64, va: u64)
    ensures var m := Lookup(frames, pt, va);
      m != UNMAPPED ==> m.pn == ToI32(m.pa / PAGESIZE) && m.pa % PAGESIZE == va % PAGESIZE
    ensures var m := Lookup(frames, pt, va);
      m != UNMAPPED ==> 0 <= m.perm <= PTE_FLAGS && Present(m.perm)
  {
    var l1 := LookupL1(frames, pt, va, PTE_P);
    if l1.Some? {
      LeafMappingFacts(frames[l1.value][L1Index(va)], va);
    }
  }

  lemma LeafMappingFacts(e: u64, va: u64)
    ensures var m := LeafMapping(e, va);
      m != UNMAPPED ==> m.pn == ToI32(m.pa / PAGESIZE) && m.pa % PAGESIZE == va % PAGESIZE
    ensures var m := LeafMapping(e, va);
      m != UNMAPPED ==> 0 <= m.perm <= PTE_FLAGS && Present(m.perm)
  {
    if Present(e) {
      var base := PteAddr(e);
      AlignedBelowLimit(base);
      var pa := base + PageOffset(va);
      DivModUnique(pa, PAGESIZE, base / PAGESIZE, va % PAGESIZE);
      FlagBits();
      FlagMaskOfEntry(e, PTE_P);
    }
  }

  // ----- shape of a page-table tree -----

  /** The tables the walk of region r passes through, ignoring permissions, are
      tree-shaped: the root exists, no two regions share a last-level table, and
      no last-level table doubles as the root or an upper-level table of any region. */
  ghost predicate TreeShaped(frames: Frames, pt: u64)
  {
    && RootTable(frames, pt).Some?
    && (forall r1, r2 | 0 <= r1 < REGIONS && 0 <= r2 < REGIONS
          && L1Table(frames, pt, r1, 0).Some? && L1Table(frames, pt, r1, 0) == L1Table(frames, pt, r2, 0)
          :: r1 == r2)
    && (forall r1, r2 | 0 <= r1 < REGIONS && 0 <= r2 < REGIONS && L1Table(frames, pt, r1, 0).Some? ::
          && L1Table(frames, pt, r1, 0) != RootTable(frames, pt)
          && L1Table(frames, pt, r1, 0) != L3Table(frames, pt, r2, 0)
          && L1Table(frames, pt, r1, 0) != L2Table(frames, pt, r2, 0))
  }

  /** Asking for more permissions can only make a walk stop earlier; asking for
      PTE_P alone is the same as asking for nothing, since every level must be present. */
  lemma NextTablePerm(frames: Frames, f: Option<nat>, i: nat, perm: nat)
    requires i < ENTRIES
    ensures NextTable(frames, f, i, perm).Some? ==> NextTable(frames, f, i, perm) == NextTable(frames, f, i, 0)
    ensures NextTable(frames, f, i, PTE_P) == NextTable(frames, f, i, 0)
  {
  }

  lemma WalkPerm(frames: Frames, pt: u64, r: nat, perm: nat)
    ensures L3Table(frames, pt, r, perm).Some? ==> L3Table(frames, pt, r, perm) == L3Table(frames, pt, r, 0)
    ensures L2Table(frames, pt, r, perm).Some? ==> L2Table(frames, pt, r, perm) == L2Table(frames, pt, r, 0)
    ensures L1Table(frames, pt, r, perm).Some? ==> L1Table(frames, pt, r, perm) == L1Table(frames, pt, r, 0)
    ensures L1Table(frames, pt, r, PTE_P) == L1Table(frames, pt, r, 0)
  {
    NextTablePerm(frames, RootTable(frames, pt), L4Index(r), perm);
    NextTablePerm(frames, RootTable(frames, pt), L4Index(r), PTE_P);
    NextTablePerm(frames, L3Table(frames, pt, r, perm), L3Index(r), perm);
    NextTablePerm(frames, L3Table(frames, pt, r, PTE_P), L3Index(r), PTE_P);
    NextTablePerm(frames, L2Table(frames, pt, r, perm), L2Index(r), perm);
    NextTablePerm(frames, L2Table(frames, pt, r, PTE_P), L2Index(r), PTE_P);
  }

  /** The two stores make every walk reach the same tables. */
  ghost predicate SameWalks(f1: Frames, f2: Frames, pt: u64)
  {
    && f1.Keys == f2.Keys
    && RootTable(f1, pt) == RootTable(f2, pt)
    && forall r, perm | 0 <= r < REGIONS ::
         && L3Table(f1, pt, r, perm) == L3Table(f2, pt, r, perm)
         && L2Table(f1, pt, r, perm) == L2Table(f2, pt, r, perm)
         && L1Table(f1, pt, r, perm) == L1Table(f2, pt, r, perm)
  }

  lemma SameWalksTrans(f1: Frames, f2: Frames, f3: Frames, pt: u64)
    requires SameWalks(f1, f2, pt) && SameWalks(f2, f3, pt)
    ensures SameWalks(f1, f3, pt)
  {
  }

  lemma SameWalksShaped(f1: Frames, f2: Frames, pt: u64)
    requires SameWalks(f1, f2, pt) && TreeShaped(f2, pt)
    ensures TreeShaped(f1, pt)
  {
    forall r1, r2 | 0 <= r1 < REGIONS && 0 <= r2 < REGIONS
      ensures L1Table(f1, pt, r1, 0) == L1Table(f2, pt, r1, 0)
      ensures L2Table(f1, pt, r2, 0) == L2Table(f2, pt, r2, 0)
      ensures L3Table(f1, pt, r2, 0) == L3Table(f2, pt, r2, 0)
    {
    }
  }

  /** Entry j of table f replaced by e. */
  function WriteEntry(frames: Frames, f: nat, j: nat, e: u64): (w: Frames)
    requires f in frames && j < ENTRIES
    ensures w.Keys == frames.Keys
  {
    frames[f := frames[f][j := e]]
  }

  /** Writing into the last-level table of region r0 leaves every walk as it was. */
  lemma {:induction false} WriteLeafKeepsWalks(frames: Frames, pt: u64, r0: nat, j: nat, e: u64)
    requires TreeShaped(frames, pt) && r0 < REGIONS && j < ENTRIES
    requires L1Table(frames, pt, r0, 0).Some?
    ensures SameWalks(WriteEntry(frames, L1Table(frames, pt, r0, 0).value, j, e), frames, pt)
    ensures TreeShaped(WriteEntry(frames, L1Table(frames, pt, r0, 0).value, j, e), pt)
  {
    var l1 := L1Table(frames, pt, r0, 0).value;
    var w := WriteEntry(frames, l1, j, e);
    assert RootTable(w, pt) == RootTable(frames, pt);
    forall r, perm | 0 <= r < REGIONS
      ensures L3Table(w, pt, r, perm) == L3Table(frames, pt, r, perm)
      ensures L2Table(w, pt, r, perm) == L2Table(frames, pt, r, perm)
      ensures L1Table(w, pt, r, perm) == L1Table(frames, pt, r, perm)
    {
      WalkPerm(frames, pt, r, perm);
      var root := RootTable(frames, pt).value;
      assert w[root] == frames[root];
      assert L3Table(w, pt, r, perm) == L3Table(frames, pt, r, perm);
      var t3 := L3Table(frames, pt, r, perm);
      if t3.Some? {
        assert w[t3.value] == frames[t3.value];
      }
      assert L2Table(w, pt, r, perm) == L2Table(frames, pt, r, perm);
      var t2 := L2Table(frames, pt, r, perm);
      if t2.Some? {
        assert w[t2.value] == frames[t2.value];
      }
    }
    SameWalksShaped(w, frames, pt);
  }

  /** After writing entry j of region r0's last-level table, exactly the addresses
      of that slot translate through the new entry. */
  lemma LookupAfterWrite(frames: Frames, pt: u64, r0: nat, j: nat, e: u64, a: u64)
    requires TreeShaped(frames, pt) && r0 < REGIONS && j < ENTRIES
    requires L1Table(frames, pt, r0, 0).Some?
    ensures Lookup(WriteEntry(frames, L1Table(frames, pt, r0, 0).value, j, e), pt, a)
         == if Region(a) == r0 && L1Index(a) == j then LeafMapping(e, a) else Lookup(frames, pt, a)
  {
    var l1 := L1Table(frames, pt, r0, 0).value;
    var w := WriteEntry(frames, l1, j, e);
    WriteLeafKeepsWalks(frames, pt, r0, j, e);
    WalkPerm(frames, pt, Region(a), PTE_P);
    assert LookupL1(w, pt, a, PTE_P) == LookupL1(frames, pt, a, PTE_P);
  }

  // ----- mapping one page -----

  /** The last-level entry map writes: `pa | perm` for a present mapping, and
      `perm` alone (address 0) when perm lacks PTE_P. It is written as a sum
      here; LeafEntryIsOr proves it is that bitwise or. */
  function LeafEntry(perm: nat, pa: int): (e: u64)
    requires perm <= PTE_FLAGS
    requires Present(perm) ==> 0 <= pa < U64_LIMIT && pa % PAGESIZE == 0
  {
    if Present(perm) then
      AlignedBelowLimit(pa);
      pa + perm
    else perm
  }

  lemma LeafEntryIsOr(perm: nat, pa: int)
    requires perm <= PTE_FLAGS
    requires Present(perm) ==> 0 <= pa < U64_LIMIT && pa % PAGESIZE == 0
    ensures LeafEntry(perm, pa) == BitOr(if Present(perm) then pa else 0, perm)
  {
    if Present(perm) {
      PteCompose(pa, perm);
    } else {
      assert BitOr(0, perm) == perm;
    }
  }

  /** Through the entry map writes, an address of the page translates to the
      same offset in the frame at `pa`, with `perm`; without PTE_P it is unmapped. */
  lemma LeafEntryMapping(perm: nat, pa: int, a: u64)
    requires perm <= PTE_FLAGS
    requires Present(perm) ==> 0 <= pa < U64_LIMIT && pa % PAGESIZE == 0
    ensures LeafMapping(LeafEntry(perm, pa), a) == if Present(perm) then MappingAt(pa + a % PAGESIZE, perm) else UNMAPPED
  {
    if Present(perm) {
      AlignedBelowLimit(pa);
      PteCompose(pa, perm);
      FlagMaskOfEntry(pa + perm, PTE_P);
      PresentIsFlag(pa + perm);
      PresentIsFlag(perm);
    }
  }

  /** The slot of an aligned address A holds exactly the addresses of page [A, A + PAGESIZE). */
  lemma SameSlot(base: nat, a: u64)
    requires base % PAGESIZE == 0 && base + PAGESIZE <= ADDR_LIMIT
    ensures (Region(a) == Region(base) && L1Index(a) == L1Index(base)) <==> base <= Canonical(a) < base + PAGESIZE
    ensures base <= Canonical(a) < base + PAGESIZE ==> Canonical(a) - base == a % PAGESIZE
  {
    var c := Canonical(a);
    DivModUnique(base, ADDR_LIMIT, 0, base);
    assert Vpn(base) == base / PAGESIZE;
    var v, w := Vpn(a), Vpn(base);
    if Region(a) == Region(base) && L1Index(a) == L1Index(base) {
      assert v == (v / ENTRIES) * ENTRIES + v % ENTRIES;
      assert w == (w / ENTRIES) * ENTRIES + w % ENTRIES;
      assert v == w;
    }
    if base <= c < base + PAGESIZE {
      DivModUnique(c, PAGESIZE, base / PAGESIZE, c - base);
      DivModUnique(a, PAGESIZE, a / PAGESIZE, a % PAGESIZE);
      var t := a / ADDR_LIMIT;
      assert a == t * ADDR_LIMIT + c;
      assert a == (t * (ADDR_LIMIT / PAGESIZE) + base / PAGESIZE) * PAGESIZE + (c - base);
      DivModUnique(a, PAGESIZE, t * (ADDR_LIMIT / PAGESIZE) + base / PAGESIZE, c - base);
    }
    if v == w {
      DivModUnique(c, PAGESIZE, v, c % PAGESIZE);
    }
  }

  /** Page alignment survives adding and subtracting aligned amounts. */
  lemma Aligned3(x: int, y: int, z: int)
    requires x % PAGESIZE == 0 && y % PAGESIZE == 0 && z % PAGESIZE == 0
    ensures (x + (y - z)) % PAGESIZE == 0
  {
    DivModUnique(x + (y - z), PAGESIZE, x / PAGESIZE + y / PAGESIZE - z / PAGESIZE, 0);
  }

  /** What map promises for an address of the mapped range. */
  function MapTarget(va: u64, pa: u64, perm: nat, a: u64): VAMapping
    requires perm <= PTE_FLAGS && va <= Canonical(a)
    requires Present(perm) ==> pa + (Canonical(a) - va) < U64_LIMIT
  {
    if Present(perm) then MappingAt(pa + (Canonical(a) - va), perm) else UNMAPPED
  }

  /** The pages of [va, lim) have been mapped from `before`: an address among them
      whose last-level table the walk with `perm` reaches translates as map
      promises, and every other address translates as it did. */
  ghost predicate MappedPrefix(frames: Frames, before: Frames, pt: u64, va: u64, pa: u64, perm: nat, lim: nat)
    requires perm <= PTE_FLAGS && va <= lim && (Present(perm) ==> pa + (lim - va) <= U64_LIMIT)
  {
    forall a: u64 :: Lookup(frames, pt, a) ==
      if va <= Canonical(a) < lim && LookupL1(before, pt, a, perm).Some?
      then MapTarget(va, pa, perm, a)
      else Lookup(before, pt, a)
  }

  /** The store after map writes the entry of the page at `page`, whose last-level
      table the walk with `perm` reaches. */
  function MapWrite(frames: Frames, pt: u64, va: u64, pa: u64, perm: nat, page: u64): Frames
    requires va <= page && perm <= PTE_FLAGS
    requires Present(perm) ==> pa + (page - va) < U64_LIMIT && (pa + (page - va)) % PAGESIZE == 0
    requires LookupL1(frames, pt, page, perm).Some?
  {
    WriteEntry(frames, LookupL1(frames, pt, page, perm).value, L1Index(page), LeafEntry(perm, pa + (page - va)))
  }

  /** Writing the entry of the page at `page` keeps the tree and its walks. */
  lemma {:induction false} MapPageWalks(frames: Frames, before: Frames, pt: u64, va: u64, pa: u64, perm: nat, page: u64)
    requires va <= page && perm <= PTE_FLAGS
    requires Present(perm) ==> pa + (page - va) < U64_LIMIT && (pa + (page - va)) % PAGESIZE == 0
    requires TreeShaped(frames, pt) && SameWalks(frames, before, pt)
    requires LookupL1(frames, pt, page, perm).Some?
    ensures TreeShaped(MapWrite(frames, pt, va, pa, perm, page), pt)
    ensures SameWalks(MapWrite(frames, pt, va, pa, perm, page), before, pt)
  {
    WalkPerm(frames, pt, Region(page), perm);
    var w := MapWrite(frames, pt, va, pa, perm, page);
    WriteLeafKeepsWalks(frames, pt, Region(page), L1Index(page), LeafEntry(perm, pa + (page - va)));
    SameWalksTrans(w, frames, before, pt);
  }

  /** Writing the entry of the page at `page` extends the mapped prefix by that page. */
  lemma {:induction false} MapPageWrite(frames: Frames, before: Frames, pt: u64, va: u64, pa: u64, perm: nat, page: u64)
    requires va % PAGESIZE == 0 && pa % PAGESIZE == 0 && perm <= PTE_FLAGS
    requires page % PAGESIZE == 0 && va <= page && page + PAGESIZE <= ADDR_LIMIT
    requires Present(perm) ==> pa + (page - va) + PAGESIZE <= U64_LIMIT
    requires (pa + (page - va)) % PAGESIZE == 0
    requires TreeShaped(frames, pt) && SameWalks(frames, before, pt)
    requires MappedPrefix(frames, before, pt, va, pa, perm, page)
    requires LookupL1(frames, pt, page, perm).Some?
    ensures MappedPrefix(MapWrite(frames, pt, va, pa, perm, page), before, pt, va, pa, perm, page + PAGESIZE)
  {
    var r0 := Region(page);
    var j := L1Index(page);
    var e := LeafEntry(perm, pa + (page - va));
    WalkPerm(frames, pt, r0, perm);
    var w := MapWrite(frames, pt, va, pa, perm, page);
    assert LookupL1(before, pt, page, perm) == LookupL1(frames, pt, page, perm);
    forall a: u64
      ensures Lookup(w, pt, a) ==
        if va <= Canonical(a) < page + PAGESIZE && LookupL1(before, pt, a, perm).Some?
        then MapTarget(va, pa, perm, a)
        else Lookup(before, pt, a)
    {
      LookupAfterWrite(frames, pt, r0, j, e, a);
      SameSlot(page, a);
      MapPageWriteAt(Lookup(w, pt, a), Lookup(frames, pt, a), before, pt, va, pa, perm, page, a);
    }
  }

  /** The per-address step of MapPageWrite, from the facts it needs about `a`. */
  lemma {:induction false} MapPageWriteAt(lw: VAMapping, lf: VAMapping, before: Frames, pt: u64, va: u64, pa: u64, perm: nat, page: u64, a: u64)
    requires va % PAGESIZE == 0 && pa % PAGESIZE == 0 && perm <= PTE_FLAGS
    requires page % PAGESIZE == 0 && va <= page && page + PAGESIZE <= ADDR_LIMIT
    requires Present(perm) ==> pa + (page - va) + PAGESIZE <= U64_LIMIT
    requires (pa + (page - va)) % PAGESIZE == 0
    requires LookupL1(before, pt, page, perm).Some?
    requires lw == if page <= Canonical(a) < page + PAGESIZE
                   then LeafMapping(LeafEntry(perm, pa + (page - va)), a) else lf
    requires lf == if va <= Canonical(a) < page && LookupL1(before, pt, a, perm).Some?
                   then MapTarget(va, pa, perm, a) else Lookup(before, pt, a)
    ensures lw == if va <= Canonical(a) < page + PAGESIZE && LookupL1(before, pt, a, perm).Some?
                  then MapTarget(va, pa, perm, a) else Lookup(before, pt, a)
  {
    SameSlot(page, a);
    if page <= Canonical(a) < page + PAGESIZE {
      LeafEntryMapping(perm, pa + (page - va), a);
      assert LookupL1(before, pt, a, perm) == LookupL1(before, pt, page, perm);
    }
  }

  /** A page whose last-level table is unreachable is skipped; when perm lacks
      PTE_P that leaves its translation as it was. */
  lemma {:induction false} MapPageSkip(frames: Frames, before: Frames, pt: u64, va: u64, pa: u64, perm: nat, page: u64)
    requires va % PAGESIZE == 0 && perm <= PTE_FLAGS && !Present(perm)
    requires page % PAGESIZE == 0 && va <= page && page + PAGESIZE <= ADDR_LIMIT
    requires SameWalks(frames, before, pt)
    requires MappedPrefix(frames, before, pt, va, pa, perm, page)
    requires LookupL1(frames, pt, page, perm).None?
    ensures MappedPrefix(frames, before, pt, va, pa, perm, page + PAGESIZE)
  {
    forall a: u64
      ensures Lookup(frames, pt, a) ==
        if va <= Canonical(a) < page + PAGESIZE && LookupL1(before, pt, a, perm).Some?
        then MapTarget(va, pa, perm, a)
        else Lookup(before, pt, a)
    {
      SameSlot(page, a);
      if page <= Canonical(a) < page + PAGESIZE {
        assert LookupL1(before, pt, a, perm) == LookupL1(frames, pt, page, perm);
      }
    }
  }

  /** The page holding an address of an aligned range lies in that range. */
  lemma PageOf(va: u64, sz: nat, a: u64)
    requires va % PAGESIZE == 0 && sz % PAGESIZE == 0 && va <= a < va + sz
    ensures var page := a - a % PAGESIZE;
      va <= page && page % PAGESIZE == 0 && page + PAGESIZE <= va + sz
  {
    DivModUnique(va, PAGESIZE, va / PAGESIZE, 0);
    DivModUnique(a, PAGESIZE, a / PAGESIZE, a % PAGESIZE);
    DivModUnique(va + sz, PAGESIZE, (va + sz) / PAGESIZE, 0);
    DivModUnique(a - a % PAGESIZE, PAGESIZE, a / PAGESIZE, 0);
    assert va / PAGESIZE <= a / PAGESIZE < (va + sz) / PAGESIZE;
  }

  /** Every page of [va, lim) has a last-level table that the walk with perm reaches. */
  ghost predicate Reached(frames: Frames, pt: u64, va: u64, perm: nat, lim: nat)
  {
    forall a: u64 | va <= a < lim && a % PAGESIZE == 0 :: LookupL1(frames, pt, a, perm).Some?
  }

  /** A completed present mapping: every address of [va, va + sz) translates to the
      same offset from pa, with perm. */
  lemma {:induction false} MapComplete(frames: Frames, before: Frames, pt: u64, va: u64, pa: u64, sz: nat, perm: nat)
    requires va % PAGESIZE == 0 && sz % PAGESIZE == 0 && perm <= PTE_FLAGS && Present(perm)
    requires va + sz <= ADDR_LIMIT && pa + sz <= U64_LIMIT
    requires MappedPrefix(frames, before, pt, va, pa, perm, va + sz)
    requires Reached(before, pt, va, perm, va + sz)
    ensures forall a: u64 | va <= a < va + sz :: Lookup(frames, pt, a) == MappingAt(pa + (a - va), perm)
  {
    forall a: u64 | va <= a < va + sz
      ensures Lookup(frames, pt, a) == MappingAt(pa + (a - va), perm)
    {
      MapCompleteAt(frames, before, pt, va, pa, sz, perm, a);
    }
  }

  /** MapComplete at one address a: its page was reached, so a was mapped. */
  lemma MapCompleteAt(frames: Frames, before: Frames, pt: u64, va: u64, pa: u64, sz: nat, perm: nat, a: u64)
    requires va % PAGESIZE == 0 && sz % PAGESIZE == 0 && perm <= PTE_FLAGS && Present(perm)
    requires va + sz <= ADDR_LIMIT && pa + sz <= U64_LIMIT && va <= a < va + sz
    requires MappedPrefix(frames, before, pt, va, pa, perm, va + sz)
    requires Reached(before, pt, va, perm, va + sz)
    ensures Lookup(frames, pt, a) == MappingAt(pa + (a - va), perm)
  {
    CanonicalLow(a);
    PageOf(va, sz, a);
    var page: u64 := a - a % PAGESIZE;
    SamePageWalk(before, pt, perm, page, a);
    assert LookupL1(before, pt, page, perm).Some?;
    assert Lookup(frames, pt, a) == MapTarget(va, pa, perm, a);
  }

  /** Two addresses of the same page walk to the same last-level table. */
  lemma SamePageWalk(frames: Frames, pt: u64, perm: nat, page: u64, a: u64)
    requires page % PAGESIZE == 0 && page + PAGESIZE <= ADDR_LIMIT && page <= a < page + PAGESIZE
    requires a < ADDR_LIMIT && perm <= PTE_FLAGS
    ensures LookupL1(frames, pt, a, perm) == LookupL1(frames, pt, page, perm)
  {
    DivModUnique(a, ADDR_LIMIT, 0, a);
    SameSlot(page, a);
  }

  // ----- the kernel's own tables -----

  /** `PTE_P | PTE_W | PTE_U`. */
  const PTE_PWU: nat := 7

  /** An upper-level entry pointing at frame f, `address(f) | PTE_P | PTE_W | PTE_U`
      (grouped as `address | (PTE_P | PTE_W | PTE_U)`, `|` being associative). */
  function LinkEntry(f: nat): (e: u64)
    requires f < U64_LIMIT / PAGESIZE
    ensures e == f * PAGESIZE + PTE_PWU
  {
    DivModUnique(f * PAGESIZE, PAGESIZE, f, 0);
    PteCompose(f * PAGESIZE, PTE_PWU);
    FlagUnions();
    BitOr(f * PAGESIZE, BitOr(BitOr(PTE_P, PTE_W), PTE_U))
  }

  /** The five zeroed tables of `KernelPageTables::new()`, at frames base .. base+4. */
  function NewTables(base: nat): (t: Frames)
    ensures t.Keys == {base, base + 1, base + 2, base + 3, base + 4}
    ensures forall f | f in t :: t[f] == EmptyTable()
  {
    map[base := EmptyTable(), base + 1 := EmptyTable(), base + 2 := EmptyTable(),
        base + 3 := EmptyTable(), base + 4 := EmptyTable()]
  }

  /** The tables after `virtual_memory_init` has chained them:
      table 0 entry 0 -> table 1, table 1 entry 0 -> table 2,
      table 2 entry 0 -> table 3 and table 2 entry 1 -> table 4. */
  function LinkedTables(base: nat): (t: Frames)
    requires base + 5 <= U64_LIMIT / PAGESIZE
    ensures t.Keys == NewTables(base).Keys
  {
    NewTables(base)[base := EmptyTable()[0 := LinkEntry(base + 1)]]
                   [base + 1 := EmptyTable()[0 := LinkEntry(base + 2)]]
                   [base + 2 := EmptyTable()[0 := LinkEntry(base + 3)][1 := LinkEntry(base + 4)]]
  }

  /** The entries of the chained tables: the four links, and zero everywhere else. */
  lemma LinkedEntries(base: nat)
    requires base + 5 <= U64_LIMIT / PAGESIZE
    ensures var t := LinkedTables(base);
      && t[base] == EmptyTable()[0 := LinkEntry(base + 1)]
      && t[base + 1] == EmptyTable()[0 := LinkEntry(base + 2)]
      && t[base + 2] == EmptyTable()[0 := LinkEntry(base + 3)][1 := LinkEntry(base + 4)]
      && t[base + 3] == EmptyTable() && t[base + 4] == EmptyTable()
  {
  }

  lemma NextTableLinked(frames: Frames, f: nat, i: nat, g: nat, perm: nat)
    requires f in frames && i < ENTRIES && g in frames && g < U64_LIMIT / PAGESIZE
    requires frames[f][i] == LinkEntry(g) && perm <= PTE_FLAGS && BitAnd(PTE_PWU, perm) == perm
    ensures NextTable(frames, Some(f), i, perm) == Some(g)
  {
    var e := LinkEntry(g);
    DivModUnique(g * PAGESIZE, PAGESIZE, g, 0);
    PteCompose(g * PAGESIZE, PTE_PWU);
    DivModUnique(e, 2, g * (PAGESIZE / 2) + 3, 1);
    FlagMaskOfEntry(e, perm);
  }

  lemma NextTableZero(frames: Frames, f: nat, i: nat, perm: nat)
    requires f in frames && i < ENTRIES && frames[f][i] == 0
    ensures NextTable(frames, Some(f), i, perm) == None
  {
  }

  /** Upper levels of region r: the region number is below 2^18 exactly when its L4
      index is 0, and below 512 exactly when its L4 and L3 indices are both 0. */
  lemma RegionIndices(r: nat)
    requires r < REGIONS
    ensures L4Index(r) == 0 <==> r < ENTRIES * ENTRIES
    ensures (L4Index(r) == 0 && L3Index(r) == 0) <==> r < ENTRIES
    ensures r < ENTRIES ==> L2Index(r) == r
  {
    DivModUnique(r, ENTRIES * ENTRIES, r / (ENTRIES * ENTRIES), r % (ENTRIES * ENTRIES));
    DivModUnique(r, ENTRIES, r / ENTRIES, r % ENTRIES);
    if r < ENTRIES * ENTRIES {
      DivModUnique(r, ENTRIES * ENTRIES, 0, r);
    }
    if r < ENTRIES {
      DivModUnique(r, ENTRIES, 0, r);
    }
    if L4Index(r) == 0 && L3Index(r) == 0 {
      assert r / (ENTRIES * ENTRIES) < ENTRIES;
      assert r / ENTRIES < ENTRIES * ENTRIES / ENTRIES by {
        DivModUnique(r / ENTRIES, ENTRIES, r / (ENTRIES * ENTRIES), (r / ENTRIES) % ENTRIES);
      }
    }
  }

  /** The store holds the five tables chained as `virtual_memory_init` links them. */
  predicate Chained(t: Frames, base: nat)
    requires base + 5 <= U64_LIMIT / PAGESIZE
  {
    && base in t && base + 1 in t && base + 2 in t && base + 3 in t && base + 4 in t
    && t[base] == EmptyTable()[0 := LinkEntry(base + 1)]
    && t[base + 1] == EmptyTable()[0 := LinkEntry(base + 2)]
    && t[base + 2] == EmptyTable()[0 := LinkEntry(base + 3)][1 := LinkEntry(base + 4)]
    && t[base + 4] == EmptyTable()
  }

  lemma ChainedL3(t: Frames, base: nat, r: nat, perm: nat)
    requires base + 5 <= U64_LIMIT / PAGESIZE && Chained(t, base) && r < REGIONS
    requires perm <= PTE_FLAGS && BitAnd(PTE_PWU, perm) == perm
    ensures RootTable(t, base * PAGESIZE) == Some(base)
    ensures L3Table(t, base * PAGESIZE, r, perm) == if r < ENTRIES * ENTRIES then Some(base + 1) else None
  {
    DivModUnique(base * PAGESIZE, PAGESIZE, base, 0);
    RegionIndices(r);
    if L4Index(r) == 0 {
      NextTableLinked(t, base, 0, base + 1, perm);
    } else {
      NextTableZero(t, base, L4Index(r), perm);
    }
  }

  lemma ChainedL2(t: Frames, base: nat, r: nat, perm: nat)
    requires base + 5 <= U64_LIMIT / PAGESIZE && Chained(t, base) && r < REGIONS
    requires perm <= PTE_FLAGS && BitAnd(PTE_PWU, perm) == perm
    ensures L2Table(t, base * PAGESIZE, r, perm) == if r < ENTRIES then Some(base + 2) else None
  {
    ChainedL3(t, base, r, perm);
    RegionIndices(r);
    if r < ENTRIES * ENTRIES {
      if L3Index(r) == 0 {
        NextTableLinked(t, base + 1, 0, base + 2, perm);
      } else {
        NextTableZero(t, base + 1, L3Index(r), perm);
      }
    }
  }

  /** Where each walk through the chained kernel tables ends, for any permission
      that the link entries grant: only regions 0 and 1 have a last-level table. */
  lemma ChainedL1(t: Frames, base: nat, r: nat, perm: nat)
    requires base + 5 <= U64_LIMIT / PAGESIZE && Chained(t, base) && r < REGIONS
    requires perm <= PTE_FLAGS && BitAnd(PTE_PWU, perm) == perm
    ensures L1Table(t, base * PAGESIZE, r, perm) == if r == 0 then Some(base + 3) else if r == 1 then Some(base + 4) else None
  {
    ChainedL2(t, base, r, perm);
    RegionIndices(r);
    if r < ENTRIES {
      if r == 0 {
        NextTableLinked(t, base + 2, 0, base + 3, perm);
      } else if r == 1 {
        NextTableLinked(t, base + 2, 1, base + 4, perm);
      } else {
        NextTableZero(t, base + 2, L2Index(r), perm);
      }
    }
  }

  lemma LinkedChained(base: nat)
    requires base + 5 <= U64_LIMIT / PAGESIZE
    ensures Chained(LinkedTables(base), base)
  {
    LinkedEntries(base);
  }

  /** The chained tables form a tree. */
  lemma ChainedShaped(t: Frames, base: nat)
    requires base + 5 <= U64_LIMIT / PAGESIZE && Chained(t, base)
    ensures TreeShaped(t, base * PAGESIZE)
  {
    var kpt := base * PAGESIZE;
    FlagUnions();
    assert BitAnd(PTE_PWU, 0) == 0;
    ChainedL3(t, base, 0, 0);
    forall r1, r2 | 0 <= r1 < REGIONS && 0 <= r2 < REGIONS
      ensures L1Table(t, kpt, r1, 0).Some? && L1Table(t, kpt, r1, 0) == L1Table(t, kpt, r2, 0) ==> r1 == r2
      ensures L1Table(t, kpt, r1, 0).Some? ==>
        && L1Table(t, kpt, r1, 0) != RootTable(t, kpt)
        && L1Table(t, kpt, r1, 0) != L3Table(t, kpt, r2, 0)
        && L1Table(t, kpt, r1, 0) != L2Table(t, kpt, r2, 0)
    {
      ChainedL1(t, base, r1, 0);
      ChainedL1(t, base, r2, 0);
      ChainedL2(t, base, r2, 0);
      ChainedL3(t, base, r2, 0);
    }
  }

  /** Region 0 is exactly the first 2 MiB, the span of MEMSIZE_PHYSICAL. */
  lemma RegionZero(a: u64)
    ensures Region(a) == 0 <==> Canonical(a) < MEMSIZE_PHYSICAL
  {
    var c := Canonical(a);
    DivModUnique(c, PAGESIZE, c / PAGESIZE, c % PAGESIZE);
    DivModUnique(c / PAGESIZE, ENTRIES, Region(a), L1Index(a));
    if c < MEMSIZE_PHYSICAL {
      assert c / PAGESIZE < ENTRIES;
      DivModUnique(c / PAGESIZE, ENTRIES, 0, c / PAGESIZE);
    }
  }

  /** After the identity map of [0, MEMSIZE_PHYSICAL) over the chained tables, an
      address translates to its low 48 bits, with PTE_P | PTE_W | PTE_U, exactly
      when those bits are below MEMSIZE_PHYSICAL; nothing else is mapped. So an
      address of the range maps to itself, and each alias above 2^48 with the
      same low bits maps to the same frame. */
  lemma {:induction false} KernelLookup(t0: Frames, t: Frames, base: nat, a: u64)
    requires base + 5 <= U64_LIMIT / PAGESIZE && Chained(t0, base)
    requires MappedPrefix(t, t0, base * PAGESIZE, 0, 0, PTE_PWU, MEMSIZE_PHYSICAL)
    ensures Lookup(t, base * PAGESIZE, a) == if Canonical(a) < MEMSIZE_PHYSICAL then MappingAt(Canonical(a), PTE_PWU) else UNMAPPED
  {
    FlagUnions();
    FlagBits();
    RegionZero(a);
    ChainedL1(t0, base, Region(a), PTE_PWU);
    ChainedL1(t0, base, Region(a), PTE_P);
    assert Present(PTE_PWU);
    assert !Present(0);
  }

  // ----- the loop of map -----

  /** Two aligned addresses less than a page apart are equal. */
  lemma AlignedStep(a: int, b: int)
    requires a % PAGESIZE == 0 && b % PAGESIZE == 0 && a < b
    ensures a + PAGESIZE <= b
  {
    DivModUnique(a, PAGESIZE, a / PAGESIZE, 0);
    DivModUnique(b, PAGESIZE, b / PAGESIZE, 0);
  }

  lemma AlignedNext(a: int)
    requires a % PAGESIZE == 0
    ensures (a + PAGESIZE) % PAGESIZE == 0
  {
    DivModUnique(a + PAGESIZE, PAGESIZE, a / PAGESIZE + 1, 0);
  }

  /** What `virtual_memory_map` demands of its arguments: page-aligned addresses
      and size, a range that fits in 64 bits, and flag-only permissions. */
  predicate MapArgs(va: u64, pa: u64, sz: nat, perm: nat)
  {
    && va % PAGESIZE == 0 && pa % PAGESIZE == 0 && sz % PAGESIZE == 0
    && va + sz <= U64_LIMIT && perm <= PTE_FLAGS
    && (Present(perm) ==> pa + sz <= U64_LIMIT)
  }

  /** The page at `a` of the range: the next page is still inside it or its end,
      and the frame map targets for it is page-aligned and, for a present
      mapping, addressable. */
  lemma MapTargetFits(va: u64, pa: u64, sz: nat, perm: nat, a: nat)
    requires MapArgs(va, pa, sz, perm) && va <= a < va + sz && a % PAGESIZE == 0
    ensures (pa + (a - va)) % PAGESIZE == 0 && (a + PAGESIZE) % PAGESIZE == 0
    ensures a + PAGESIZE <= va + sz
    ensures Present(perm) ==> 0 <= pa + (a - va) && pa + (a - va) + PAGESIZE <= U64_LIMIT
  {
    Aligned3(pa, a, va);
    AlignedNext(a);
    Aligned3(va, sz, 0);
    AlignedStep(a, va + sz);
  }

  /** The store after `virtual_memory_map(pt, va, pa, sz, perm)` has handled the
      pages from `a` on, without allocating: a page whose last-level table the walk
      with `perm` reaches gets its entry written; one it cannot reach stops the call
      when perm has PTE_P, and is skipped otherwise. */
  function MapFrames(fr: Frames, pt: u64, va: u64, pa: u64, sz: nat, perm: nat, a: nat): (w: Frames)
    requires MapArgs(va, pa, sz, perm) && va <= a && a % PAGESIZE == 0
    ensures w.Keys == fr.Keys
    decreases va + sz - a
  {
    if a >= va + sz then fr
    else
      MapTargetFits(va, pa, sz, perm, a);
      if LookupL1(fr, pt, a, perm).Some? then
        MapFrames(MapWrite(fr, pt, va, pa, perm, a), pt, va, pa, sz, perm, a + PAGESIZE)
      else if Present(perm) then fr
      else MapFrames(fr, pt, va, pa, sz, perm, a + PAGESIZE)
  }

  /** Where that call stops: the end of the range, or the first page it cannot map. */
  function MapStop(fr: Frames, pt: u64, va: u64, pa: u64, sz: nat, perm: nat, a: nat): (d: nat)
    requires MapArgs(va, pa, sz, perm) && va <= a && a % PAGESIZE == 0
    ensures a <= d && (a <= va + sz ==> d <= va + sz)
    decreases va + sz - a
  {
    if a >= va + sz then a
    else
      MapTargetFits(va, pa, sz, perm, a);
      if LookupL1(fr, pt, a, perm).Some? then
        MapStop(MapWrite(fr, pt, va, pa, perm, a), pt, va, pa, sz, perm, a + PAGESIZE)
      else if Present(perm) then a
      else MapStop(fr, pt, va, pa, sz, perm, a + PAGESIZE)
  }

  /** The value `virtual_memory_map` returns, given where it stopped. */
  function MapStatus(va: u64, sz: nat, d: nat): (r: i32)
    ensures r == 0 || r == -1
  {
    if d >= va + sz then 0 else -1
  }

  /** Map writing the page at `a` continues from the next page on the written store. */
  lemma MapFromWrite(fr: Frames, pt: u64, va: u64, pa: u64, sz: nat, perm: nat, a: nat)
    requires MapArgs(va, pa, sz, perm) && va <= a < va + sz && a % PAGESIZE == 0
    requires LookupL1(fr, pt, a, perm).Some?
    ensures (a + PAGESIZE) % PAGESIZE == 0 && a + PAGESIZE <= va + sz
    ensures (pa + (a - va)) % PAGESIZE == 0
    ensures Present(perm) ==> 0 <= pa + (a - va) && pa + (a - va) + PAGESIZE <= U64_LIMIT
    ensures var w := MapWrite(fr, pt, va, pa, perm, a);
      && MapFrames(fr, pt, va, pa, sz, perm, a) == MapFrames(w, pt, va, pa, sz, perm, a + PAGESIZE)
      && MapStop(fr, pt, va, pa, sz, perm, a) == MapStop(w, pt, va, pa, sz, perm, a + PAGESIZE)
  {
    MapTargetFits(va, pa, sz, perm, a);
  }

  /** Map skipping the page at `a` continues from the next page on the same store. */
  lemma MapFromSkip(fr: Frames, pt: u64, va: u64, pa: u64, sz: nat, perm: nat, a: nat)
    requires MapArgs(va, pa, sz, perm) && va <= a < va + sz && a % PAGESIZE == 0
    requires LookupL1(fr, pt, a, perm).None? && !Present(perm)
    ensures (a + PAGESIZE) % PAGESIZE == 0 && a + PAGESIZE <= va + sz
    ensures MapFrames(fr, pt, va, pa, sz, perm, a) == MapFrames(fr, pt, va, pa, sz, perm, a + PAGESIZE)
    ensures MapStop(fr, pt, va, pa, sz, perm, a) == MapStop(fr, pt, va, pa, sz, perm, a + PAGESIZE)
  {
    MapTargetFits(va, pa, sz, perm, a);
  }

  /** Map ends at `a` with the store as it is: at the end of the range, or at a page
      it cannot reach while perm has PTE_P. */
  lemma MapFromEnd(fr: Frames, pt: u64, va: u64, pa: u64, sz: nat, perm: nat, a: nat)
    requires MapArgs(va, pa, sz, perm) && va <= a && a % PAGESIZE == 0
    requires a >= va + sz || (LookupL1(fr, pt, a, perm).None? && Present(perm))
    ensures MapFrames(fr, pt, va, pa, sz, perm, a) == fr && MapStop(fr, pt, va, pa, sz, perm, a) == a
  {
  }

  /** Map keeps the tree and every walk through it. */
  lemma {:induction false} MapFramesWalks(fr: Frames, before: Frames, pt: u64, va: u64, pa: u64, sz: nat, perm: nat, a: nat)
    requires MapArgs(va, pa, sz, perm) && va <= a && a % PAGESIZE == 0
    requires TreeShaped(fr, pt) && SameWalks(fr, before, pt)
    ensures TreeShaped(MapFrames(fr, pt, va, pa, sz, perm, a), pt)
    ensures SameWalks(MapFrames(fr, pt, va, pa, sz, perm, a), before, pt)
    decreases va + sz - a
  {
    if a < va + sz {
      if LookupL1(fr, pt, a, perm).Some? {
        MapFromWrite(fr, pt, va, pa, sz, perm, a);
        MapPageWalks(fr, before, pt, va, pa, perm, a);
        MapFramesWalks(MapWrite(fr, pt, va, pa, perm, a), before, pt, va, pa, sz, perm, a + PAGESIZE);
      } else if !Present(perm) {
        MapFromSkip(fr, pt, va, pa, sz, perm, a);
        MapFramesWalks(fr, before, pt, va, pa, sz, perm, a + PAGESIZE);
      }
    }
  }

  /** Map stops on a page boundary inside the range or at its end, and only early
      at a present-mapping page whose last-level table it cannot reach. */
  lemma {:induction false} MapStopFacts(fr: Frames, pt: u64, va: u64, pa: u64, sz: nat, perm: nat, a: nat)
    requires MapArgs(va, pa, sz, perm) && va <= a <= va + sz && a % PAGESIZE == 0
    ensures var d := MapStop(fr, pt, va, pa, sz, perm, a);
      && d % PAGESIZE == 0
      && (d < va + sz ==> Present(perm) && LookupL1(MapFrames(fr, pt, va, pa, sz, perm, a), pt, d, perm).None?)
    decreases va + sz - a
  {
    if a < va + sz {
      if LookupL1(fr, pt, a, perm).Some? {
        MapFromWrite(fr, pt, va, pa, sz, perm, a);
        MapStopFacts(MapWrite(fr, pt, va, pa, perm, a), pt, va, pa, sz, perm, a + PAGESIZE);
      } else if !Present(perm) {
        MapFromSkip(fr, pt, va, pa, sz, perm, a);
        MapStopFacts(fr, pt, va, pa, sz, perm, a + PAGESIZE);
      }
    }
  }

  /** Map extends the mapped prefix up to where it stops. */
  lemma {:induction false} MapFramesPrefix(fr: Frames, before: Frames, pt: u64, va: u64, pa: u64, sz: nat, perm: nat, a: nat)
    requires MapArgs(va, pa, sz, perm) && va + sz <= ADDR_LIMIT && va <= a <= va + sz && a % PAGESIZE == 0
    requires TreeShaped(fr, pt) && SameWalks(fr, before, pt)
    requires MappedPrefix(fr, before, pt, va, pa, perm, a)
    ensures MappedPrefix(MapFrames(fr, pt, va, pa, sz, perm, a), before, pt, va, pa, perm, MapStop(fr, pt, va, pa, sz, perm, a))
    decreases va + sz - a
  {
    if a < va + sz {
      if LookupL1(fr, pt, a, perm).Some? {
        MapFromWrite(fr, pt, va, pa, sz, perm, a);
        MapPageWalks(fr, before, pt, va, pa, perm, a);
        MapPageWrite(fr, before, pt, va, pa, perm, a);
        MapFramesPrefix(MapWrite(fr, pt, va, pa, perm, a), before, pt, va, pa, sz, perm, a + PAGESIZE);
      } else if !Present(perm) {
        MapFromSkip(fr, pt, va, pa, sz, perm, a);
        MapPageSkip(fr, before, pt, va, pa, perm, a);
        MapFramesPrefix(fr, before, pt, va, pa, sz, perm, a + PAGESIZE);
      } else {
        MapFromEnd(fr, pt, va, pa, sz, perm, a);
      }
    } else {
      MapFromEnd(fr, pt, va, pa, sz, perm, a);
    }
  }

  /** The pages of [va, a) reached with perm, and page a too: so are those of [va, a + PAGESIZE). */
  lemma ReachedStep(before: Frames, pt: u64, va: u64, perm: nat, a: u64)
    requires a % PAGESIZE == 0
    requires Reached(before, pt, va, perm, a)
    requires LookupL1(before, pt, a, perm).Some?
    ensures Reached(before, pt, va, perm, a + PAGESIZE)
  {
    forall b: u64 | va <= b < a + PAGESIZE && b % PAGESIZE == 0
      ensures LookupL1(before, pt, b, perm).Some?
    {
      if a < b {
        AlignedStep(a, b);
      }
    }
  }

  /** Every page of the range before where a present map stops had a last-level
      table that the walk with perm reached. */
  lemma {:induction false} MapFramesReached(fr: Frames, before: Frames, pt: u64, va: u64, pa: u64, sz: nat, perm: nat, a: nat)
    requires MapArgs(va, pa, sz, perm) && va <= a <= va + sz && a % PAGESIZE == 0 && Present(perm)
    requires TreeShaped(fr, pt) && SameWalks(fr, before, pt)
    requires Reached(before, pt, va, perm, a)
    ensures Reached(before, pt, va, perm, MapStop(fr, pt, va, pa, sz, perm, a))
    decreases va + sz - a
  {
    if a < va + sz && LookupL1(fr, pt, a, perm).Some? {
      ReachedWrite(fr, before, pt, va, pa, sz, perm, a);
      MapFramesReached(MapWrite(fr, pt, va, pa, perm, a), before, pt, va, pa, sz, perm, a + PAGESIZE);
    } else {
      MapFromEnd(fr, pt, va, pa, sz, perm, a);
    }
  }

  /** One written page of MapFramesReached: the page was reached, the tree and its
      walks are kept, and the stop point is that of the rest of the range. */
  lemma ReachedWrite(fr: Frames, before: Frames, pt: u64, va: u64, pa: u64, sz: nat, perm: nat, a: nat)
    requires MapArgs(va, pa, sz, perm) && va <= a < va + sz && a % PAGESIZE == 0 && Present(perm)
    requires TreeShaped(fr, pt) && SameWalks(fr, before, pt)
    requires Reached(before, pt, va, perm, a)
    requires LookupL1(fr, pt, a, perm).Some?
    ensures a + PAGESIZE <= va + sz && (a + PAGESIZE) % PAGESIZE == 0
    ensures Present(perm) ==> pa + (a - va) < U64_LIMIT && (pa + (a - va)) % PAGESIZE == 0
    ensures TreeShaped(MapWrite(fr, pt, va, pa, perm, a), pt) && SameWalks(MapWrite(fr, pt, va, pa, perm, a), before, pt)
    ensures Reached(before, pt, va, perm, a + PAGESIZE)
    ensures MapStop(fr, pt, va, pa, sz, perm, a) == MapStop(MapWrite(fr, pt, va, pa, perm, a), pt, va, pa, sz, perm, a + PAGESIZE)
  {
    MapFromWrite(fr, pt, va, pa, sz, perm, a);
    assert LookupL1(before, pt, a, perm) == LookupL1(fr, pt, a, perm);
    ReachedStep(before, pt, va, perm, a);
    MapPageWalks(fr, before, pt, va, pa, perm, a);
  }

  /** What map promises when it started on a tree-shaped store and a range below
      2^48, returning r after handling the pages of [va, done): the tree and its walks
      are kept, those pages are mapped, success means the whole range was handled,
      failure means the page at `done` has no last-level table reachable with perm,
      and with PTE_P set every address of the range then translates as map promises. */
  ghost predicate MapOutcome(fr: Frames, before: Frames, pt: u64, va: u64, pa: u64, sz: nat, perm: nat, r: int, done: int)
  {
    && perm <= PTE_FLAGS && (Present(perm) ==> pa + sz <= U64_LIMIT)
    && TreeShaped(fr, pt) && SameWalks(fr, before, pt)
    && va <= done <= va + sz && done % PAGESIZE == 0
    && MappedPrefix(fr, before, pt, va, pa, perm, done)
    && (r == 0 || r == -1)
    && (r == 0 ==> done == va + sz)
    && (r == -1 ==> Present(perm) && done < va + sz && done < U64_LIMIT && LookupL1(before, pt, done, perm).None?)
    && (r == 0 <==> (!Present(perm) ||
          Reached(before, pt, va, perm, va + sz)))
    && (r == 0 && Present(perm) ==>
          forall a: u64 | va <= a < va + sz :: Lookup(fr, pt, a) == MappingAt(pa + (a - va), perm))
  }

  /** On a tree-shaped store and a range below 2^48, map keeps what MapOutcome promises. */
  lemma MapFromOutcome(before: Frames, pt: u64, va: u64, pa: u64, sz: nat, perm: nat)
    requires MapArgs(va, pa, sz, perm) && va + sz <= ADDR_LIMIT && TreeShaped(before, pt)
    ensures var d := MapStop(before, pt, va, pa, sz, perm, va);
      MapOutcome(MapFrames(before, pt, va, pa, sz, perm, va), before, pt, va, pa, sz, perm, MapStatus(va, sz, d), d)
  {
    var w, d := MapFrames(before, pt, va, pa, sz, perm, va), MapStop(before, pt, va, pa, sz, perm, va);
    assert SameWalks(before, before, pt);
    MapFramesWalks(before, before, pt, va, pa, sz, perm, va);
    MapStopFacts(before, pt, va, pa, sz, perm, va);
    MapFramesPrefix(before, before, pt, va, pa, sz, perm, va);
    if Present(perm) {
      MapFramesReached(before, before, pt, va, pa, sz, perm, va);
      if d < va + sz {
        assert LookupL1(before, pt, d, perm) == LookupL1(w, pt, d, perm);
      } else {
        Aligned3(va, sz, 0);
        MapComplete(w, before, pt, va, pa, sz, perm);
      }
    }
  }

  /** The loop of `virtual_memory_map`, page by page over [va, va + sz). */
  method MapPages(frames: Frames, pt: u64, va: u64, pa: u64, sz: u64, perm: i32) returns (fr: Frames, r: i32)
    requires 0 <= perm && MapArgs(va, pa, sz, perm)
    ensures fr == MapFrames(frames, pt, va, pa, sz, perm, va)
    ensures r == MapStatus(va, sz, MapStop(frames, pt, va, pa, sz, perm, va))
  {
    ghost var goal, stop := MapFrames(frames, pt, va, pa, sz, perm, va), MapStop(frames, pt, va, pa, sz, perm, va);
    fr := frames;
    var a: nat := va;
    while a < va + sz
      invariant va <= a && a % PAGESIZE == 0
      invariant MapFrames(fr, pt, va, pa, sz, perm, a) == goal
      invariant MapStop(fr, pt, va, pa, sz, perm, a) == stop
      decreases va + sz - a
    {
      var stuck;
      fr, stuck := MapPage(fr, pt, va, pa, sz, perm, a);
      if stuck {
        return fr, -1;
      }
      a := a + PAGESIZE;
    }
    MapFromEnd(fr, pt, va, pa, sz, perm, a);
    return fr, 0;
  }

  /** One step of map at the page `a`: write its entry, skip it, or report that it
      cannot be reached, in which case map stops here with the store unchanged. */
  method MapPage(fr: Frames, pt: u64, va: u64, pa: u64, sz: nat, perm: nat, a: nat) returns (next: Frames, stuck: bool)
    requires MapArgs(va, pa, sz, perm) && va <= a < va + sz && a % PAGESIZE == 0
    ensures stuck <==> LookupL1(fr, pt, a, perm).None? && Present(perm)
    ensures stuck ==> next == fr && MapStop(fr, pt, va, pa, sz, perm, a) == a
    ensures stuck ==> MapFrames(fr, pt, va, pa, sz, perm, a) == fr
    ensures !stuck ==> (a + PAGESIZE) % PAGESIZE == 0 && a + PAGESIZE <= va + sz
    ensures !stuck ==> MapFrames(fr, pt, va, pa, sz, perm, a) == MapFrames(next, pt, va, pa, sz, perm, a + PAGESIZE)
    ensures !stuck ==> MapStop(fr, pt, va, pa, sz, perm, a) == MapStop(next, pt, va, pa, sz, perm, a + PAGESIZE)
  {
    if LookupL1(fr, pt, a, perm).Some? {
      MapFromWrite(fr, pt, va, pa, sz, perm, a);
      next, stuck := MapWrite(fr, pt, va, pa, perm, a), false;
    } else if Present(perm) {
      MapFromEnd(fr, pt, va, pa, sz, perm, a);
      next, stuck := fr, true;
    } else {
      MapFromSkip(fr, pt, va, pa, sz, perm, a);
      next, stuck := fr, false;
    }
  }

  // ----- set_pagetable and virtual_memory_init -----

  /** The checks `set_pagetable(pt)` makes, in order, before `lcr3(pt)`; `kpt` is
      `kernel_pagetable` and `handler` the address of `default_int_handler`. */
  function PagetableCheck(frames: Frames, kpt: u64, handler: u64, pt: u64): (o: Outcome)
    ensures o == Continue <==>
      && pt % PAGESIZE == 0
      && Lookup(frames, pt, handler).pa == handler
      && Lookup(frames, kpt, pt).pa == pt
      && Lookup(frames, pt, kpt).pa == kpt
    ensures pt % PAGESIZE != 0 ==> o == Halted(Panic("Pagetable must be page-aligned"))
    ensures o.Halted? ==> o.reason.Panic?
  {
    if PageOffset(pt) != 0 then Halted(Panic("Pagetable must be page-aligned"))
    else if Lookup(frames, pt, handler).pa != handler then Halted(Panic("default_int_handler is not mapped in the pagetable"))
    else if Lookup(frames, kpt, pt).pa != pt then Halted(Panic("Pagetable is not mapped in kernel_pagetable"))
    else if Lookup(frames, pt, kpt).pa != kpt then Halted(Panic("kernel_pagetable is not mapped in the pagetable"))
    else Continue
  }

  /** Address `b` translates to itself through `pt` with at least PTE_P | PTE_W,
      the two things the verification loop of `virtual_memory_init` checks. */
  predicate IdentityAt(frames: Frames, pt: u64, b: u64)
  {
    && Lookup(frames, pt, b).pa == b
    && BitAnd(I32Bits(Lookup(frames, pt, b).perm), BitOr(PTE_P, PTE_W)) == BitOr(PTE_P, PTE_W)
  }

  /** Every page address below MEMSIZE_PHYSICAL passes that check. */
  ghost predicate IdentityMapped(frames: Frames, pt: u64)
  {
    forall b: u64 | b < MEMSIZE_PHYSICAL && b % PAGESIZE == 0 :: IdentityAt(frames, pt, b)
  }

  /** The store after `virtual_memory_init`: the chained tables with [0, MEMSIZE_PHYSICAL)
      mapped to itself, with PTE_P | PTE_W | PTE_U, through `kernel_pagetable`. */
  function KernelFrames(base: nat): (t: Frames)
    requires base + 5 <= U64_LIMIT / PAGESIZE
    ensures t.Keys == NewTables(base).Keys
  {
    MapFrames(LinkedTables(base), base * PAGESIZE, 0, 0, MEMSIZE_PHYSICAL, PTE_PWU, 0)
  }

  /** The identity map of the chained tables succeeds: every page below
      MEMSIZE_PHYSICAL reaches region 0's last-level table. */
  lemma KernelMapSucceeds(base: nat)
    requires base + 5 <= U64_LIMIT / PAGESIZE
    ensures MapStop(LinkedTables(base), base * PAGESIZE, 0, 0, MEMSIZE_PHYSICAL, PTE_PWU, 0) == MEMSIZE_PHYSICAL
    ensures MapOutcome(KernelFrames(base), LinkedTables(base), base * PAGESIZE, 0, 0, MEMSIZE_PHYSICAL, PTE_PWU, 0, MEMSIZE_PHYSICAL)
  {
    var t0, kpt := LinkedTables(base), base * PAGESIZE;
    LinkedChained(base);
    ChainedShaped(t0, base);
    FlagUnions();
    forall a: u64 | 0 <= a < MEMSIZE_PHYSICAL && a % PAGESIZE == 0
      ensures LookupL1(t0, kpt, a, PTE_PWU).Some?
    {
      assert a % ADDR_LIMIT == a;
      RegionZero(a);
      ChainedL1(t0, base, Region(a), PTE_PWU);
    }
    MapFromOutcome(t0, kpt, 0, 0, MEMSIZE_PHYSICAL, PTE_PWU);
  }

  /** How the kernel's identity map translates `a`: to its low 48 bits with
      PTE_P | PTE_W | PTE_U when those are below MEMSIZE_PHYSICAL, which is `a`
      itself when `a` is below 2^48. */
  function KernelMapping(a: u64): (m: VAMapping)
    ensures m == UNMAPPED || m.perm == PTE_PWU
  {
    if Canonical(a) < MEMSIZE_PHYSICAL then MappingAt(Canonical(a), PTE_PWU) else UNMAPPED
  }

  /** Every address translates through `kpt` as the kernel's identity map says. */
  ghost predicate KernelMapped(t: Frames, kpt: u64)
  {
    forall a: u64 :: Lookup(t, kpt, a) == KernelMapping(a)
  }

  /** Once [0, MEMSIZE_PHYSICAL) is mapped over the chained tables, the kernel's
      identity map is all that `kernel_pagetable` translates. */
  lemma KernelMappedFrom(t0: Frames, t: Frames, base: nat)
    requires base + 5 <= U64_LIMIT / PAGESIZE && Chained(t0, base)
    requires MappedPrefix(t, t0, base * PAGESIZE, 0, 0, PTE_PWU, MEMSIZE_PHYSICAL)
    ensures KernelMapped(t, base * PAGESIZE)
  {
    forall a: u64
      ensures Lookup(t, base * PAGESIZE, a) == KernelMapping(a)
    {
      KernelLookup(t0, t, base, a);
    }
  }

  /** After `virtual_memory_init`, `kernel_pagetable` maps [0, MEMSIZE_PHYSICAL) to
      itself, and every address above 2^48 with those low 48 bits to the same
      frame; nothing else. */
  lemma KernelFramesMapped(base: nat)
    requires base + 5 <= U64_LIMIT / PAGESIZE
    ensures KernelMapped(KernelFrames(base), base * PAGESIZE)
  {
    KernelMapSucceeds(base);
    LinkedChained(base);
    KernelMappedFrom(LinkedTables(base), KernelFrames(base), base);
  }

  /** Under the kernel's identity map an address `h` is found at `h` itself exactly
      when it is below MEMSIZE_PHYSICAL, or is the all-ones address an unmapped
      lookup reports. */
  lemma KernelTranslation(t: Frames, kpt: u64, h: u64)
    requires KernelMapped(t, kpt)
    ensures Lookup(t, kpt, h).pa == h <==> h < MEMSIZE_PHYSICAL || h == U64_LIMIT - 1
  {
    assert Lookup(t, kpt, h) == KernelMapping(h);
    CanonicalLow(h);
    if Canonical(h) < MEMSIZE_PHYSICAL {
      assert h != U64_LIMIT - 1 by {
        DivModUnique(U64_LIMIT - 1, ADDR_LIMIT, 0xFFFF, ADDR_LIMIT - 1);
      }
    }
  }

  /** Under the kernel's identity map the verification loop of `virtual_memory_init` passes. */
  lemma KernelIdentityCheck(t: Frames, kpt: u64)
    requires KernelMapped(t, kpt)
    ensures IdentityMapped(t, kpt)
  {
    FlagUnions();
    forall b: u64 | 0 <= b < MEMSIZE_PHYSICAL && b % PAGESIZE == 0
      ensures IdentityAt(t, kpt, b)
    {
      assert b % ADDR_LIMIT == b;
      assert Lookup(t, kpt, b) == KernelMapping(b);
    }
  }

  /** Under the kernel's identity map, `set_pagetable(kernel_pagetable)` passes exactly
      when `default_int_handler` lies below MEMSIZE_PHYSICAL (or is the all-ones
      address) and `kernel_pagetable` is a page-aligned address below MEMSIZE_PHYSICAL. */
  lemma KernelPagetableCheck(t: Frames, kpt: u64, handler: u64)
    requires KernelMapped(t, kpt)
    ensures PagetableCheck(t, kpt, handler, kpt) == Continue <==>
      (handler < MEMSIZE_PHYSICAL || handler == U64_LIMIT - 1) && kpt < MEMSIZE_PHYSICAL && kpt % PAGESIZE == 0
  {
    KernelTranslation(t, kpt, handler);
    KernelTranslation(t, kpt, kpt);
  }

  /** `KernelPageTables`: the five static kernel tables at frames base .. base+4 and
      the rest of the page-table store, the global `kernel_pagetable`, and %cr3. */
  class KernelPageTables {
    /** Frame number of `kernel_pagetables[0]`; the five tables are consecutive. */
    const base: nat
    /** The address of `default_int_handler`. */
    const handler: u64
    var frames: Frames
    /** The global `kernel_pagetable` pointer, 0 while null. */
    var kernelPagetable: u64
    /** The last table loaded by `lcr3`. */
    var cr3: Option<u64>

    /** `KernelPageTables::new()`: five zeroed tables; `kernel_pagetable` is still null. */
    constructor (base: nat, handler: u64)
      requires base + 5 <= U64_LIMIT / PAGESIZE
      ensures this.base == base && this.handler == handler
      ensures frames == NewTables(base) && kernelPagetable == 0 && cr3 == None
    {
      this.base := base;
      this.handler := handler;
      frames := NewTables(base);
      kernelPagetable := 0;
      cr3 := None;
    }

    /** `virtual_memory_init()`: chain the five tables, identity-map
        [0, MEMSIZE_PHYSICAL) through `kernel_pagetable` (table 0), check every page
        of that range, then `set_pagetable(kernel_pagetable)`. The store it leaves is
        KernelFrames(base), which KernelFramesMapped describes; on it the checks
        pass (KernelIdentityCheck) and KernelPagetableCheck says when `set_pagetable` does. */
    method VirtualMemoryInit() returns (o: Outcome)
      requires base + 5 <= U64_LIMIT / PAGESIZE && frames == NewTables(base)
      modifies this
      ensures kernelPagetable == base * PAGESIZE && frames == KernelFrames(base)
      ensures o == Continue <==>
        IdentityMapped(frames, kernelPagetable) && PagetableCheck(frames, kernelPagetable, handler, kernelPagetable) == Continue
      ensures o.Halted? ==> o.reason.Panic?
      ensures cr3 == if o == Continue then Some(kernelPagetable) else old(cr3)
    {
      kernelPagetable := base * PAGESIZE;
      ConnectTables();
      var r := VirtualMemoryMap(kernelPagetable, 0, 0, MEMSIZE_PHYSICAL, PTE_PWU);
      o := CheckIdentity(kernelPagetable);
      if o.Halted? {
        return;
      }
      o := SetPagetable(kernelPagetable);
    }

    /** The first step of `virtual_memory_init`: connect the five tables. */
    method ConnectTables()
      requires base + 5 <= U64_LIMIT / PAGESIZE && frames == NewTables(base)
      modifies this
      ensures frames == LinkedTables(base)
      ensures kernelPagetable == old(kernelPagetable) && cr3 == old(cr3)
    {
      frames := frames[base := frames[base][0 := LinkEntry(base + 1)]];
      frames := frames[base + 1 := frames[base + 1][0 := LinkEntry(base + 2)]];
      frames := frames[base + 2 := frames[base + 2][0 := LinkEntry(base + 3)]];
      frames := frames[base + 2 := frames[base + 2][1 := LinkEntry(base + 4)]];
    }

    /** The verification loop of `virtual_memory_init` over the pages of
        [0, MEMSIZE_PHYSICAL), through `pt`: it passes exactly when every page is
        identity-mapped and writable, and otherwise stops with one of its two panics. */
    method CheckIdentity(pt: u64) returns (o: Outcome)
      ensures o == Continue <==> IdentityMapped(frames, pt)
      ensures o.Halted? ==>
        || o == Halted(Panic("(virtual_memory_init) identity mapping failed"))
        || o == Halted(Panic("(virtual_memory_init) (vmap.perm & (PTE_P | PTE_W)) == (PTE_P | PTE_W) failed"))
    {
      var addr: nat := 0;
      while addr < MEMSIZE_PHYSICAL
        invariant addr <= MEMSIZE_PHYSICAL && addr % PAGESIZE == 0
        invariant forall b: u64 | b < addr && b % PAGESIZE == 0 :: IdentityAt(frames, pt, b)
      {
        var vmap := Lookup(frames, pt, addr);
        if vmap.pa != addr {
          assert !IdentityAt(frames, pt, addr);
          return Halted(Panic("(virtual_memory_init) identity mapping failed"));
        }
        if BitAnd(I32Bits(vmap.perm), BitOr(PTE_P, PTE_W)) != BitOr(PTE_P, PTE_W) {
          assert !IdentityAt(frames, pt, addr);
          return Halted(Panic("(virtual_memory_init) (vmap.perm & (PTE_P | PTE_W)) == (PTE_P | PTE_W) failed"));
        }
        forall b: u64 | addr < b && b % PAGESIZE == 0
          ensures addr + PAGESIZE <= b
        {
          AlignedStep(addr, b);
        }
        AlignedNext(addr);
        addr := addr + PAGESIZE;
      }
      return Continue;
    }

    /** `set_pagetable(pt)`: %cr3 changes only when every check passes. */
    method SetPagetable(pt: u64) returns (o: Outcome)
      modifies this
      ensures o == PagetableCheck(frames, kernelPagetable, handler, pt)
      ensures frames == old(frames) && kernelPagetable == old(kernelPagetable)
      ensures cr3 == if o == Continue then Some(pt) else old(cr3)
    {
      if PageOffset(pt) != 0 {
        return Halted(Panic("Pagetable must be page-aligned"));
      }
      if Lookup(frames, pt, handler).pa != handler {
        return Halted(Panic("default_int_handler is not mapped in the pagetable"));
      }
      if Lookup(frames, kernelPagetable, pt).pa != pt {
        return Halted(Panic("Pagetable is not mapped in kernel_pagetable"));
      }
      if Lookup(frames, pt, kernelPagetable).pa != kernelPagetable {
        return Halted(Panic("kernel_pagetable is not mapped in the pagetable"));
      }
      cr3 := Some(pt);
      return Continue;
    }

    /** `virtual_memory_map(pt, va, pa, sz, perm)` on the store (MapFrames, MapStop, MapOutcome). */
    method VirtualMemoryMap(pt: u64, va: u64, pa: u64, sz: u64, perm: i32) returns (r: i32)
      requires 0 <= perm && MapArgs(va, pa, sz, perm)
      modifies this
      ensures frames == MapFrames(old(frames), pt, va, pa, sz, perm, va)
      ensures r == MapStatus(va, sz, MapStop(old(frames), pt, va, pa, sz, perm, va))
      ensures kernelPagetable == old(kernelPagetable) && cr3 == old(cr3)
    {
      frames, r := MapPages(frames, pt, va, pa, sz, perm);
    }
  }
}
