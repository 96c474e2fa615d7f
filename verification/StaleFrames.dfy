/** How calls lead to a region header that lands in a frame with another use by then, and when that does harm. */
module StaleFrames {
  import opened PageTables
  import opened DataPages
  import opened PageRange
  import opened PageNumbers
  import opened AreaOrder
  import opened AreaMapping
  import opened StaleStores
  import opened Paging
  import opened Bitmap
  import opened RegionList
  import opened RegionHeaders
  import opened VmmOutcome
  import opened Vmm
  import opened Wrappers

  // ---------------------------------------------------------------------------------------------
  // The exact condition in a gap

  // The new list is sound if and only if the stale frame holds no header, is no page table, and is not free,
  // or so low that one of the frames taken in vain is this one.
  lemma SurvivesInGap(s: State, root: Frame, rs: seq<Region>, cells: seq<Frame>, top: nat, size: nat)
    requires Consistent(s, root, rs, cells, top) && Place(rs, size, 1) < |rs| && size > 0 && size % PAGE_SIZE == 0
    requires HasRoom(rs, size)
    ensures Stale(s.mem, root, PlacedAt(rs, size)).Some?
    ensures var f := Stale(s.mem, root, PlacedAt(rs, size)).value;
            Survives(s, root, rs, cells, size)
            <==> f !in cells && !IsTable(s.mem, root, f) && (f in s.free ==> Rank(s.free, f) < size / PAGE_SIZE)
  {
    hide PathOf, PagePath, Consistent, IsTable, HandedToPage, Rank, Before, Recursive;
    ConsistentBounds(s, root, rs, cells, top);
    GapPages(s, root, rs, cells, top, size);
    AlignedGap(rs, cells, s, root, top, size);
    var base, n := PlacedAt(rs, size), size / PAGE_SIZE;
    PathOfPage(base, 0, base / PAGE_SIZE, n, 0);
    var f := Stale(s.mem, root, base).value;
    HandedWithoutTables(s, root, NewPages(rs, size), f);
  }

  // And no page of it is lost.
  lemma GapLosesNoPage(s: State, root: Frame, rs: seq<Region>, cells: seq<Frame>, top: nat, size: nat)
    requires Consistent(s, root, rs, cells, top) && Place(rs, size, 1) < |rs| && size > 0 && size % PAGE_SIZE == 0
    requires HasRoom(rs, size) && CanStore(s.mem, root, rs, size)
    ensures !LosesPages(s, root, rs, size)
  {
    hide PathOf, PagePath, Consistent, HandedToPage, Rank, Before, Recursive, NewPages, PassedBy;
    ConsistentBounds(s, root, rs, cells, top);
    GapPages(s, root, rs, cells, top, size);
    if Stale(s.mem, root, PlacedAt(rs, size)).Some? {
      HandedWithoutTables(s, root, NewPages(rs, size), Stale(s.mem, root, PlacedAt(rs, size)).value);
    }
  }

  // ---------------------------------------------------------------------------------------------
  // Freeing the one-page region k

  // The page of region k stays mapped to a frame that is the lowest free one now.
  ghost predicate LeftBehind(m: Manager, b: nat, f: Frame)
    reads m.space, m.space.frames.bitmap
  {
    IsLowest(f, m.space.frames.Free()) && Behind(m.space.mem, m.space.root, b, f)
  }

  // Region k can be freed: vmm_free can read its tables, and its frame comes before all free ones.
  ghost predicate CanFree(m: Manager, pml4: nat, k: nat)
    reads m, m.space, m.space.frames.bitmap
  {
    && m.Valid() && 1 <= k < |m.regions| == |m.cells|
    && m.cells[k] < m.space.frames.totalPages && (forall g :: g in m.space.frames.Free() ==> m.cells[k] < g)
    && TablesIdentityMapped(m.space.mem, m.space.root, pml4, PathOf(m.regions[k].base))
  }

  lemma IndexOfBase(rs: seq<Region>, i: nat, k: nat)
    requires Sorted(rs) && i < |rs| && k < |rs| && rs[i].base == rs[k].base
    ensures i == k
  {
    if i < k {
      SortedOrder(rs, i, k);
    } else if k < i {
      SortedOrder(rs, k, i);
    }
  }

  lemma Shorter(rs: seq<Region>, k: nat)
    requires Sorted(rs) && k < |rs|
    ensures Remove(rs, rs[k].base) == rs[..k] + rs[k + 1..] && Remove(rs, rs[k].base) != rs
  {
    RemoveAt(rs, k);
    assert |rs[..k] + rs[k + 1..]| == |rs| - 1;
  }

  method FreeRegion(m: Manager, address: nat, pml4: nat, ghost k: nat)
    requires CanFree(m, pml4, k) && address == m.regions[k].base + HEADER
    modifies m, m.space`mem, m.space.frames.bitmap
    ensures m.Valid() && m.regions == old(m.regions)[..k] + old(m.regions)[k + 1..]
    ensures SameTranslations(old(m.space.mem), m.space.mem, m.space.root)
    ensures LeftBehind(m, address - HEADER, old(m.cells)[k])
    ensures m.space.frames.Free() == old(m.space.frames.Free()) + {old(m.cells)[k]}
  {
    hide PathOf, PagePath, Consistent, SameTranslations, TablesIdentityMapped, Remove, Sorted;
    ghost var rs := m.regions;
    ConsistentBounds(m.Contents(), m.space.root, rs, m.cells, m.top);
    SortedOrder(rs, 0, k);
    Shorter(rs, k);
    forall i | 0 <= i < |rs| && rs[i].base == rs[k].base
      ensures i == k
    {
      IndexOfBase(rs, i, k);
    }
    ghost var found := m.VmmFree(address, pml4);
    if found < |rs| {
      IndexOfBase(rs, found, k);
    }
  }

  // ---------------------------------------------------------------------------------------------
  // A header over a header

  // A hole of one page before region k, at address b, and no other hole.
  ghost predicate PageHole(rs: seq<Region>, k: nat, b: nat)
  {
    OneHole(rs, k) && rs[k - 1].End() == b && rs[k].base == b + PAGE_SIZE
  }

  lemma HoleOfOnePage(rs: seq<Region>, k: nat)
    requires Sorted(rs) && Packed(rs) && 1 <= k < |rs| - 1 && rs[k].size == PAGE_SIZE
    ensures var after := rs[..k] + rs[k + 1..];
            && PageHole(after, k, rs[k].base) && PlacedAt(after, 2 * PAGE_SIZE) == rs[|rs| - 1].End()
  {
    RemovalLeavesAHole(rs, k);
    var after := rs[..k] + rs[k + 1..];
    RemoveAt(rs, k);
    assert Touches(rs, k + 1);
    AppendKeepsTheHole(after, k, 2 * PAGE_SIZE);
  }

  // Two more pages do not fit into it; the page at the end is unmapped.
  lemma TwoPagesAtTheEnd(s: State, root: Frame, rs: seq<Region>, pages: nat, range: seq<seq<Index>>,
                         backing: seq<Frame>, k: nat)
    requires Sorted(rs) && Packed(rs) && 1 <= k < |rs| - 1 && rs[k].size == PAGE_SIZE
    requires IsRange(range) && StartsAt(range, rs[0].base, pages)
    requires |backing| + 2 <= pages && Linear(s, root, range, backing)
    requires rs[|rs| - 1].End() == rs[0].base + |backing| * PAGE_SIZE
    ensures var after := rs[..k] + rs[k + 1..];
            && PageHole(after, k, rs[k].base) && HasRoom(after, 2 * PAGE_SIZE)
            && Walk(s.mem, root, PathOf(PlacedAt(after, 2 * PAGE_SIZE))) == Fault
  {
    hide PathOf, PagePath, PagePaths, Linear, Packed, PageHole, Continues, PlacedAt, StartsAt;
    HoleOfOnePage(rs, k);
    assert rs[0].base % PAGE_SIZE == 0;
    EndIsUnmapped(s, root, pages, range, backing, rs[0].base, 2 * PAGE_SIZE);
  }

  lemma LowestIsOne(f: Frame, g: Frame, free: set<Frame>)
    requires IsLowest(f, free) && IsLowest(g, free)
    ensures f == g
  {
  }

  // A region of two pages goes to the end and takes the frame that region k left behind for its header.
  method AllocateTwoPages(m: Manager, ghost k: nat, ghost b: nat, ghost f: Frame)
    requires m.Valid() && PageHole(m.regions, k, b)
    requires LeftBehind(m, b, f) && |m.space.frames.Free()| >= 16
    requires HasRoom(m.regions, 2 * PAGE_SIZE)
    requires Walk(m.space.mem, m.space.root, PathOf(PlacedAt(m.regions, 2 * PAGE_SIZE))) == Fault
    modifies m, m.space`mem, m.space.frames.bitmap
    ensures m.Valid() && |m.space.frames.Free()| >= 8
    ensures m.regions == old(m.regions) + [Region(old(m.regions[|m.regions| - 1].End()), 2 * PAGE_SIZE)]
    ensures PageHole(m.regions, k, b) <== old(PageHole(m.regions, k, b))
    ensures Behind(m.space.mem, m.space.root, b, f) && f in m.cells
  {
    hide PathOf, PagePath, Consistent, Survives, NewPages, Before, TakesLowest, ListLeft, LosesPages, Usable, Insert;
    ghost var s0, rs, cs := m.Contents(), m.regions, m.cells;
    AppendKeepsTheHole(rs, k, 2 * PAGE_SIZE);
    FreshHeader(s0, m.space.root, rs, cs, 2 * PAGE_SIZE);
    var address, _ := m.VmmAllocate(2 * PAGE_SIZE - HEADER, [], []);
    NewestCell(s0, m.Contents(), m.space.root, rs, cs, 2 * PAGE_SIZE, m.cells, m.top, f);
    FramesLeft(s0, m.Contents(), m.space.root, rs, cs, 2 * PAGE_SIZE, m.cells, m.top);
    AllocatedKeeps(s0, m.Contents(), m.space.root, rs, cs, 2 * PAGE_SIZE, m.cells, m.top);
  }

  lemma NewestCell(s0: State, s: State, root: Frame, rs: seq<Region>, cells: seq<Frame>, size: nat, cells': seq<Frame>,
                   top': nat, f: Frame)
    requires HasRoom(rs, size) && Allocated(s0, s, root, rs, cells, size, cells', top')
    requires Walk(s0.mem, root, PathOf(PlacedAt(rs, size))) == Fault && IsLowest(f, s0.free)
    ensures f in cells'
  {
    hide PathOf, NewPages, FramesTaken, AllMapped, LosesPages, ListLeft, KeepsTranslations;
    LowestIsOne(f, cells'[Place(rs, size, 1)], s0.free);
  }

  lemma FramesLeft(s0: State, s: State, root: Frame, rs: seq<Region>, cells: seq<Frame>, size: nat,
                   cells': seq<Frame>, top': nat)
    requires HasRoom(rs, size) && Allocated(s0, s, root, rs, cells, size, cells', top')
    ensures |s0.free| <= |s.free| + size / PAGE_SIZE + TableBound(size / PAGE_SIZE)
  {
    hide PathOf, AllMapped, LosesPages, ListLeft, KeepsTranslations, CellsLeft, TakesLowest, Before, NewPages;
  }

  // Three calls after a run without frees: vmm_free of a one-page region, then two pages, then one page. The
  // last one writes its header into the frame that the second one has put its own header in, and no frames
  // make the words in memory the list that was meant.
  method LoseTheList(m: Manager, address: nat, pml4: nat, ghost k: nat, ghost pages: nat,
                     ghost range: seq<seq<Index>>, ghost backing: seq<Frame>)
    requires m.NeverFreed(pages, range, backing) && CanFree(m, pml4, k) && k < |m.regions| - 1
    requires m.regions[k].size == PAGE_SIZE && address == m.regions[k].base + HEADER
    requires |backing| + 2 <= pages && |m.space.frames.Free()| >= 15
    modifies m, m.space`mem, m.space.frames.bitmap
    ensures |m.regions| == |old(m.regions)| + 1 && m.regions[k] == old(m.regions)[k]
    ensures forall cs :: !ListInMemory(m.space.mem, m.space.root, m.regions, cs)
  {
    hide PathOf, PagePath, Consistent, SameTranslations, TablesIdentityMapped, Remove, Sorted, Linear;
    hide NewPages, ListInMemory, Allocated, Packed, PageHole, PlacedAt, HasRoom;
    ghost var s0, rs, f := m.Contents(), m.regions, m.cells[k];
    ghost var b := rs[k].base;
    ConsistentBounds(s0, m.space.root, rs, m.cells, m.top);
    TwoPagesAtTheEnd(s0, m.space.root, rs, pages, range, backing, k);
    FreeRegion(m, address, pml4, k);
    SameWalk(s0.mem, m.space.mem, m.space.root, PathOf(PlacedAt(m.regions, 2 * PAGE_SIZE)));
    AllocateTwoPages(m, k, b, f);
    AllocateIntoTheHole(m, k, b, f);
  }

  lemma SameWalk(m: Memory, m': Memory, root: Frame, path: seq<Index>)
    requires SameTranslations(m, m', root) && |path| == 4
    ensures Walk(m', root, path) == Walk(m, root, path)
  {
  }

  method AllocateIntoTheHole(m: Manager, ghost k: nat, ghost b: nat, ghost f: Frame)
    requires m.Valid() && PageHole(m.regions, k, b)
    requires Behind(m.space.mem, m.space.root, b, f) && f in m.cells && |m.space.frames.Free()| >= 8
    modifies m, m.space`mem, m.space.frames.bitmap
    ensures m.regions == old(m.regions)[..k] + [Region(b, PAGE_SIZE)] + old(m.regions)[k..]
    ensures forall cs :: !ListInMemory(m.space.mem, m.space.root, m.regions, cs)
  {
    hide PathOf, PagePath, Consistent, Survives, NewPages, ListInMemory, Allocated, Sorted, IsTable, CanStore;
    ghost var s0, rs, cs := m.Contents(), m.regions, m.cells;
    ConsistentBounds(s0, m.space.root, rs, cs, m.top);
    PlaceWithOneHole(rs, k, PAGE_SIZE, 1);
    BoundsOf(rs, m.top, k);
    SharedFrame(s0, m.space.root, rs, cs, m.top, b, f);
    UsableCanStore(s0, m.space.root, rs, cs, m.top, PAGE_SIZE);
    var address, _ := m.VmmAllocate(PAGE_SIZE - HEADER, [], []);
    NoListLeft(s0, m.Contents(), m.space.root, rs, cs, PAGE_SIZE, m.cells, m.top);
  }

  lemma SharedFrame(s: State, root: Frame, rs: seq<Region>, cells: seq<Frame>, top: nat, b: nat, f: Frame)
    requires Consistent(s, root, rs, cells, top) && Behind(s.mem, root, b, f) && f in cells
    ensures Clash(s.mem, root, b, cells) && Usable(s.mem, root, b)
  {
    hide PathOf, PagePath, Sorted, Separated, Recursive, MappedBelow, IsTable;
    var i :| 0 <= i < |cells| && cells[i] == f;
    ConsistentBounds(s, root, rs, cells, top);
    HeaderOf(s, root, rs, cells, top, i);
  }

  lemma NoListLeft(s0: State, s: State, root: Frame, rs: seq<Region>, cells: seq<Frame>, size: nat,
                   cells': seq<Frame>, top': nat)
    requires HasRoom(rs, size) && Allocated(s0, s, root, rs, cells, size, cells', top')
    requires Clash(s0.mem, root, PlacedAt(rs, size), cells)
    ensures forall cs :: !ListInMemory(s.mem, root, Insert(rs, size), cs)
  {
    hide PathOf, NewPages, AllMapped, LosesPages, KeepsTranslations, CellsLeft, FramesTaken, ListInMemory, Consistent;
    hide Insert;
  }

  // ---------------------------------------------------------------------------------------------
  // A header over a page table

  // The list survives whatever keeps the translations and the frames in use.
  lemma ConsistentKept(s0: State, s: State, root: Frame, rs: seq<Region>, cells: seq<Frame>, top: nat)
    requires Consistent(s0, root, rs, cells, top) && DataKept(s0, s, root) && KeepsTranslations(s0.mem, s.mem, root)
    requires Separated(s.mem, root, s.free) && Recursive(s.mem, root, s.free)
    ensures Consistent(s, root, rs, cells, top)
  {
    hide PathOf, PagePath, Sorted, Separated, Recursive, MappedBelow, ListInMemory, InUse, DataKept, KeepsTranslations;
    ConsistentBounds(s0, root, rs, cells, top);
    HeadersKept(s0, s, root, rs, cells);
    KeptBelow(s0.mem, s.mem, root, rs[0].base / PAGE_SIZE, top);
  }

  lemma KeptBelow(m: Memory, m': Memory, root: Frame, lo: nat, top: nat)
    requires MappedBelow(m, root, lo, top) && KeepsTranslations(m, m', root)
    ensures MappedBelow(m', root, lo, top)
  {
    hide PagePath;
    forall p: nat | lo <= p < top
      ensures Walk(m', root, PagePath(p)).Page?
    {
      assert Walk(m, root, PagePath(p)).Page?;
    }
  }

  // A page that lacks its last table only gets the lowest free frame for it, with its own entry present.
  lemma LastTableIsLowest(s0: State, s: State, root: Frame, path: seq<Index>, e: Entry, f: Frame)
    requires |path| == 4 && path[0] != RECURSIVE && Separated(s0.mem, root, s0.free) && Recursive(s0.mem, root, s0.free)
    requires Mapped(s0, s, root, path, e) && Missing(s0.mem, root, path) == 1 && IsLowest(f, s0.free) && Present(e)
    ensures IsTable(s.mem, root, f) && f in s.mem && Present(s.mem[f][path[3]])
    ensures Recursive(s.mem, root, s.free) && |s0.free| == |s.free| + 1
  {
    hide KeepsTranslations, TouchesTablesOnly, Preserves, MapsOnlySlotOf;
    SeparatedIsRecursive(s.mem, root, s.free);
    MissingLast(s0.mem, root, path);
    OneTaken(s0.free, s.free, f);
    EveryTableKeptOrOpened(s0, s, root, path, e, path[..3]);
    WalkIsFollow(s0.mem, root, s0.free, path);
    WalkIsFollow(s.mem, root, s.free, path);
    var t := Follow(s.mem, root, path[..3]).value;
    assert t in s0.free - s.free;
  }

  lemma MissingLast(m: Memory, root: Frame, path: seq<Index>)
    requires |path| == 4 && Missing(m, root, path) == 1
    ensures Follow(m, root, path[..3]).None?
  {
  }

  lemma OneTaken(before: set<Frame>, after: set<Frame>, f: Frame)
    requires TakesLowest(before, after) && |before| == |after| + 1 && IsLowest(f, before)
    ensures before - after == {f}
  {
    var taken := before - after;
    assert before == taken + after && |taken| == 1;
    var g :| g in taken;
    assert taken == {g} by {
      assert |taken - {g}| == 0;
    }
    assert f <= g;
  }

  // The pages that m0 maps do not lead through the header slots of f.
  ghost predicate Avoided(m0: Memory, m: Memory, root: Frame, f: Frame)
  {
    forall q: seq<Index> :: |q| == 4 && Walk(m0, root, q).Page? ==> !Passes(m, root, q, f, HeaderSlots())
  }

  // A page that was mapped while f was free does not lead through f once map_page has made a table of it.
  lemma NewTableIsAvoided(s0: State, s: State, root: Frame, path: seq<Index>, e: Entry, f: Frame)
    requires |path| == 4 && Recursive(s0.mem, root, s0.free) && Mapped(s0, s, root, path, e) && f in s0.free
    ensures Avoided(s0.mem, s.mem, root, f)
  {
    hide Recursive, IsTable, KeepsTables;
    KeptTables(s0, s, root, path, e);
    NoTableIsFree(s0, root, f);
    forall q: seq<Index> | |q| == 4 && Walk(s0.mem, root, q).Page?
      ensures !Passes(s.mem, root, q, f, HeaderSlots())
    {
      NoTableNoWay(s0.mem, root, s0.free, q, f);
      MappedPassesKept(s0.mem, s.mem, root, s0.free, q, f, HeaderSlots());
    }
  }

  lemma KeptTables(s0: State, s: State, root: Frame, path: seq<Index>, e: Entry)
    requires |path| == 4 && Recursive(s0.mem, root, s0.free) && Mapped(s0, s, root, path, e)
    ensures KeepsTables(s0.mem, s.mem, root)
  {
    hide Recursive;
    PreservedTables(s0.mem, s.mem, root, s0.free);
  }

  // Page virtualAddress lacks its last table only, and its leaf index is 0 or 1.
  ghost predicate LacksLastTable(m: Memory, root: Frame, path: seq<Index>)
  {
    |path| == 4 && path[0] != RECURSIVE && path[3] in HeaderSlots() && Missing(m, root, path) == 1
  }

  // vmm_free of a region, then map_page of such an address: the frame becomes that table, and a header that lands in
  // it any time later costs older translations. The page of the region stays mapped to it, and no page that was
  // mapped before leads through it.
  method TurnIntoATable(m: Manager, address: nat, pml4: nat, virtualAddress: nat, physicalAddress: nat,
                        flags: bv8, ghost k: nat)
    requires CanFree(m, pml4, k) && address == m.regions[k].base + HEADER
    requires LacksLastTable(m.space.mem, m.space.root, PathOf(virtualAddress))
    requires Present(EntryOf(AlignToPage(physicalAddress), flags))
    modifies m, m.space`mem, m.space.frames.bitmap
    ensures m.Valid() && m.regions == old(m.regions)[..k] + old(m.regions)[k + 1..]
    ensures Stale(m.space.mem, m.space.root, address - HEADER) == Some(old(m.cells)[k])
    ensures !Usable(m.space.mem, m.space.root, address - HEADER)
    ensures forall prev: Frame, base: nat, next: nat, size: nat ::
              LosesTranslations(m.space.mem, m.space.root, old(m.cells)[k], prev, base, next, size)
    ensures Behind(m.space.mem, m.space.root, address - HEADER, old(m.cells)[k]) && old(m.cells)[k] in m.space.mem
    ensures Avoided(old(m.space.mem), m.space.mem, m.space.root, old(m.cells)[k])
    ensures KeepsTranslations(old(m.space.mem), m.space.mem, m.space.root)
    ensures |m.space.frames.Free()| == |old(m.space.frames.Free())|
  {
    hide PathOf, PagePath, Consistent, SameTranslations, TablesIdentityMapped, IsTable, Separated, Recursive, Mapped;
    hide KeepsTranslations, Avoided, Remove, LosesTranslations, Usable, Stale, TakesLowest, Behind, IsLowest;
    ghost var path, f, m0, b := PathOf(virtualAddress), m.cells[k], m.space.mem, m.regions[k].base;
    FreeRegion(m, address, pml4, k);
    ghost var s1 := m.Contents();
    SameMissing(m0, s1.mem, m.space.root, path);
    assert Behind(s1.mem, m.space.root, b, f) && IsLowest(f, s1.free);
    ConsistentBounds(s1, m.space.root, m.regions, m.cells, m.top);
    m.space.MapPage(virtualAddress, physicalAddress, flags);
    Turned(m0, s1, m.Contents(), m.space.root, m.regions, m.cells, m.top, path,
           EntryOf(AlignToPage(physicalAddress), flags), b, f);
  }

  // s1 is the state after vmm_free, with f the lowest free frame, and s the one after map_page.
  lemma Turned(m0: Memory, s1: State, s: State, root: Frame, rs: seq<Region>, cells: seq<Frame>, top: nat,
               path: seq<Index>, e: Entry, b: nat, f: Frame)
    requires Consistent(s1, root, rs, cells, top) && LacksLastTable(s1.mem, root, path) && Mapped(s1, s, root, path, e)
    requires SameTranslations(m0, s1.mem, root) && Behind(s1.mem, root, b, f) && IsLowest(f, s1.free) && Present(e)
    ensures Consistent(s, root, rs, cells, top) && Behind(s.mem, root, b, f) && f in s.mem
    ensures Stale(s.mem, root, b) == Some(f) && !Usable(s.mem, root, b)
    ensures Avoided(m0, s.mem, root, f) && KeepsTranslations(m0, s.mem, root) && |s1.free| == |s.free| + 1
    ensures forall prev: Frame, base: nat, next: nat, size: nat ::
              LosesTranslations(s.mem, root, f, prev, base, next, size)
  {
    hide PathOf, PagePath, Consistent, SameTranslations, IsTable, Separated, Recursive, Mapped;
    hide KeepsTranslations, Avoided, LosesTranslations;
    ConsistentBounds(s1, root, rs, cells, top);
    LastTableIsLowest(s1, s, root, path, e, f);
    MappedKeeps(s1, s, root, path, e);
    ConsistentKept(s1, s, root, rs, cells, top);
    PageStays(s1.mem, s.mem, root, b, f);
    NewTableIsAvoided(s1, s, root, path, e, f);
    AsBefore(m0, s1.mem, s.mem, root, f);
    forall prev: Frame, base: nat, next: nat, size: nat
      ensures LosesTranslations(s.mem, root, f, prev, base, next, size)
    {
      HarmfulHeader(s, root, f, prev, base, next, size, path[3]);
    }
  }

  // vmm_free has changed no translation.
  lemma AsBefore(m0: Memory, m1: Memory, m: Memory, root: Frame, f: Frame)
    requires SameTranslations(m0, m1, root) && KeepsTranslations(m1, m, root) && Avoided(m1, m, root, f)
    ensures KeepsTranslations(m0, m, root) && Avoided(m0, m, root, f)
  {
  }

  ghost predicate LosesTranslations(m: Memory, root: Frame, f: Frame, prev: Frame, base: nat, next: nat, size: nat)
  {
    f in m && prev in m && !IsTable(m, root, prev) ==>
      !KeepsTranslations(m, HeadersWritten(m, f, prev, base, next, size), root)
  }

  lemma HarmfulHeader(s: State, root: Frame, f: Frame, prev: Frame, base: nat, next: nat, size: nat, i: Index)
    requires Separated(s.mem, root, s.free) && f in s.mem && IsTable(s.mem, root, f) && Present(s.mem[f][i])
    requires i in HeaderSlots()
    ensures LosesTranslations(s.mem, root, f, prev, base, next, size)
  {
    hide Separated, IsTable, KeepsTranslations, HeadersWritten;
    if prev in s.mem && !IsTable(s.mem, root, prev) {
      HeadersKeepTranslationsIff(s.mem, root, s.free, f, prev, base, next, size);
    }
  }

  // The header can be stored into the table: no way that it needs leads through its own slots.
  lemma TableCanStore(m0: Memory, s: State, root: Frame, rs: seq<Region>, cells: seq<Frame>, top: nat, k: nat,
                      b: nat, f: Frame)
    requires Consistent(s, root, rs, cells, top) && PageHole(rs, k, b)
    requires Behind(s.mem, root, b, f) && f in s.mem && Avoided(m0, s.mem, root, f)
    requires Walk(m0, root, PathOf(b)).Page? && Walk(m0, root, PathOf(rs[k - 1].base)).Page?
    ensures Place(rs, PAGE_SIZE, 1) == k && PlacedAt(rs, PAGE_SIZE) == b && HasRoom(rs, PAGE_SIZE)
    ensures CanStore(s.mem, root, rs, PAGE_SIZE)
  {
    hide PathOf, PagePath, Consistent, Sorted, NewPages;
    ConsistentBounds(s, root, rs, cells, top);
    PlaceWithOneHole(rs, k, PAGE_SIZE, 1);
    BoundsOf(rs, top, k);
    BoundsOf(rs, top, k - 1);
    OnlyPage(rs, b);
  }

  lemma OnlyPage(rs: seq<Region>, b: nat)
    requires rs != [] && PlacedAt(rs, PAGE_SIZE) == b && b % PAGE_SIZE == 0 && HasRoom(rs, PAGE_SIZE)
    ensures NewPages(rs, PAGE_SIZE) == [PathOf(b)]
  {
    hide PathOf, PagePath;
    PathOfPage(b, 0, b / PAGE_SIZE, 1, 0);
  }

  // vmm_free of a one-page region that is not the last, map_page of an address that lacks its last table only, and
  // vmm_allocate of one page: the region is back on the list, and translations of the memory before the last call
  // are lost with its header.
  method LoseTranslations(m: Manager, address: nat, pml4: nat, virtualAddress: nat, physicalAddress: nat,
                          flags: bv8, ghost k: nat)
    returns (ghost before: Memory)
    requires CanFree(m, pml4, k) && address == m.regions[k].base + HEADER
    requires Packed(m.regions) && k < |m.regions| - 1 && m.regions[k].size == PAGE_SIZE
    requires LacksLastTable(m.space.mem, m.space.root, PathOf(virtualAddress)) && |m.space.frames.Free()| >= 7
    requires Present(EntryOf(AlignToPage(physicalAddress), flags))
    modifies m, m.space`mem, m.space.frames.bitmap
    ensures m.regions == old(m.regions)
    ensures KeepsTranslations(old(m.space.mem), before, m.space.root)
    ensures !KeepsTranslations(before, m.space.mem, m.space.root)
  {
    hide PathOf, PagePath, Consistent, TablesIdentityMapped, Sorted, NewPages, Allocated, PlacedAt, HasRoom, Packed;
    hide KeepsTranslations, Avoided, CanStore, Usable, LosesTranslations, PageHole, Behind, Stale, LacksLastTable;
    ghost var rs, f, m0 := m.regions, m.cells[k], m.space.mem;
    ConsistentBounds(m.Contents(), m.space.root, rs, m.cells, m.top);
    PagesOfList(m.Contents(), m.space.root, rs, m.cells, m.top, k);
    TurnIntoATable(m, address, pml4, virtualAddress, physicalAddress, flags, k);
    HoleOfOnePage(rs, k);
    before := m.space.mem;
    AllocateOverTheTable(m, m0, k, rs[k].base, f);
    BackAgain(rs, k);
  }

  // The region of one page that goes into the hole has its header in the table.
  method AllocateOverTheTable(m: Manager, ghost m0: Memory, ghost k: nat, ghost b: nat, ghost f: Frame)
    requires m.Valid() && PageHole(m.regions, k, b) && |m.space.frames.Free()| >= 7
    requires Behind(m.space.mem, m.space.root, b, f) && f in m.space.mem && !Usable(m.space.mem, m.space.root, b)
    requires Avoided(m0, m.space.mem, m.space.root, f)
    requires Walk(m0, m.space.root, PathOf(b)).Page? && Walk(m0, m.space.root, PathOf(m.regions[k - 1].base)).Page?
    modifies m, m.space`mem, m.space.frames.bitmap
    ensures m.regions == old(m.regions)[..k] + [Region(b, PAGE_SIZE)] + old(m.regions)[k..]
    ensures !KeepsTranslations(old(m.space.mem), m.space.mem, m.space.root)
  {
    hide PathOf, PagePath, Consistent, Sorted, NewPages, Allocated, HasRoom, KeepsTranslations, Avoided, CanStore;
    hide Usable, Behind, Stale, Survives;
    ghost var s0, rs, cs := m.Contents(), m.regions, m.cells;
    TableCanStore(m0, s0, m.space.root, rs, cs, m.top, k, b, f);
    var address, _ := m.VmmAllocate(PAGE_SIZE - HEADER, [], []);
    AllocatedKeeps(s0, m.Contents(), m.space.root, rs, cs, PAGE_SIZE, m.cells, m.top);
  }

  lemma PagesOfList(s: State, root: Frame, rs: seq<Region>, cells: seq<Frame>, top: nat, k: nat)
    requires Consistent(s, root, rs, cells, top) && 1 <= k < |rs|
    ensures Walk(s.mem, root, PathOf(rs[k].base)).Page? && Walk(s.mem, root, PathOf(rs[k - 1].base)).Page?
  {
    hide PathOf, PagePath, Consistent, Sorted;
    HeaderOf(s, root, rs, cells, top, k);
    HeaderOf(s, root, rs, cells, top, k - 1);
  }

  lemma BackAgain(rs: seq<Region>, k: nat)
    requires 1 <= k < |rs| && rs[k].size == PAGE_SIZE
    ensures var after := rs[..k] + rs[k + 1..]; after[..k] + [Region(rs[k].base, PAGE_SIZE)] + after[k..] == rs
  {
  }

  lemma SameMissing(m: Memory, m': Memory, root: Frame, path: seq<Index>)
    requires SameTranslations(m, m', root) && |path| == 4
    ensures Missing(m', root, path) == Missing(m, root, path)
  {
    assert |path[..1]| == 1 && |path[..2]| == 2 && |path[..3]| == 3;
  }

  lemma MappedKeeps(s0: State, s: State, root: Frame, path: seq<Index>, e: Entry)
    requires |path| == 4 && path[0] != RECURSIVE && Separated(s0.mem, root, s0.free) && Mapped(s0, s, root, path, e)
    ensures KeepsTranslations(s0.mem, s.mem, root) && DataKept(s0, s, root) && Separated(s.mem, root, s.free)
  {
    forall f | f in s0.mem && f !in s0.free && !IsTable(s0.mem, root, f)
      ensures !IsTable(s.mem, root, f)
    {
      if IsTable(s.mem, root, f) {
        NewTablesWereFree(s0, s, root, path, e, f);
      }
    }
  }
}
