/** Runs of the memory manager from the boot tables on: what vmm_free can read, and how the region list is lost. */
module FromBoot {
  import opened PageTables
  import opened DataPages
  import opened PageRange
  import opened PageNumbers
  import opened AreaOrder
  import opened AreaMapping
  import opened Paging
  import opened Bitmap
  import opened RegionList
  import opened RegionHeaders
  import opened VmmOutcome
  import opened Vmm
  import opened StaleFrames
  import opened Reach
  import opened Wrappers
  import Boot
  import Kernel

  // ---------------------------------------------------------------------------------------------
  // Without map_page calls of its own no region can be freed

  // Reading a free frame in place would go through a page of the range, or shows another frame.
  ghost predicate Hidden(m0: Memory, root: Frame, range: seq<seq<Index>>, t: Frame)
  {
    && t < PAGE_LIMIT
    && (PagePath(t) in range || (Walk(m0, root, PagePath(t)).Page? && Walk(m0, root, PagePath(t)).frame != t))
  }

  // The boot tables, the frames that were free then, and the pages to watch.
  ghost predicate Setting(s0: State, b: Boot.Tables, shown: Option<Frame>, range: seq<seq<Index>>)
  {
    && Boot.Booted(s0.mem, b, shown) && IsRange(range)
    && (forall i :: 0 <= i < |range| ==> Boot.Unused(shown, range[i]))
    && forall t :: t in s0.free ==> Hidden(s0.mem, b.p4, range, t)
  }

  // What a run of vmm_allocate has kept since.
  ghost predicate Since(s0: State, m: Manager, b: Boot.Tables, pages: nat, range: seq<seq<Index>>, backing: seq<Frame>)
    reads m, m.space, m.space.frames.bitmap
  {
    && m.NeverFreed(pages, range, backing) && m.space.root == b.p4 && m.space.mem.Keys == s0.mem.Keys
    && KeepsTranslations(s0.mem, m.space.mem, b.p4) && TablesBorn(s0, m.Contents(), b.p4)
    && m.space.frames.Free() <= s0.free
  }

  // The page table of a mapped page of the range was a free frame, and cannot be read in place.
  lemma TableOutOfReach(s0: State, s: State, b: Boot.Tables, shown: Option<Frame>, range: seq<seq<Index>>,
                        backing: seq<Frame>, i: nat)
    returns (t: Frame)
    requires Setting(s0, b, shown, range) && |backing| <= |range| && i < |backing|
    requires Linear(s, b.p4, range, backing) && Recursive(s.mem, b.p4, s.free)
    requires KeepsTranslations(s0.mem, s.mem, b.p4) && TablesBorn(s0, s, b.p4)
    ensures Follow(s.mem, b.p4, range[i][..3]) == Some(t) && t in s0.free
    ensures !TableAt(s.mem, b.p4, t * PAGE_SIZE, t)
  {
    hide PathOf, PagePath, Boot.Booted, Recursive, KeepsTranslations;
    MappedPart(s, b.p4, range, backing, i);
    TranslatedPath(s.mem, b.p4, s.free, range[i]);
    t := Follow(s.mem, b.p4, range[i][..3]).value;
    Boot.BootPathEnds(s0.mem, b, shown, range[i]);
    assert Plain(range[i][..3]);
    assert IsTable(s.mem, b.p4, t);
    NotInPlace(s0, s, b.p4, range, backing, t);
  }

  lemma MappedPart(s: State, root: Frame, range: seq<seq<Index>>, backing: seq<Frame>, i: nat)
    requires IsRange(range) && |backing| <= |range| && i < |backing| && Linear(s, root, range, backing)
    ensures Walk(s.mem, root, range[i]) == Page(backing[i], true)
  {
  }

  lemma NotInPlace(s0: State, s: State, root: Frame, range: seq<seq<Index>>, backing: seq<Frame>, t: Frame)
    requires IsRange(range) && |backing| <= |range| && Linear(s, root, range, backing)
    requires KeepsTranslations(s0.mem, s.mem, root) && Hidden(s0.mem, root, range, t) && IsTable(s.mem, root, t)
    ensures !TableAt(s.mem, root, t * PAGE_SIZE, t)
  {
    hide PathOf, PagePath;
    if t in s.mem {
      ReadInPlaceIff(s.mem, root, t);
      if PagePath(t) in range {
        var j :| 0 <= j < |range| && range[j] == PagePath(t);
        WatchedIsOther(s, root, range, backing, j, t);
      }
    }
  }

  // A page of the range is unmapped, or backed by a frame that is no table.
  lemma WatchedIsOther(s: State, root: Frame, range: seq<seq<Index>>, backing: seq<Frame>, j: nat, t: Frame)
    requires IsRange(range) && |backing| <= |range| && j < |range| && Linear(s, root, range, backing)
    requires IsTable(s.mem, root, t)
    ensures Walk(s.mem, root, range[j]) == Fault || Walk(s.mem, root, range[j]).frame != t
  {
    hide IsTable;
    if j < |backing| {
      assert OwnFrame(s, root, range[j], backing[j]);
    }
  }

  // The region list lies in the mapped part of the range.
  lemma RegionPage(rs: seq<Region>, pages: nat, range: seq<seq<Index>>, n: nat, k: nat) returns (i: nat)
    requires Sorted(rs) && StartsAt(range, rs[0].base, pages) && n <= pages && k < |rs|
    requires rs[|rs| - 1].End() == rs[0].base + n * PAGE_SIZE
    ensures i < n <= |range| && range[i] == PathOf(rs[k].base) && rs[k].base == rs[0].base + i * PAGE_SIZE
  {
    hide PathOf, PagePath;
    AlignedRegion(rs, 0);
    AlignedRegion(rs, k);
    if k > 0 {
      SortedOrder(rs, 0, k);
    }
    if k < |rs| - 1 {
      SortedOrder(rs, k, |rs| - 1);
    }
    i := (rs[k].base - rs[0].base) / PAGE_SIZE;
    PageOffset(rs[0].base, rs[k].base, i);
    PathOfPage(rs[0].base, i * PAGE_SIZE, rs[0].base / PAGE_SIZE, pages, i);
    assert range[..pages][i] == range[i];
  }

  lemma PageOffset(low: nat, high: nat, i: nat)
    requires low <= high && low % PAGE_SIZE == 0 && high % PAGE_SIZE == 0 && i == (high - low) / PAGE_SIZE
    ensures high == low + i * PAGE_SIZE && low == low / PAGE_SIZE * PAGE_SIZE
  {
  }

  // As long as nothing but vmm_allocate runs, vmm_free cannot read the tables of any region.
  lemma NothingInReach(s0: State, m: Manager, b: Boot.Tables, shown: Option<Frame>, pages: nat, range: seq<seq<Index>>,
                       backing: seq<Frame>, k: nat, pml4: nat)
    requires Setting(s0, b, shown, range) && Since(s0, m, b, pages, range, backing) && k < |m.regions|
    ensures !TablesIdentityMapped(m.space.mem, b.p4, pml4, PathOf(m.regions[k].base))
  {
    hide PathOf, PagePath, Boot.Booted, Recursive, KeepsTranslations, Linear, Consistent, TableAt, Setting, TablesBorn;
    hide StartsAt;
    ConsistentBounds(m.Contents(), b.p4, m.regions, m.cells, m.top);
    var i := RegionPage(m.regions, pages, range, |backing|, k);
    var t := TableOutOfReach(s0, m.Contents(), b, shown, range, backing, i);
  }

  // ---------------------------------------------------------------------------------------------
  // On a small machine reading them faults

  // What is known of the frames: RAM ends below the 976 MiB at which boot shows the framebuffer.
  ghost predicate SmallRam(free: set<Frame>, allMemory: nat, kernelPhysicalEnd: nat, vmmArea: nat)
  {
    && Boot.KERNEL_VIRTUAL_ADDR <= vmmArea < Boot.KERNEL_VIRTUAL_ADDR + 0x40_0000
    && Kernel.FrameCount(allMemory) <= Boot.FRAMEBUFFER_SLOT * 512
    && forall g :: g in free ==> Kernel.FirstFrame(kernelPhysicalEnd) <= g < Kernel.FrameCount(allMemory)
  }

  lemma FindWatched(free: set<Frame>, shown: Option<Frame>, allMemory: nat, kernelPhysicalEnd: nat, vmmArea: nat,
                    pages: nat, t: Frame)
    returns (i: nat)
    requires SmallRam(free, allMemory, kernelPhysicalEnd, vmmArea) && t in free
    ensures var range := Kernel.Watched(shown, vmmArea, pages, allMemory, kernelPhysicalEnd);
            pages <= i < |range| && range[i] == PagePath(t)
    ensures 0 < t < PAGE_LIMIT
  {
    hide PagePath, StartOf, Kernel.FrameCount;
    Boot.VmmAreaIsInRange(vmmArea);
    i := Boot.IsWatched(shown, StartOf(vmmArea) / PAGE_SIZE, pages, Kernel.FirstFrame(kernelPhysicalEnd),
                        Kernel.FrameCount(allMemory), t);
  }

  // The pages for regions lie above the first gigabyte.
  lemma HighPage(shown: Option<Frame>, allMemory: nat, kernelPhysicalEnd: nat, vmmArea: nat, pages: nat, i: nat)
    requires Boot.KERNEL_VIRTUAL_ADDR <= vmmArea < Boot.KERNEL_VIRTUAL_ADDR + 0x40_0000
    requires i < pages <= 500 * 0x4_0000
    ensures var range := Kernel.Watched(shown, vmmArea, pages, allMemory, kernelPhysicalEnd);
            i < |range| && |range[i]| == 4 && range[i][1] != 0
  {
    hide PagePath, StartOf, Kernel.FrameCount, PathOf;
    Boot.VmmAreaIsInRange(vmmArea);
    PagePathIs(StartOf(vmmArea) / PAGE_SIZE + i);
  }

  // The tables on the way to a mapped page of the range: the one below the root is boot's, the next two were free.
  lemma RegionTables(s0: State, s: State, b: Boot.Tables, shown: Option<Frame>, range: seq<seq<Index>>,
                     backing: seq<Frame>, i: nat)
    requires Setting(s0, b, shown, range) && |backing| <= |range| && i < |backing|
    requires range[i][1] != 0 && Recursive(s0.mem, b.p4, s0.free)
    requires Linear(s, b.p4, range, backing) && Recursive(s.mem, b.p4, s.free)
    requires KeepsTranslations(s0.mem, s.mem, b.p4) && TablesBorn(s0, s, b.p4)
    ensures Follow(s.mem, b.p4, range[i][..1]) == Some(b.p3) && range[i][0] != RECURSIVE
    ensures Follow(s.mem, b.p4, range[i][..2]).Some? && Follow(s.mem, b.p4, range[i][..2]).value in s0.free
    ensures Follow(s.mem, b.p4, range[i][..3]).Some? && Follow(s.mem, b.p4, range[i][..3]).value in s0.free
  {
    hide PathOf, PagePath, Boot.Booted, Recursive, KeepsTranslations;
    MappedPart(s, b.p4, range, backing, i);
    TranslatedPath(s.mem, b.p4, s.free, range[i]);
    Boot.BootPathEnds(s0.mem, b, shown, range[i]);
    TablesKept(s0.mem, s.mem, b.p4, s0.free, s.free, range[i][..1]);
    assert Plain(range[i][..2]) && Plain(range[i][..3]);
  }

  // A load of any word of table t through its physical address faults.
  ghost predicate Faults(m: Memory, root: Frame, t: Frame)
  {
    forall i: Index :: Walk(m, root, PathOf(t * PAGE_SIZE + i * WORD)) == Fault
  }

  // The second and the third table on the way exist, and reading them in place faults.
  ghost predicate TablesFault(m: Memory, root: Frame, path: seq<Index>)
    requires |path| == 4
  {
    && Follow(m, root, path[..2]).Some? && Faults(m, root, Follow(m, root, path[..2]).value)
    && Follow(m, root, path[..3]).Some? && Faults(m, root, Follow(m, root, path[..3]).value)
  }

  lemma FrameFaults(free: set<Frame>, s: State, root: Frame, shown: Option<Frame>, allMemory: nat,
                    kernelPhysicalEnd: nat, vmmArea: nat, pages: nat, range: seq<seq<Index>>,
                    backing: seq<Frame>, t: Frame)
    requires SmallRam(free, allMemory, kernelPhysicalEnd, vmmArea) && t in free
    requires range == Kernel.Watched(shown, vmmArea, pages, allMemory, kernelPhysicalEnd) && IsRange(range)
    requires |backing| <= pages && |backing| <= |range| && Linear(s, root, range, backing)
    ensures Faults(s.mem, root, t)
  {
    hide PathOf, PagePath, Kernel.Watched, Injective, OwnFrames, SmallRam;
    var j := FindWatched(free, shown, allMemory, kernelPhysicalEnd, vmmArea, pages, t);
    assert Walk(s.mem, root, range[j]) == Fault;
    forall i: Index
      ensures Walk(s.mem, root, PathOf(t * PAGE_SIZE + i * WORD)) == Fault
    {
      WordsOfPage(t, i);
    }
  }

  // As long as nothing but vmm_allocate runs, that is so for every region.
  lemma RegionFaults(s0: State, m: Manager, b: Boot.Tables, shown: Option<Frame>, allMemory: nat,
                     kernelPhysicalEnd: nat, vmmArea: nat, pages: nat, range: seq<seq<Index>>,
                     backing: seq<Frame>, k: nat)
    requires Setting(s0, b, shown, range) && Since(s0, m, b, pages, range, backing) && k < |m.regions|
    requires Recursive(s0.mem, b.p4, s0.free) && SmallRam(s0.free, allMemory, kernelPhysicalEnd, vmmArea)
    requires range == Kernel.Watched(shown, vmmArea, pages, allMemory, kernelPhysicalEnd) && pages <= 500 * 0x4_0000
    ensures TablesFault(m.space.mem, b.p4, PathOf(m.regions[k].base))
  {
    hide PathOf, PagePath, Boot.Booted, Recursive, KeepsTranslations, Linear, Consistent, Setting, TablesBorn, Faults;
    hide StartsAt, Kernel.Watched, IsRange;
    ConsistentBounds(m.Contents(), b.p4, m.regions, m.cells, m.top);
    var i := RegionPage(m.regions, pages, range, |backing|, k);
    HighPage(shown, allMemory, kernelPhysicalEnd, vmmArea, pages, i);
    RegionTables(s0, m.Contents(), b, shown, range, backing, i);
    FrameFaults(s0.free, m.Contents(), b.p4, shown, allMemory, kernelPhysicalEnd, vmmArea, pages, range, backing,
                Follow(m.space.mem, b.p4, range[i][..2]).value);
    FrameFaults(s0.free, m.Contents(), b.p4, shown, allMemory, kernelPhysicalEnd, vmmArea, pages, range, backing,
                Follow(m.space.mem, b.p4, range[i][..3]).value);
  }

  // ---------------------------------------------------------------------------------------------
  // The run

  function Pages(size: nat): nat {
    AlignToNearestPage(size + HEADER) / PAGE_SIZE
  }

  function AllPages(sizes: seq<nat>): nat {
    if sizes == [] then 0 else Pages(sizes[0]) + AllPages(sizes[1..])
  }

  function AllFrames(sizes: seq<nat>): nat {
    if sizes == [] then 0 else Pages(sizes[0]) + TableBound(Pages(sizes[0])) + AllFrames(sizes[1..])
  }

  // One more region.
  method AllocateOne(m: Manager, size: nat, ghost s0: State, ghost b: Boot.Tables, ghost pages: nat,
                     ghost range: seq<seq<Index>>, ghost backing: seq<Frame>)
    returns (address: nat, ghost backing': seq<Frame>)
    requires Since(s0, m, b, pages, range, backing) && |backing| + Pages(size) <= pages
    requires Pages(size) + TableBound(Pages(size)) <= |m.space.frames.Free()|
    modifies m, m.space`mem, m.space.frames.bitmap
    ensures Since(s0, m, b, pages, range, backing') && |backing'| == |backing| + Pages(size)
    ensures m.regions == old(m.regions) + [Region(old(m.regions[|m.regions| - 1].End()), Pages(size) * PAGE_SIZE)]
    ensures address == old(m.regions[|m.regions| - 1].End()) + HEADER
    ensures |m.cells| == |m.regions| && IsLowest(m.cells[|m.regions| - 1], old(m.space.frames.Free()))
    ensures m.cells[..|m.regions| - 1] == old(m.cells)
    ensures TakesLowest(old(m.space.frames.Free()), m.space.frames.Free())
    ensures |old(m.space.frames.Free())| <= |m.space.frames.Free()| + Pages(size) + TableBound(Pages(size))
    ensures OpensFor(old(m.Contents()), m.Contents(), b.p4, m.vmRoot / PAGE_SIZE + |backing|, Pages(size))
  {
    hide PathOf, PagePath, Consistent, KeepsTranslations, TablesBorn, Linear, Packed, TableBound, IsRange, StartsAt;
    hide TakesLowest, OpensFor, IsLowest, Pages, WordsWritten, ClearOfHeader;
    PagesOf(size);
    ghost var s1 := m.Contents();
    ghost var added;
    address, added := m.VmmAllocateNeverFreed(size, pages, range, backing);
    backing' := backing + added;
    ConsistentBounds(s1, b.p4, old(m.regions), old(m.cells), old(m.top));
    ConsistentBounds(m.Contents(), b.p4, m.regions, m.cells, m.top);
    KeptOnceMore(s0.mem, s1.mem, m.space.mem, b.p4);
    TakenBefore(s1.free, m.space.frames.Free());
    PageOfEnd(m.vmRoot, |backing|);
    BornTwice(s0, s1, m.Contents(), b.p4);
  }

  lemma PagesOf(size: nat)
    ensures AlignToNearestPage(size + HEADER) == Pages(size) * PAGE_SIZE
    ensures AlignToNearestPage(size + HEADER) / PAGE_SIZE == Pages(size)
  {
  }

  lemma PageOfEnd(base: nat, n: nat)
    ensures (base + n * PAGE_SIZE) / PAGE_SIZE == base / PAGE_SIZE + n
  {
  }

  lemma TakenBefore(before: set<Frame>, after: set<Frame>)
    requires TakesLowest(before, after)
    ensures after <= before
  {
  }

  // init_memory, and what is known of the run that starts there.
  method StartFromBoot(mem: Memory, b: Boot.Tables, ghost shown: Option<Frame>, allMemory: nat, kernelPhysicalEnd: nat,
                       reserved: seq<(nat, nat)>, vmmArea: nat, ghost pages: nat, ghost spare: set<Frame>)
    returns (m: Manager, ghost s0: State, ghost range: seq<seq<Index>>, ghost f: Frame)
    requires Kernel.Ready(mem, b, shown, allMemory, kernelPhysicalEnd)
    requires 1 <= pages <= 500 * 0x4_0000 && RamFits(shown, allMemory)
    requires Boot.KERNEL_VIRTUAL_ADDR <= vmmArea < Boot.KERNEL_VIRTUAL_ADDR + 0x40_0000
    requires |spare| >= 4 && SpareFrames(allMemory, kernelPhysicalEnd, reserved, spare)
    ensures fresh(m) && fresh(m.space) && fresh(m.space.frames) && fresh(m.space.frames.bitmap)
    ensures s0.mem == mem && Recursive(mem, b.p4, s0.free) && Setting(s0, b, shown, range)
    ensures Since(s0, m, b, pages, range, [f])
    ensures range == Kernel.Watched(shown, vmmArea, pages, allMemory, kernelPhysicalEnd)
    ensures m.regions == [Region(m.vmRoot, PAGE_SIZE)] && m.vmRoot == StartOf(vmmArea)
    ensures OpensFor(s0, m.Contents(), b.p4, m.vmRoot / PAGE_SIZE, 1) && |spare| <= |m.space.frames.Free()| + 4
    ensures m.space.frames.totalPages == Kernel.FrameCount(allMemory)
    ensures forall g :: g in s0.free ==> Kernel.FirstFrame(kernelPhysicalEnd) <= g < Kernel.FrameCount(allMemory)
  {
    hide PathOf, PagePath, Setting, Kernel.Watched, KeepsTranslations, TablesBorn, Linear, Consistent, Boot.Booted;
    hide StartOf, IsRange, StartsAt, Kernel.FirstFrame, Kernel.FrameCount, Kernel.Overlaps, Recursive, OpensFor;
    ghost var free;
    m, range, f, free := Kernel.InitMemory(
      mem, b, shown, allMemory, kernelPhysicalEnd, reserved, vmmArea, pages, spare);
    s0 := State(mem, free);
    BootSetting(s0, b, shown, allMemory, kernelPhysicalEnd, vmmArea, pages);
    Kernel.Subset(spare, free);
  }

  // Frames above the reserved limit that no reserved area covers.
  ghost predicate SpareFrames(allMemory: nat, kernelPhysicalEnd: nat, reserved: seq<(nat, nat)>, spare: set<Frame>)
  {
    forall g :: g in spare ==>
      && Kernel.FirstFrame(kernelPhysicalEnd) <= g < Kernel.FrameCount(allMemory)
      && forall i :: 0 <= i < |reserved| ==> !Kernel.Overlaps(reserved[i], g)
  }

  method AllocateAll(m: Manager, sizes: seq<nat>, ghost s0: State, ghost b: Boot.Tables, ghost pages: nat,
                     ghost range: seq<seq<Index>>, ghost start: seq<Frame>)
    returns (ghost backing: seq<Frame>)
    requires Since(s0, m, b, pages, range, start) && |start| + AllPages(sizes) <= pages
    requires AllFrames(sizes) <= |m.space.frames.Free()|
    modifies m, m.space`mem, m.space.frames.bitmap
    ensures Since(s0, m, b, pages, range, backing) && |m.regions| == |old(m.regions)| + |sizes|
  {
    hide Since;
    backing := start;
    var i := 0;
    assert sizes[0..] == sizes;
    while i < |sizes|
      invariant 0 <= i <= |sizes| && |m.regions| == |old(m.regions)| + i
      invariant Since(s0, m, b, pages, range, backing) && |backing| + AllPages(sizes[i..]) <= pages
      invariant AllFrames(sizes[i..]) <= |m.space.frames.Free()|
    {
      assert sizes[i..][0] == sizes[i] && sizes[i..][1..] == sizes[i + 1..];
      var address;
      address, backing := AllocateOne(m, sizes[i], s0, b, pages, range, backing);
      i := i + 1;
    }
  }

  // From InitMemory on, any number of regions: the tables of none of them can be read in place. The RAM is what
  // 510 GiB of page numbers can name, and the framebuffer does not lie where boot maps it. With more than 976 MiB
  // the page of a table may show another frame; with less, reading the second and third table faults.
  method AllocateFromBoot(mem: Memory, b: Boot.Tables, ghost shown: Option<Frame>, allMemory: nat,
                          kernelPhysicalEnd: nat, reserved: seq<(nat, nat)>, vmmArea: nat, sizes: seq<nat>,
                          ghost pages: nat, ghost spare: set<Frame>)
    returns (m: Manager)
    requires Kernel.Ready(mem, b, shown, allMemory, kernelPhysicalEnd)
    requires 1 + AllPages(sizes) <= pages <= 500 * 0x4_0000 && RamFits(shown, allMemory)
    requires Boot.KERNEL_VIRTUAL_ADDR <= vmmArea < Boot.KERNEL_VIRTUAL_ADDR + 0x40_0000
    requires |spare| >= 4 + AllFrames(sizes) && SpareFrames(allMemory, kernelPhysicalEnd, reserved, spare)
    ensures m.space.root == b.p4 && |m.regions| == 1 + |sizes|
    ensures forall k: nat, pml4: nat :: k < |m.regions| ==>
              !TablesIdentityMapped(m.space.mem, b.p4, pml4, PathOf(m.regions[k].base))
    ensures Kernel.FrameCount(allMemory) <= Boot.FRAMEBUFFER_SLOT * 512 ==>
              forall k: nat :: k < |m.regions| ==> TablesFault(m.space.mem, b.p4, PathOf(m.regions[k].base))
  {
    hide PathOf, Setting, TablesIdentityMapped, Kernel.Ready, Kernel.Watched, KeepsTranslations, TablesBorn, RamFits;
    hide StartOf, SpareFrames, Kernel.FrameCount, Kernel.FirstFrame, Linear, Consistent, IsRange, StartsAt, TablesFault;
    hide Recursive;
    ghost var s0, range, f;
    m, s0, range, f := StartFromBoot(mem, b, shown, allMemory, kernelPhysicalEnd, reserved, vmmArea, pages, spare);
    ghost var backing := AllocateAll(m, sizes, s0, b, pages, range, [f]);
    forall k: nat, pml4: nat | k < |m.regions|
      ensures !TablesIdentityMapped(m.space.mem, b.p4, pml4, PathOf(m.regions[k].base))
    {
      NothingInReach(s0, m, b, shown, pages, range, backing, k, pml4);
    }
    if Kernel.FrameCount(allMemory) <= Boot.FRAMEBUFFER_SLOT * 512 {
      forall k: nat | k < |m.regions|
        ensures TablesFault(m.space.mem, b.p4, PathOf(m.regions[k].base))
      {
        RegionFaults(s0, m, b, shown, allMemory, kernelPhysicalEnd, vmmArea, pages, range, backing, k);
      }
    }
  }

  predicate RamFits(shown: Option<Frame>, allMemory: nat) {
    Kernel.FrameCount(allMemory) <= 510 * 0x4_0000 && shown != Some(Boot.FRAMEBUFFER_SLOT * 512)
  }

  lemma FramebufferPage(m: Memory, b: Boot.Tables, shown: Option<Frame>, t: Frame)
    requires Boot.Booted(m, b, shown) && shown.Some? && t / 512 == Boot.FRAMEBUFFER_SLOT
    requires shown.value != Boot.FRAMEBUFFER_SLOT * 512
    ensures Walk(m, b.p4, PagePath(t)).Page? && Walk(m, b.p4, PagePath(t)).frame != t
  {
    hide PathOf, Boot.Booted;
    PagePathIs(t);
    PageDigits(t);
    Boot.BootTranslation(m, b, shown, PagePath(t));
  }

  // A frame below 510 GiB has its page in the range, or boot shows the framebuffer there.
  lemma IsHidden(m: Memory, b: Boot.Tables, shown: Option<Frame>, allMemory: nat, kernelPhysicalEnd: nat, vmmArea: nat,
                 pages: nat, t: Frame)
    requires Boot.Booted(m, b, shown) && RamFits(shown, allMemory)
    requires Kernel.FirstFrame(kernelPhysicalEnd) <= t < Kernel.FrameCount(allMemory)
    ensures Hidden(m, b.p4, Kernel.Watched(shown, vmmArea, pages, allMemory, kernelPhysicalEnd), t)
  {
    hide PathOf, PagePath, Boot.Booted, StartOf, Kernel.FrameCount, Kernel.FirstFrame, Boot.WatchedRange, Walk;
    hide Boot.WatchedPage, Boot.Unseen;
    var range := Kernel.Watched(shown, vmmArea, pages, allMemory, kernelPhysicalEnd);
    var p, lo, hi := StartOf(vmmArea) / PAGE_SIZE, Kernel.FirstFrame(kernelPhysicalEnd), Kernel.FrameCount(allMemory);
    if !Boot.Elsewhere(shown, p, pages, t) {
      var i := Boot.IsWatched(shown, p, pages, lo, hi, t);
    } else if p <= t < p + pages {
      assert range[t - p] == PagePath(t);
    } else {
      FramebufferPage(m, b, shown, t);
    }
  }

  lemma BootSetting(s0: State, b: Boot.Tables, shown: Option<Frame>, allMemory: nat, kernelPhysicalEnd: nat,
                    vmmArea: nat, pages: nat)
    requires Boot.Booted(s0.mem, b, shown) && 1 <= pages <= 500 * 0x4_0000 && RamFits(shown, allMemory)
    requires Boot.KERNEL_VIRTUAL_ADDR <= vmmArea < Boot.KERNEL_VIRTUAL_ADDR + 0x40_0000
    requires forall g :: g in s0.free ==> Kernel.FirstFrame(kernelPhysicalEnd) <= g < Kernel.FrameCount(allMemory)
    ensures Setting(s0, b, shown, Kernel.Watched(shown, vmmArea, pages, allMemory, kernelPhysicalEnd))
  {
    hide PathOf, PagePath, Boot.Booted, Linear, Kernel.Watched, Boot.Unused, StartOf, Kernel.FrameCount, Hidden;
    hide RamFits;
    Kernel.WatchedIsLinear(s0.mem, b, shown, {}, vmmArea, pages, allMemory, kernelPhysicalEnd);
    var range := Kernel.Watched(shown, vmmArea, pages, allMemory, kernelPhysicalEnd);
    forall t | t in s0.free
      ensures Hidden(s0.mem, b.p4, range, t)
    {
      IsHidden(s0.mem, b, shown, allMemory, kernelPhysicalEnd, vmmArea, pages, t);
    }
  }

  // ---------------------------------------------------------------------------------------------
  // With two calls of map_page the list can be lost

  // The symbol p4_table, in the higher half, shows the root table.
  lemma RootPointer(m: Memory, b: Boot.Tables, shown: Option<Frame>)
    requires Boot.Booted(m, b, shown) && b.p4 < Boot.LOOP_LIMIT
    ensures TableAt(m, b.p4, Boot.KERNEL_VIRTUAL_ADDR + b.p4 * PAGE_SIZE, b.p4)
  {
    hide PathOf, Canonical;
    var pointer := Boot.KERNEL_VIRTUAL_ADDR + b.p4 * PAGE_SIZE;
    forall i: Index
      ensures WordAt(m, b.p4, pointer, i, b.p4)
    {
      var x := b.p4 * PAGE_SIZE + i * WORD;
      Boot.BootMapsTheKernel(m, b, shown, x);
      Boot.HighWord(b.p4, i);
    }
    assert b.p4 in m by {
      BootTablesInRam(m, b, shown);
    }
  }

  lemma BootTablesInRam(m: Memory, b: Boot.Tables, shown: Option<Frame>)
    requires Boot.Booted(m, b, shown)
    ensures b.p4 in m && b.p3 in m
  {
  }

  // What the machine must be like: the boot tables and the kernel in the first 4 MiB, at most 976 MiB of RAM, so
  // that no frame has the number of a framebuffer page, and a few spare frames.
  ghost predicate SmallMachine(mem: Memory, b: Boot.Tables, shown: Option<Frame>, allMemory: nat,
                               kernelPhysicalEnd: nat, reserved: seq<(nat, nat)>, spare: set<Frame>)
  {
    && Kernel.Ready(mem, b, shown, allMemory, kernelPhysicalEnd)
    && 0 < b.p4 < Boot.LOOP_LIMIT && 0 < b.p3 < Boot.LOOP_LIMIT
    && Kernel.FrameCount(allMemory) <= Boot.FRAMEBUFFER_SLOT * 512 && shown != Some(Boot.FRAMEBUFFER_SLOT * 512)
    && |spare| >= 39 && SpareFrames(allMemory, kernelPhysicalEnd, reserved, spare)
  }

  // init_memory, two regions of one page, two calls of map_page, and then the calls of LoseTheList: afterwards
  // the words in memory are no such list, whatever frames one takes for it.
  method LoseTheListFromBoot(mem: Memory, b: Boot.Tables, ghost shown: Option<Frame>, allMemory: nat,
                             kernelPhysicalEnd: nat, reserved: seq<(nat, nat)>, vmmArea: nat, ghost spare: set<Frame>)
    returns (m: Manager)
    requires SmallMachine(mem, b, shown, allMemory, kernelPhysicalEnd, reserved, spare)
    requires Boot.KERNEL_VIRTUAL_ADDR <= vmmArea < Boot.KERNEL_VIRTUAL_ADDR + 0x40_0000
    ensures |m.regions| == 4 && m.space.root == b.p4
    ensures forall cs :: !ListInMemory(m.space.mem, b.p4, m.regions, cs)
  {
    hide PathOf, PagePath, Setting, TablesIdentityMapped, Kernel.Ready, Kernel.Watched, KeepsTranslations, TablesBorn;
    hide StartOf, SpareFrames, Kernel.FrameCount, Kernel.FirstFrame, Linear, Consistent, IsRange, StartsAt, TakesLowest;
    hide Packed, ListInMemory, UpperInPlace, Recursive;
    var address;
    ghost var s0, range, backing;
    m, address, s0, range, backing := TwoRegionsFromBoot(
      mem, b, shown, allMemory, kernelPhysicalEnd, reserved, vmmArea, spare);
    ghost var free := m.space.frames.Free();
    SeeRegion(m, address, s0, b, shown, allMemory, kernelPhysicalEnd, vmmArea, range, backing);
    TakenBefore(free, m.space.frames.Free());
    LoseTheList(m, address, Boot.KERNEL_VIRTUAL_ADDR + b.p4 * PAGE_SIZE, 1, 5, range[..5], backing);
  }

  // An address between the boot mappings and those that this run makes: boot left its first two tables.
  const LONE_ADDRESS: nat := 0x80_0000

  ghost predicate LacksTable(m: Memory, root: Frame)
  {
    Follow(m, root, [0, 0, 4]) == None
  }

  lemma LonePath()
    ensures PathOf(LONE_ADDRESS) == [0, 0, 4, 0]
  {
    PathOfFields(0, 0, 0, 4, 0, 0);
  }

  lemma BootLacksTable(s0: State, b: Boot.Tables, shown: Option<Frame>, range: seq<seq<Index>>)
    requires Setting(s0, b, shown, range)
    ensures LacksTable(s0.mem, b.p4) && Follow(s0.mem, b.p4, [0]).Some? && Follow(s0.mem, b.p4, [0, 0]).Some?
  {
    hide Boot.Booted, Hidden;
    var x: seq<Index> := [0, 0, 4, 0];
    Boot.BootPathEnds(s0.mem, b, shown, x);
    assert x[..1] == [0] && x[..2] == [0, 0] && x[..3] == [0, 0, 4];
  }

  // Page j of those for regions needs no table there.
  lemma StillLacksTable(s0: State, s: State, root: Frame, vmmArea: nat, j: nat)
    requires Boot.KERNEL_VIRTUAL_ADDR <= vmmArea < Boot.KERNEL_VIRTUAL_ADDR + 0x40_0000 && j < 5
    requires OpensFor(s0, s, root, StartOf(vmmArea) / PAGE_SIZE + j, 1) && LacksTable(s0.mem, root)
    ensures LacksTable(s.mem, root)
  {
    hide PagePath, StartOf, NewSlots, OpensOnly;
    var p := StartOf(vmmArea) / PAGE_SIZE + j;
    Boot.VmmAreaIsInRange(vmmArea);
    PagePathIs(p);
    if !LacksTable(s.mem, root) {
      var i, k := OpenedByPage(s0, s, root, PagePaths(p, 1), 1, [0, 0, 4]);
    }
  }

  // Nor do the pages of the tables' own numbers.
  lemma OthersLackTable(m0: Memory, m: Memory, root: Frame, free: set<Frame>, allMemory: nat, kernelPhysicalEnd: nat,
                        vmmArea: nat, t2: Frame, t3: Frame)
    requires SmallRam(free, allMemory, kernelPhysicalEnd, vmmArea) && t2 in free && t3 in free
    requires OpensAlong(m0, m, root, PagePath(t2), PagePath(t3))
    ensures LacksTable(m0, root) ==> LacksTable(m, root)
  {
    hide PagePath, SmallRam;
    OtherSlot(free, allMemory, kernelPhysicalEnd, vmmArea, t2);
    OtherSlot(free, allMemory, kernelPhysicalEnd, vmmArea, t3);
  }

  lemma OtherSlot(free: set<Frame>, allMemory: nat, kernelPhysicalEnd: nat, vmmArea: nat, t: Frame)
    requires SmallRam(free, allMemory, kernelPhysicalEnd, vmmArea) && t in free
    ensures PagePath(t)[2] != 4
  {
    hide PagePath, Kernel.FrameCount;
    PagePathIs(t);
    assert 5 <= t / 512 < Boot.FRAMEBUFFER_SLOT;
  }

  // init_memory and two regions of one page; `address` is the pointer to the first of them.
  method TwoRegionsFromBoot(mem: Memory, b: Boot.Tables, ghost shown: Option<Frame>, allMemory: nat,
                            kernelPhysicalEnd: nat, reserved: seq<(nat, nat)>, vmmArea: nat, ghost spare: set<Frame>)
    returns (m: Manager, address: nat, ghost s0: State, ghost range: seq<seq<Index>>, ghost backing: seq<Frame>)
    requires SmallMachine(mem, b, shown, allMemory, kernelPhysicalEnd, reserved, spare)
    requires Boot.KERNEL_VIRTUAL_ADDR <= vmmArea < Boot.KERNEL_VIRTUAL_ADDR + 0x40_0000
    ensures fresh(m) && fresh(m.space) && fresh(m.space.frames) && fresh(m.space.frames.bitmap)
    ensures Setting(s0, b, shown, range) && Since(s0, m, b, 5, range, backing) && |backing| == 3
    ensures InKernelSpace(s0, b, allMemory, kernelPhysicalEnd, vmmArea) && 5 <= |range|
    ensures range == Kernel.Watched(shown, vmmArea, 5, allMemory, kernelPhysicalEnd) && m.vmRoot == StartOf(vmmArea)
    ensures |m.regions| == 3 == |m.cells| && address == m.regions[1].base + HEADER && m.regions[1].size == PAGE_SIZE
    ensures |m.space.frames.Free()| >= 21 && m.cells[1] < m.space.frames.totalPages
    ensures forall h :: h in m.space.frames.Free() ==> m.cells[1] < h
    ensures LacksTable(m.space.mem, b.p4) && s0.mem == mem
  {
    hide PathOf, PagePath, Setting, Kernel.Ready, Kernel.Watched, KeepsTranslations, TablesBorn, Recursive;
    hide StartOf, SpareFrames, Kernel.FrameCount, Kernel.FirstFrame, Linear, Consistent, IsRange, TakesLowest;
    hide Packed, OpensFor, LacksTable, Pages, TableBound, IsLowest;
    OnePage();
    ghost var f;
    m, s0, range, f := StartFromBoot(mem, b, shown, allMemory, kernelPhysicalEnd, reserved, vmmArea, 5, spare);
    ghost var free, s1 := m.space.frames.Free(), m.Contents();
    BootLacksTable(s0, b, shown, range);
    StillLacksTable(s0, s1, b.p4, vmmArea, 0);
    address, backing := AllocateOne(m, PAGE_SIZE - HEADER, s0, b, 5, range, [f]);
    ghost var free', s2 := m.space.frames.Free(), m.Contents();
    StillLacksTable(s1, s2, b.p4, vmmArea, 1);
    TakenBefore(free, free');
    var other;
    other, backing := AllocateOne(m, PAGE_SIZE - HEADER, s0, b, 5, range, backing);
    StillLacksTable(s2, m.Contents(), b.p4, vmmArea, 2);
    TakenBefore(free', m.space.frames.Free());
    assert m.cells[1] == m.cells[..2][1];
    OneIsInUse(m.Contents(), b.p4, m.regions, m.cells, m.top, free);
  }

  // The frame behind the second header came before all that are free now.
  lemma OneIsInUse(s: State, root: Frame, rs: seq<Region>, cells: seq<Frame>, top: nat, free: set<Frame>)
    requires Consistent(s, root, rs, cells, top) && |rs| == 3 && |cells| == 3
    requires s.free <= free && IsLowest(cells[1], free)
    ensures forall h :: h in s.free ==> cells[1] < h
  {
    hide PathOf, PagePath, Sorted, Separated, Recursive, MappedBelow, IsTable;
    HeaderOf(s, root, rs, cells, top, 1);
  }

  // The two calls of map_page for the second region.
  method SeeRegion(m: Manager, address: nat, ghost s0: State, b: Boot.Tables, ghost shown: Option<Frame>,
                   ghost allMemory: nat, ghost kernelPhysicalEnd: nat, ghost vmmArea: nat,
                   ghost range: seq<seq<Index>>, ghost backing: seq<Frame>)
    requires Setting(s0, b, shown, range) && Since(s0, m, b, 5, range, backing) && |backing| == 3
    requires InKernelSpace(s0, b, allMemory, kernelPhysicalEnd, vmmArea)
    requires range == Kernel.Watched(shown, vmmArea, 5, allMemory, kernelPhysicalEnd) && m.vmRoot == StartOf(vmmArea)
    requires |m.regions| == 3 && address == m.regions[1].base + HEADER && |m.space.frames.Free()| >= 6
    modifies m.space`mem, m.space.frames.bitmap
    ensures m.NeverFreed(5, range[..5], backing)
    ensures TablesIdentityMapped(m.space.mem, b.p4, Boot.KERNEL_VIRTUAL_ADDR + b.p4 * PAGE_SIZE,
                                 PathOf(address - HEADER))
    ensures TakesLowest(old(m.space.frames.Free()), m.space.frames.Free())
    ensures |old(m.space.frames.Free())| <= |m.space.frames.Free()| + 6
    ensures KeepsTranslations(old(m.space.mem), m.space.mem, b.p4)
    ensures old(LacksTable(m.space.mem, b.p4)) ==> LacksTable(m.space.mem, b.p4)
  {
    hide PathOf, PagePath, TablesIdentityMapped, Kernel.Watched, KeepsTranslations, TablesBorn, Linear, Consistent;
    hide StartOf, IsRange, StartsAt, TakesLowest, Packed, Setting, UpperInPlace, SmallRam, OpensAlong, LacksTable;
    ghost var m0 := m.space.mem;
    var base, pml4 := address - HEADER, Boot.KERNEL_VIRTUAL_ADDR + b.p4 * PAGE_SIZE;
    ConsistentBounds(m.Contents(), b.p4, m.regions, m.cells, m.top);
    ghost var i := RegionPage(m.regions, 5, range, 3, 1);
    UpperTables(s0, m.Contents(), b, shown, allMemory, kernelPhysicalEnd, vmmArea, range, backing, i);
    var t2, t3 := Table(m.space.mem, b.p4, PathOf(base), 2), Table(m.space.mem, b.p4, PathOf(base), 3);
    ghost var i2 := FindWatched(s0.free, shown, allMemory, kernelPhysicalEnd, vmmArea, 5, t2);
    ghost var i3 := FindWatched(s0.free, shown, allMemory, kernelPhysicalEnd, vmmArea, 5, t3);
    ReadTables(m, pml4, t2, t3, base, i2, i3, 5, range, backing);
    OthersLackTable(m0, m.space.mem, b.p4, s0.free, allMemory, kernelPhysicalEnd, vmmArea, t2, t3);
  }

  function Table(m: Memory, root: Frame, path: seq<Index>, k: nat): Frame
    requires |path| == 4 && k <= 3
  {
    match Follow(m, root, path[..k]) case Some(t) => t case None => 0
  }

  // What is known of the frames and the boot tables.
  ghost predicate InKernelSpace(s0: State, b: Boot.Tables, allMemory: nat, kernelPhysicalEnd: nat, vmmArea: nat)
  {
    && SmallRam(s0.free, allMemory, kernelPhysicalEnd, vmmArea)
    && 0 < b.p4 < Boot.LOOP_LIMIT && 0 < b.p3 < Boot.LOOP_LIMIT && Recursive(s0.mem, b.p4, s0.free)
  }

  lemma UpperTables(s0: State, s: State, b: Boot.Tables, shown: Option<Frame>, allMemory: nat, kernelPhysicalEnd: nat,
                    vmmArea: nat, range: seq<seq<Index>>, backing: seq<Frame>, i: nat)
    requires Setting(s0, b, shown, range) && |backing| == 3 <= |range| && i < 3
    requires InKernelSpace(s0, b, allMemory, kernelPhysicalEnd, vmmArea)
    requires range == Kernel.Watched(shown, vmmArea, 5, allMemory, kernelPhysicalEnd)
    requires Linear(s, b.p4, range, backing) && Recursive(s.mem, b.p4, s.free) && s.mem.Keys == s0.mem.Keys
    requires KeepsTranslations(s0.mem, s.mem, b.p4) && TablesBorn(s0, s, b.p4)
    ensures var t2, t3 := Table(s.mem, b.p4, range[i], 2), Table(s.mem, b.p4, range[i], 3);
            && UpperInPlace(s.mem, b.p4, Boot.KERNEL_VIRTUAL_ADDR + b.p4 * PAGE_SIZE, range[i], t2, t3)
            && t2 in s0.free && t3 in s0.free
  {
    hide PathOf, PagePath, Boot.Booted, Recursive, KeepsTranslations, TableAt, Linear, TablesBorn, Boot.Unused;
    hide Kernel.FrameCount, StartOf;
    HighPage(shown, allMemory, kernelPhysicalEnd, vmmArea, 5, i);
    RegionTables(s0, s, b, shown, range, backing, i);
    RootPointer(s0.mem, b, shown);
    BootTablesInRam(s0.mem, b, shown);
    Boot.TablesInReach(s0.mem, b, shown, b.p3);
    TableStaysAt(s0.mem, s.mem, b.p4, Boot.KERNEL_VIRTUAL_ADDR + b.p4 * PAGE_SIZE, b.p4);
    TableStaysAt(s0.mem, s.mem, b.p4, b.p3 * PAGE_SIZE, b.p3);
  }

  // The same two regions and calls of map_page, and then those of LoseTranslations for an address at 8 MiB:
  // translations that memory had before the last of them are lost.
  method LoseTranslationsFromBoot(mem: Memory, b: Boot.Tables, ghost shown: Option<Frame>, allMemory: nat,
                                  kernelPhysicalEnd: nat, reserved: seq<(nat, nat)>, vmmArea: nat,
                                  physicalAddress: nat, ghost spare: set<Frame>)
    returns (m: Manager, ghost before: Memory)
    requires SmallMachine(mem, b, shown, allMemory, kernelPhysicalEnd, reserved, spare)
    requires Boot.KERNEL_VIRTUAL_ADDR <= vmmArea < Boot.KERNEL_VIRTUAL_ADDR + 0x40_0000
    ensures |m.regions| == 3 && m.space.root == b.p4
    ensures KeepsTranslations(mem, before, b.p4) && !KeepsTranslations(before, m.space.mem, b.p4)
  {
    hide PathOf, PagePath, Setting, TablesIdentityMapped, Kernel.Ready, Kernel.Watched, KeepsTranslations, TablesBorn;
    hide StartOf, SpareFrames, Kernel.FrameCount, Kernel.FirstFrame, Linear, Consistent, IsRange, StartsAt, TakesLowest;
    hide Packed, Recursive, LacksTable, LacksLastTable;
    var address;
    ghost var s0, range, backing;
    m, address, s0, range, backing := TwoRegionsFromBoot(
      mem, b, shown, allMemory, kernelPhysicalEnd, reserved, vmmArea, spare);
    ghost var s1 := m.Contents();
    SeeRegion(m, address, s0, b, shown, allMemory, kernelPhysicalEnd, vmmArea, range, backing);
    TakenBefore(s1.free, m.space.frames.Free());
    ghost var s2 := m.Contents();
    KeptOnceMore(s0.mem, s1.mem, s2.mem, b.p4);
    ConsistentBounds(s2, b.p4, m.regions, m.cells, m.top);
    LoneAddress(s0, s2, b, shown, range);
    before := LoseTranslations(m, address, Boot.KERNEL_VIRTUAL_ADDR + b.p4 * PAGE_SIZE, LONE_ADDRESS, physicalAddress,
                               PT_PRESENT_BIT | PT_RW_BIT, 1);
    KeptOnceMore(s0.mem, s2.mem, before, b.p4);
  }

  lemma LoneAddress(s0: State, s: State, b: Boot.Tables, shown: Option<Frame>, range: seq<seq<Index>>)
    requires Setting(s0, b, shown, range) && Recursive(s0.mem, b.p4, s0.free) && Recursive(s.mem, b.p4, s.free)
    requires KeepsTranslations(s0.mem, s.mem, b.p4) && LacksTable(s.mem, b.p4)
    ensures LacksLastTable(s.mem, b.p4, PathOf(LONE_ADDRESS))
  {
    hide PathOf, Setting, Recursive, KeepsTranslations;
    LonePath();
    BootLacksTable(s0, b, shown, range);
    var x: seq<Index> := [0, 0, 4, 0];
    assert x[..1] == [0] && x[..2] == [0, 0] && x[..3] == [0, 0, 4];
    TablesKept(s0.mem, s.mem, b.p4, s0.free, s.free, [0]);
    TablesKept(s0.mem, s.mem, b.p4, s0.free, s.free, [0, 0]);
  }

  lemma OnePage()
    ensures Pages(PAGE_SIZE - HEADER) == 1 && TableBound(1) == 6
  {
  }
}
