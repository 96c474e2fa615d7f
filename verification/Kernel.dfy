/** init_memory in src/kernel/kernel.c: the frame allocator and the region list on top of the boot tables. */
module Kernel {
  import opened PageTables
  import opened Paging
  import opened Bitmap
  import opened PageRange
  import opened PageNumbers
  import opened AreaOrder
  import opened AreaMapping
  import opened RegionList
  import Boot
  import Vmm
  import opened Wrappers

  // The first frame above what init_bitmap reserves for the kernel.
  function FirstFrame(kernelPhysicalEnd: nat): nat {
    (kernelPhysicalEnd + RESERVED_ABOVE_KERNEL) / PAGE_SIZE
  }

  // The number of frames that the bitmap covers; all_memory counts KiB.
  function FrameCount(allMemory: nat): nat {
    allMemory * 1024 / PAGE_SIZE / BITS_PER_ROW * BITS_PER_ROW
  }

  // The bitmap covers as many whole rows of frames as fit into all_memory KiB.
  lemma FramesFitInRam(allMemory: nat)
    ensures FrameCount(allMemory) % BITS_PER_ROW == 0
    ensures FrameCount(allMemory) * PAGE_SIZE <= allMemory * 1024 < (FrameCount(allMemory) + BITS_PER_ROW) * PAGE_SIZE
  {
    var frames := allMemory * 1024 / PAGE_SIZE;
    assert FrameCount(allMemory) <= frames < FrameCount(allMemory) + BITS_PER_ROW;
  }

  // No frame has the number of a framebuffer page exactly if RAM ends within 32 KiB above 976 MiB.
  lemma SmallIsBelowTheFramebuffer(allMemory: nat)
    ensures FrameCount(allMemory) <= Boot.FRAMEBUFFER_SLOT * 512 <==> allMemory < 976 * 1024 + 32
  {
    hide FrameCount;
    FramesFitInRam(allMemory);
    Rows(allMemory);
  }

  // 510 GiB likewise.
  lemma NamedBelowTheWindow(allMemory: nat)
    ensures FrameCount(allMemory) <= 510 * 0x4_0000 <==> allMemory < 510 * 1024 * 1024 + 32
  {
    hide FrameCount;
    FramesFitInRam(allMemory);
    Rows(allMemory);
  }

  lemma Rows(allMemory: nat)
    requires FrameCount(allMemory) % BITS_PER_ROW == 0
    ensures FrameCount(allMemory) == FrameCount(allMemory) / BITS_PER_ROW * BITS_PER_ROW
  {
    hide FrameCount;
  }

  // What init_bitmap keeps back: the kernel, and 12 MiB behind it.
  lemma FirstFrameIsAbove(kernelPhysicalEnd: nat)
    ensures FirstFrame(kernelPhysicalEnd) * PAGE_SIZE <= kernelPhysicalEnd + 12 * 0x10_0000
    ensures kernelPhysicalEnd + 12 * 0x10_0000 < (FirstFrame(kernelPhysicalEnd) + 1) * PAGE_SIZE
  {
  }

  predicate Overlaps(area: (nat, nat), f: Frame) {
    area.0 / PAGE_SIZE <= f < area.1 / PAGE_SIZE
  }

  // init_pmm: init_bitmap, then every reserved area of the memory map.
  method InitPmm(allMemory: nat, kernelPhysicalEnd: nat, reserved: seq<(nat, nat)>) returns (frames: FrameBitmap)
    ensures frames.Valid() && fresh(frames) && fresh(frames.bitmap) && frames.totalPages == FrameCount(allMemory)
    ensures forall f: nat :: f in frames.Free() <==>
              FirstFrame(kernelPhysicalEnd) <= f < FrameCount(allMemory) && forall i :: 0 <= i < |reserved| ==>
                  !Overlaps(reserved[i], f)
    ensures frames.totalPages * PAGE_SIZE <= allMemory * 1024 < (frames.totalPages + BITS_PER_ROW) * PAGE_SIZE
    ensures forall f: nat :: f in frames.Free() ==>
              kernelPhysicalEnd + 12 * 0x10_0000 < (f + 1) * PAGE_SIZE <= allMemory * 1024
  {
    FramesFitInRam(allMemory);
    FirstFrameIsAbove(kernelPhysicalEnd);
    frames := new FrameBitmap.InitBitmap(allMemory * 1024, kernelPhysicalEnd);
    for i := 0 to |reserved|
      invariant forall f: nat :: f in frames.Free() <==>
                  FirstFrame(kernelPhysicalEnd) <= f < FrameCount(allMemory) && forall j :: 0 <= j < i ==>
                      !Overlaps(reserved[j], f)
    {
      frames.SetPageRangeUsed(reserved[i].0, reserved[i].1);
    }
  }

  // The kernel's tables lie below the reserved limit, and the frames above it are backed by zeroed RAM.
  ghost predicate Ready(m: Memory, b: Boot.Tables, shown: Option<Frame>, allMemory: nat, kernelPhysicalEnd: nat)
  {
    && Boot.Booted(m, b, shown) && Boot.DistinctTables(b)
    && (forall t :: t in Boot.FramesOf(b) ==> t < FirstFrame(kernelPhysicalEnd))
    && forall g :: FirstFrame(kernelPhysicalEnd) <= g < FrameCount(allMemory) ==> g in m && m[g][0] == EMPTY
  }

  // From the tables that boot.asm leaves, with or without a framebuffer, and four frames to spare to a region
  // list whose pages, now and as long as nothing is freed, are backed one by one by frames that are no page
  // tables. Every page table that boot did not leave is one of the frames that were free.
  method InitMemory(m: Memory, b: Boot.Tables, ghost shown: Option<Frame>, allMemory: nat, kernelPhysicalEnd: nat,
                    reserved: seq<(nat, nat)>, vmmArea: nat, ghost n: nat, ghost spare: set<Frame>)
    returns (manager: Vmm.Manager, ghost range: seq<seq<Index>>, ghost f: Frame, ghost free: set<Frame>)
    requires Ready(m, b, shown, allMemory, kernelPhysicalEnd) && 1 <= n <= 500 * 0x4_0000
    requires Boot.KERNEL_VIRTUAL_ADDR <= vmmArea < Boot.KERNEL_VIRTUAL_ADDR + 0x40_0000
    requires |spare| >= 4 && forall g :: g in spare ==>
               && FirstFrame(kernelPhysicalEnd) <= g < FrameCount(allMemory)
               && forall i :: 0 <= i < |reserved| ==> !Overlaps(reserved[i], g)
    ensures fresh(manager) && fresh(manager.space) && fresh(manager.space.frames) && fresh(manager.space.frames.bitmap)
    ensures manager.NeverFreed(n, range, [f]) && manager.space.root == b.p4
    ensures manager.regions == [Region(manager.vmRoot, PAGE_SIZE)]
    ensures range == Watched(shown, vmmArea, n, allMemory, kernelPhysicalEnd) && manager.vmRoot == Vmm.StartOf(vmmArea)
    ensures KeepsTranslations(m, manager.space.mem, b.p4) && manager.space.mem.Keys == m.Keys
    ensures TablesBorn(State(m, free), manager.Contents(), b.p4) && Recursive(m, b.p4, free) && spare <= free
    ensures OpensFor(State(m, free), manager.Contents(), b.p4, manager.vmRoot / PAGE_SIZE, 1)
    ensures manager.space.frames.Free() <= free && |free| <= |manager.space.frames.Free()| + 4
    ensures manager.space.frames.totalPages == FrameCount(allMemory)
    ensures forall g: nat :: g in free <==>
              FirstFrame(kernelPhysicalEnd) <= g < FrameCount(allMemory) && forall i :: 0 <= i < |reserved| ==>
                  !Overlaps(reserved[i], g)
    ensures DataKept(State(m, free), manager.Contents(), b.p4)
  {
    hide PathOf, PagePath, Separated, Recursive, Linear, KeepsTranslations, Boot.Booted, TablesBorn, OpensFor, DataKept;
    hide FirstFrame, FrameCount, Overlaps, Watched, Vmm.StartOf, Vmm.RootLinked, IsRange, StartsAt, TakesLowest;
    var frames := InitPmm(allMemory, kernelPhysicalEnd, reserved);
    free := frames.Free();
    assert spare <= free;
    Subset(spare, free);
    Boot.BootIsSeparated(m, b, shown, free);
    range := Watched(shown, vmmArea, n, allMemory, kernelPhysicalEnd);
    WatchedIsLinear(m, b, shown, free, vmmArea, n, allMemory, kernelPhysicalEnd);
    var space := new AddressSpace(m, b.p4, frames);
    manager := new Vmm.Manager(space);
    f := manager.InitVmm(vmmArea, n, range);
  }

  // n pages for regions, and the pages of the same numbers as the frames that the bitmap covers.
  ghost function Watched(shown: Option<Frame>, vmmArea: nat, n: nat,
                         allMemory: nat, kernelPhysicalEnd: nat): seq<seq<Index>>
  {
    var count := FrameCount(allMemory);
    Boot.WatchedRange(shown, Vmm.StartOf(vmmArea) / PAGE_SIZE, n, FirstFrame(kernelPhysicalEnd),
                      if count < 510 * 0x4_0000 then count else 510 * 0x4_0000)
  }

  lemma WatchedIsLinear(m: Memory, b: Boot.Tables, shown: Option<Frame>, free: set<Frame>, vmmArea: nat, n: nat,
                        allMemory: nat, kernelPhysicalEnd: nat)
    requires Boot.Booted(m, b, shown) && 1 <= n <= 500 * 0x4_0000
    requires Boot.KERNEL_VIRTUAL_ADDR <= vmmArea < Boot.KERNEL_VIRTUAL_ADDR + 0x40_0000
    ensures var range, start := Watched(shown, vmmArea, n, allMemory, kernelPhysicalEnd), Vmm.StartOf(vmmArea);
            && IsRange(range) && StartsAt(range, start, n) && start > 0
            && Linear(State(m, free), b.p4, range, [])
            && forall i :: 0 <= i < |range| ==> Boot.Unused(shown, range[i])
  {
    hide PathOf, PagePath, Boot.Booted, Vmm.StartOf, Boot.WatchedRange, FrameCount, Linear;
    Boot.VmmAreaIsInRange(vmmArea);
    Boot.WatchedAreUnused(shown, Vmm.StartOf(vmmArea) / PAGE_SIZE, n, FirstFrame(kernelPhysicalEnd),
                          if FrameCount(allMemory) < 510 * 0x4_0000 then FrameCount(allMemory) else 510 * 0x4_0000);
    Boot.BootRangeIsLinear(m, b, shown, free, Watched(shown, vmmArea, n, allMemory, kernelPhysicalEnd));
  }

  lemma Subset(small: set<Frame>, large: set<Frame>)
    requires small <= large
    ensures |small| <= |large|
  {
    assert large == small + (large - small);
  }
}
