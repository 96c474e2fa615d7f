/** src/mem/vmm.c: regions of virtual memory, kept in an intrusive list that lives in the memory it describes. */
module Vmm {
  import opened PageTables
  import opened DataPages
  import opened PageRange
  import opened PageNumbers
  import opened AreaOrder
  import opened AreaMapping
  import opened StaleStores
  import opened Paging
  import opened Bitmap
  import opened RegionList
  import opened RegionHeaders
  import opened VmmOutcome
  import opened Wrappers

  function AlignToNearestPage(value: nat): (r: nat)
    ensures r % PAGE_SIZE == 0 && value <= r < value + PAGE_SIZE
  {
    (value + PAGE_SIZE - 1) / PAGE_SIZE * PAGE_SIZE
  }

  const ONE_GIGABYTE := 0x4000_0000

  // The page-aligned start of the area. `&vmm_area + ONE_GIGABYTE` counts in 8-byte words and wraps.
  function StartOf(vmmArea: nat): (r: nat)
    ensures r % PAGE_SIZE == 0
  {
    AlignToNearestPage((vmmArea + ONE_GIGABYTE * WORD) % 0x1_0000_0000_0000_0000)
  }

  // The area starts at the next page boundary at or above the wrapped sum.
  lemma StartIsTheNextPage(vmmArea: nat)
    ensures var sum := (vmmArea + 0x2_0000_0000) % 0x1_0000_0000_0000_0000;
            sum <= StartOf(vmmArea) < sum + PAGE_SIZE && StartOf(vmmArea) % PAGE_SIZE == 0
  {
  }

  lemma RootPage(range: seq<seq<Index>>, base: nat, pages: nat)
    requires base % PAGE_SIZE == 0 && IsRange(range) && StartsAt(range, base, pages) && pages >= 1
    ensures range != [] && range[0] == PathOf(base) && range[0][0] != RECURSIVE
    ensures base + PAGE_SIZE <= PAGE_LIMIT * PAGE_SIZE
  {
    hide PathOf, PagePath;
    PathOfPage(base, 0, base / PAGE_SIZE, pages, 0);
    assert range[..pages][0] == range[0];
  }

  lemma OwnHeader(s: State, root: Frame, b: nat, f: Frame)
    requires Recursive(s.mem, root, s.free) && b % PAGE_SIZE == 0 && b + PAGE_SIZE <= PAGE_LIMIT * PAGE_SIZE
    requires OwnFrame(s, root, PathOf(b), f)
    ensures HeaderFrame(s.mem, root, b, f, f) && f in s.mem && !IsTable(s.mem, root, f)
  {
    hide PathOf, Recursive, IsTable;
    DataHeader(s.mem, root, s.free, b, f, f);
  }

  lemma RootIsConsistent(s0: State, s1: State, s: State, root: Frame, pages: nat, range: seq<seq<Index>>,
                         base: nat, f: Frame)
    requires base > 0 && base % PAGE_SIZE == 0 && IsRange(range) && StartsAt(range, base, pages) && pages >= 1
    requires Separated(s0.mem, root, s0.free) && FreshlyMapped(s0, s1, root, range[0], f) && s0.mem[f][0] == EMPTY
    requires Linear(s1, root, range, [f]) && OwnFrame(s1, root, range[0], f)
    requires s == State(SetEntry(s1.mem, f, 1, Word(PAGE_SIZE)), s1.free) && SameTranslations(s1.mem, s.mem, root)
    requires Separated(s.mem, root, s.free) && Recursive(s.mem, root, s.free)
    ensures s.mem.Keys == s1.mem.Keys && f in s0.mem && s.mem[f] == s0.mem[f][1 := Word(PAGE_SIZE)]
    ensures Linear(s, root, range, [f])
    ensures Consistent(s, root, [Region(base, PAGE_SIZE)], [f], base / PAGE_SIZE + 1)
  {
    hide PathOf, PagePath, Mapped, Linear, Recursive, Separated;
    LinearKept(s1, s.mem, root, range, [f]);
    RootHeaderUntouched(s0, s1, root, range[0], f);
    SameTables(s1.mem, s.mem, root, f);
    PathOfPage(base, 0, base / PAGE_SIZE, pages, 0);
    assert range[..pages][0] == range[0];
    assert IsHeader(s.mem, f, 0, PAGE_SIZE);
    assert Behind(s.mem, root, base, f);
  }

  lemma RootHeaderUntouched(s0: State, s1: State, root: Frame, path: seq<Index>, f: Frame)
    requires |path| == 4 && Separated(s0.mem, root, s0.free) && FreshlyMapped(s0, s1, root, path, f)
    ensures f in s1.mem && f in s0.mem && s1.mem[f] == s0.mem[f]
  {
    SeparatedIsRecursive(s0.mem, root, s0.free);
    assert !IsTable(s0.mem, root, f);
  }

  // Nothing else that holds data changes.
  lemma OtherDataKept(s0: State, s1: State, s: State, root: Frame, path: seq<Index>, f: Frame, e: Entry)
    requires |path| == 4 && path[0] != RECURSIVE && Separated(s0.mem, root, s0.free)
    requires FreshlyMapped(s0, s1, root, path, f) && SameTranslations(s1.mem, s.mem, root)
    requires f in s1.mem && s == State(SetEntry(s1.mem, f, 1, e), s1.free)
    ensures DataKept(s0, s, root)
  {
    hide Mapped, Separated, SameTranslations;
    FreshDataKept(s0, s1, root, path, f);
    forall g | g in s0.mem && g !in s0.free && !IsTable(s0.mem, root, g)
      ensures !IsTable(s.mem, root, g)
    {
      SameTables(s1.mem, s.mem, root, g);
    }
  }

  // The whole memory: m1 is s0 with the first page mapped to f, and s.mem is m1 with the size of vm_root.
  ghost predicate RootLinked(s0: State, m1: Memory, s: State, root: Frame, path: seq<Index>, f: Frame)
    requires |path| == 4
  {
    FreshlyMapped(s0, State(m1, s.free), root, path, f) && f in m1 && s.mem == SetEntry(m1, f, 1, Word(PAGE_SIZE))
  }

  lemma FreshIsFree(s0: State, s: State, root: Frame, path: seq<Index>, f: Frame)
    requires |path| == 4 && FreshlyMapped(s0, s, root, path, f)
    ensures f in s0.free && s.free <= s0.free && |s0.free| <= |s.free| + 4 && s.mem.Keys == s0.mem.Keys
    ensures TakesLowest(s0.free - {f}, s.free)
  {
  }

  lemma FirstOfRange(s0: State, s: State, root: Frame, range: seq<seq<Index>>, f: Frame)
    requires IsRange(range) && |range| >= 1 && Separated(s0.mem, root, s0.free) && Linear(s0, root, range, [])
    requires FreshlyMapped(s0, s, root, range[0], f)
    ensures Linear(s, root, range, [f]) && OwnFrame(s, root, range[0], f) && Separated(s.mem, root, s.free)
    ensures KeepsTranslations(s0.mem, s.mem, root) && Recursive(s.mem, root, s.free)
  {
    hide Mapped;
    FreshPage(s0, s, root, range[0], f);
    LinearStep(s0, s, root, range, [], [f], f);
    SeparatedIsRecursive(s.mem, root, s.free);
  }

  class Manager {
    const space: AddressSpace
    var vmRoot: nat
    // the regions on the list, the frames behind their headers, and the page up to which all is mapped
    ghost var regions: seq<Region>
    ghost var cells: seq<Frame>
    ghost var top: nat

    constructor (space: AddressSpace)
      ensures this.space == space
    {
      this.space := space;
      vmRoot := 0;
      regions, cells, top := [], [], 0;
    }

    ghost predicate Valid()
      reads this, space, space.frames.bitmap
    {
      && space.frames.Valid()
      && Consistent(Contents(), space.root, regions, cells, top) && vmRoot == regions[0].base
    }

    ghost function Contents(): State
      reads space, space.frames.bitmap
    {
      space.Contents()
    }

    // The header of a region, read and written through its virtual address. f is the frame behind it.
    ghost predicate HeaderPage(b: nat, f: Frame)
      reads space, space.frames.bitmap
    {
      && space.Valid() && b % PAGE_SIZE == 0 && b + PAGE_SIZE <= PAGE_LIMIT * PAGE_SIZE
      && Behind(space.mem, space.root, b, f) && f in space.mem
    }

    method GetNext(b: nat, ghost f: Frame) returns (v: nat)
      requires HeaderPage(b, f)
      ensures v == ValueOf(space.mem[f][0])
    {
      HeaderWords(b);
      var e := space.Load(b);
      return ValueOf(e);
    }

    method GetSize(b: nat, ghost f: Frame) returns (v: nat)
      requires HeaderPage(b, f)
      ensures v == ValueOf(space.mem[f][1])
    {
      HeaderWords(b);
      var e := space.Load(b + WORD);
      return ValueOf(e);
    }

    // Beside the words of the header in f the tables of sb are as they were.
    ghost predicate Keeping(sb: State, f: Frame)
      reads space, space.frames.bitmap
    {
      && space.Valid() && Separated(space.mem, space.root, space.frames.Free())
      && Recursive(sb.mem, space.root, sb.free) && Beside(sb.mem, space.mem, space.root, f, HeaderSlots())
    }

    // The page at b was backed by g in sb, and still is while the header in f is written.
    method SetNext(b: nat, v: nat, ghost g: Frame, ghost f: Frame, ghost sb: State)
      requires Keeping(sb, f) && HeaderFrame(sb.mem, space.root, b, g, f)
      modifies space`mem
      ensures g in old(space.mem) && space.mem == SetEntry(old(space.mem), g, 0, Word(v))
      ensures Keeping(sb, f)
    {
      hide PathOf, Recursive, Separated;
      HeaderWords(b);
      HeaderStays(sb.mem, space.mem, space.root, sb.free, b, g, f);
      BesideStore(sb.mem, space.mem, space.root, f, HeaderSlots(), g, 0, Word(v));
      AbsentStore(space.mem, space.root, space.frames.Free(), g, 0, Word(v));
      space.Store(b, Word(v));
    }

    method SetSize(b: nat, v: nat, ghost g: Frame, ghost f: Frame, ghost sb: State)
      requires Keeping(sb, f) && HeaderFrame(sb.mem, space.root, b, g, f)
      modifies space`mem
      ensures g in old(space.mem) && space.mem == SetEntry(old(space.mem), g, 1, Word(v))
      ensures Keeping(sb, f)
    {
      hide PathOf, Recursive, Separated;
      HeaderWords(b);
      HeaderStays(sb.mem, space.mem, space.root, sb.free, b, g, f);
      BesideStore(sb.mem, space.mem, space.root, f, HeaderSlots(), g, 1, Word(v));
      AbsentStore(space.mem, space.root, space.frames.Free(), g, 1, Word(v));
      space.Store(b + WORD, Word(v));
    }

    // One turn of the loop: a frame for the j-th page, and the tables it needs.
    method MapNext(base: nat, i: nat, ghost s0: State, ghost p: nat, ghost n: nat, ghost j: nat,
                   ghost taken: set<Frame>, ghost added: seq<Frame>,
                   ghost range: seq<seq<Index>>, ghost backing: seq<Frame>)
      returns (ghost f: Frame)
      requires space.frames.Valid() && base == p * PAGE_SIZE && i == j * PAGE_SIZE && j < n
      requires Progress(s0, Contents(), space.root, p, n, j, taken, added, range, backing)
      modifies space`mem, space.frames.bitmap
      ensures Progress(s0, Contents(), space.root, p, n, j + 1, taken + {f}, added + [f], range, backing)
    {
      hide Progress, Mapped, PathOf, PagePath, PagePaths;
      ghost var s1 := Contents();
      EnoughInProgress(s0, s1, space.root, p, n, j, taken, added, range, backing);
      PathOfPage(base, i, p, n, j);
      f := space.MapFreshFrame(base + i, PagePaths(p, n)[j]);
      ProgressStep(s0, s1, Contents(), space.root, p, n, j, taken, added, range, backing, f);
    }

    method VmmAllocateArea(newVirtualAddress: nat, size: nat, ghost range: seq<seq<Index>>, ghost backing: seq<Frame>)
      returns (ghost taken: set<Frame>, ghost added: seq<Frame>)
      requires space.Valid() && Separated(space.mem, space.root, space.frames.Free())
      requires newVirtualAddress % PAGE_SIZE == 0 && size % PAGE_SIZE == 0
      requires newVirtualAddress / PAGE_SIZE + size / PAGE_SIZE <= PAGE_LIMIT
      requires size / PAGE_SIZE + TablesFor(newVirtualAddress / PAGE_SIZE, size / PAGE_SIZE) <= |space.frames.Free()|
      modifies space`mem, space.frames.bitmap
      ensures var p, n := newVirtualAddress / PAGE_SIZE, size / PAGE_SIZE;
              Progress(old(Contents()), Contents(), space.root, p, n, n, taken, added, range, backing)
    {
      hide Progress, Recursive, Separated;
      ghost var p, n, j := newVirtualAddress / PAGE_SIZE, size / PAGE_SIZE, 0;
      ghost var s0 := Contents();
      ProgressStart(s0, space.root, p, n, range, backing);
      taken, added := {}, [];
      var i := 0;
      while i < size
        invariant i == j * PAGE_SIZE && 0 <= j <= n
        invariant space.frames.Valid() && Progress(s0, Contents(), space.root, p, n, j, taken, added, range, backing)
      {
        ghost var f := MapNext(newVirtualAddress, i, s0, p, n, j, taken, added, range, backing);
        taken, added := taken + {f}, added + [f];
        j := j + 1;
        i := i + PAGE_SIZE;
      }
    }

    // What a call with this size needs: room below the address limit, frames for the pages and the
    // tables they can need, and a page for the header that is fit to hold it.
    ghost predicate CanAllocate(size: nat)
      requires regions != []
      reads this, space, space.frames.bitmap
    {
      var total := AlignToNearestPage(size + HEADER);
      var base, n := PlacedAt(regions, total), total / PAGE_SIZE;
      && HasRoom(regions, total)
      && n + TableBound(n) <= |space.frames.Free()|
      && CanStore(space.mem, space.root, regions, total)
    }

    // Room, frames and a header page that can be written for a region of this (aligned) size.
    ghost predicate CanPlace(size: nat)
      reads this, space, space.frames.bitmap
    {
      && size > 0 && size % PAGE_SIZE == 0 && HasRoom(regions, size)
      && size / PAGE_SIZE + TablesFor(PlacedAt(regions, size) / PAGE_SIZE, size / PAGE_SIZE) <= |space.frames.Free()|
      && CanStore(space.mem, space.root, regions, size)
    }

    // The three stores that put `current` between `prev` and what follows it.
    method LinkAfter(prev: nat, current: nat, size: nat, ghost fp: Frame, ghost f: Frame, ghost sb: State)
      requires Keeping(sb, f)
      requires HeaderFrame(sb.mem, space.root, prev, fp, f) && HeaderFrame(sb.mem, space.root, current, f, f)
      modifies space`mem
      ensures Keeping(sb, f) && f in old(space.mem) && fp in old(space.mem)
      ensures space.mem == HeadersWritten(old(space.mem), f, fp, current, ValueOf(old(space.mem)[fp][0]), size)
    {
      hide PathOf, Recursive, Separated, Word, ValueOf, Beside;
      HeaderStays(sb.mem, space.mem, space.root, sb.free, prev, fp, f);
      SetSize(current, size, f, f, sb);
      HeaderStays(sb.mem, space.mem, space.root, sb.free, prev, fp, f);
      var next := GetNext(prev, fp);
      SetNext(current, next, f, f, sb);
      SetNext(prev, current, fp, f, sb);
    }

    // Mapping an area that is mapped already takes the lowest frames in vain and changes nothing else.
    method FillGap(current: nat, size: nat)
      requires space.Valid() && Separated(space.mem, space.root, space.frames.Free())
      requires current % PAGE_SIZE == 0 && size % PAGE_SIZE == 0 && size > 0
      requires current / PAGE_SIZE + size / PAGE_SIZE <= PAGE_LIMIT
      requires size / PAGE_SIZE + TablesFor(current / PAGE_SIZE, size / PAGE_SIZE) <= |space.frames.Free()|
      requires AllMapped(space.mem, space.root, PagePaths(current / PAGE_SIZE, size / PAGE_SIZE))
      modifies space`mem, space.frames.bitmap
      ensures space.mem == old(space.mem) && space.Valid() && Separated(space.mem, space.root, space.frames.Free())
      ensures TakesLowest(old(space.frames.Free()), space.frames.Free())
      ensures |old(space.frames.Free())| == |space.frames.Free()| + size / PAGE_SIZE
    {
      hide PathOf, PagePath, Progress, Separated, TakesLowest;
      ghost var s0 := Contents();
      ghost var taken, added := VmmAllocateArea(current, size, [], []);
      InVain(s0, Contents(), space.root, current / PAGE_SIZE, size / PAGE_SIZE, taken, added);
    }

    // The gap before region k is the first that is large enough, and prev the region before it.
    ghost predicate IsGap(prev: nat, size: nat, k: nat)
      reads this
    {
      && |cells| == |regions| >= 1 && 1 <= k < |regions|
      && k == Place(regions, size, 1) && prev == regions[k - 1].base
    }

    // The gap before region k is large enough: write the headers of `current` and of its predecessor.
    method LinkIntoGap(prev: nat, size: nat, ghost k: nat) returns (current: nat, ghost f: Frame)
      requires IsGap(prev, size, k) && Valid() && CanPlace(size)
      modifies space`mem
      ensures current == PlacedAt(regions, size) && Stale(old(space.mem), space.root, current) == Some(f)
      ensures HeaderFrame(old(space.mem), space.root, prev, cells[k - 1], f)
      ensures HeaderFrame(old(space.mem), space.root, current, f, f)
      ensures Keeping(old(Contents()), f) && f in old(space.mem) && cells[k - 1] in old(space.mem)
      ensures space.mem == HeadersWritten(old(space.mem), f, cells[k - 1], current, NextOf(regions, k - 1), size)
      ensures AllMapped(space.mem, space.root, NewPages(regions, size))
    {
      hide PathOf, PagePath, Recursive, Separated, Word, ValueOf, IsTable, Sorted, ListInMemory, InUse, MappedBelow;
      hide AllMapped, Beside, HeadersWritten, CanStore, HeaderFrame, Consistent, PassedBy, Stale;
      hide Place, PlacedAt, HasRoom, NewPages, SetEntry;
      ghost var s0 := Contents();
      ghost var fp := cells[k - 1];
      ConsistentBounds(s0, space.root, regions, cells, top);
      f := GapReady(s0, space.root, regions, cells, top, size, k);
      var prevSize := GetSize(prev, fp);
      current := prev + prevSize;
      BesideItself(s0.mem, space.root, f, HeaderSlots());
      LinkAfter(prev, current, size, fp, f, s0);
      StillAllMapped(s0, space.root, regions, size, f, fp, current, NextOf(regions, k - 1));
    }

    // Link first, then map, then write two of the words again.
    method ReuseGap(prev: nat, size: nat, ghost k: nat) returns (current: nat, ghost f: Frame)
      requires IsGap(prev, size, k) && Valid() && CanPlace(size)
      modifies space`mem, space.frames.bitmap
      ensures current == PlacedAt(regions, size) && Stale(old(space.mem), space.root, current) == Some(f)
      ensures GapReused(old(Contents()), Contents(), space.root, f, cells[k - 1], current, NextOf(regions, k - 1), size)
      ensures space.Valid()
    {
      hide PathOf, PagePath, Recursive, Separated, Word, ValueOf, IsTable, Sorted, Consistent, Beside, AllMapped;
      hide HeaderFrame, TakesLowest, HeadersWritten, CanStore;
      ghost var s0 := Contents();
      current, f := LinkIntoGap(prev, size, k);
      HeadersWrittenLink(s0.mem, f, cells[k - 1], current, NextOf(regions, k - 1), size);
      AlignedGap(regions, cells, s0, space.root, top, size);
      FillGap(current, size);
      SetSize(current, size, f, f, s0);
      SetNext(prev, current, cells[k - 1], f, s0);
    }

    // After the last region: map first, then write the headers of `current` and of the last region.
    method Append(prev: nat, size: nat, ghost range: seq<seq<Index>>, ghost backing: seq<Frame>)
      returns (current: nat, ghost f: Frame, ghost s1: State, ghost taken: set<Frame>, ghost added: seq<Frame>)
      requires Valid() && CanPlace(size)
      requires |cells| == |regions| == Place(regions, size, 1) && prev == regions[|regions| - 1].base
      modifies space`mem, space.frames.bitmap
      ensures current == PlacedAt(regions, size) && current % PAGE_SIZE == 0
      ensures RegionAppended(old(Contents()), s1, Contents(), space.root, f, cells[|regions| - 1], current, size, taken,
                       added, range, backing)
      ensures space.Valid()
    {
      hide PathOf, PagePath, Recursive, Separated, Word, ValueOf, IsTable, Sorted, ListInMemory, InUse, MappedBelow;
      hide Progress, CanStore, HeaderTaken, HeadersWritten, DataKept, KeepsTranslations, KeepsTables, Beside;
      ghost var s0 := Contents();
      ghost var last := |regions| - 1;
      ghost var fp := cells[last];
      HeaderOf(s0, space.root, regions, cells, top, last);
      BoundsOf(regions, top, last);
      var prevSize := GetSize(prev, fp);
      current := prev + prevSize;
      assert current == PlacedAt(regions, size);
      StaleIsRam(s0.mem, space.root, regions, size);
      taken, added := VmmAllocateArea(current, size, range, backing);
      s1 := Contents();
      f := HeaderBehind(s0, s1, space.root, current, size / PAGE_SIZE, taken, added, range, backing);
      AreaKeepsHeader(s0, s1, space.root, current / PAGE_SIZE, size / PAGE_SIZE, taken, added, range, backing,
                      prev, fp);
      AreaKeepsTables(s0, s1, space.root, current / PAGE_SIZE, size / PAGE_SIZE, taken, added, range, backing);
      HeadersAtTheEnd(s0, s1, space.root, regions, size, fp, f);
      BesideItself(s1.mem, space.root, f, HeaderSlots());
      WriteLast(prev, current, size, fp, f, s1);
    }

    method WriteLast(prev: nat, current: nat, size: nat, ghost fp: Frame, ghost f: Frame, ghost sb: State)
      requires Keeping(sb, f)
      requires HeaderFrame(sb.mem, space.root, prev, fp, f) && HeaderFrame(sb.mem, space.root, current, f, f)
      modifies space`mem
      ensures Keeping(sb, f) && f in old(space.mem) && fp in old(space.mem)
      ensures space.mem == HeadersWritten(old(space.mem), f, fp, current, 0, size)
    {
      hide PathOf, Recursive, Separated, Word, Beside, HeaderFrame;
      ghost var m0 := space.mem;
      SetNext(current, 0, f, f, sb);
      SetSize(current, size, f, f, sb);
      SetNext(prev, current, fp, f, sb);
      HeadersWrittenLink(m0, f, fp, current, 0, size);
    }

    // The walk of vmm_allocate: it stops at the first gap that is large enough.
    method FindGap(size: nat) returns (found: bool, prev: nat, ghost k: nat)
      requires Valid() && size > 0
      ensures k == Place(regions, size, 1) && prev == regions[k - 1].base && (found <==> k < |regions|)
    {
      hide PathOf, PagePath, Word, ValueOf, IsTable, Recursive, Separated, Sorted, Consistent;
      var current := vmRoot;
      prev, k := 0, 0;
      ConsistentBounds(Contents(), space.root, regions, cells, top);
      BoundsOf(regions, top, 0);
      while current != 0
        invariant 0 <= k <= |regions|
        invariant current == if k < |regions| then regions[k].base else 0
        invariant current == 0 ==> k == |regions|
        invariant prev == if k == 0 then 0 else regions[k - 1].base
        invariant k > 0 ==> Place(regions, size, 1) == Place(regions, size, k)
        decreases |regions| - k
      {
        HeaderOf(Contents(), space.root, regions, cells, top, k);
        BoundsOf(regions, top, k);
        if k > 0 {
          BoundsOf(regions, top, k - 1);
        }
        if prev != 0 {
          HeaderOf(Contents(), space.root, regions, cells, top, k - 1);
          var prevSize := GetSize(prev, cells[k - 1]);
          var gapArea := current - (prev + prevSize);
          if gapArea >= size {
            return true, prev, k;
          }
        }
        prev := current;
        current := GetNext(current, cells[k]);
        k := k + 1;
        if k < |regions| {
          BoundsOf(regions, top, k);
        }
      }
      found := false;
    }

    // `range` and `backing` describe the part of the address space that no region has been freed in.
    method VmmAllocate(size: nat, ghost range: seq<seq<Index>>, ghost backing: seq<Frame>)
      returns (address: nat, ghost added: seq<Frame>)
      requires Valid() && CanAllocate(size)
      modifies this, space`mem, space.frames.bitmap
      ensures var total := AlignToNearestPage(size + HEADER);
              && regions == Insert(old(regions), total) && vmRoot == old(vmRoot)
              && address == Returned(old(regions), total)
              && Allocated(old(Contents()), Contents(), space.root, old(regions), old(cells), total, cells, top)
      ensures var rs, total := old(regions), AlignToNearestPage(size + HEADER);
              && ClearOfHeader(PlacedAt(rs, total), address)
              && (address + size <= PlacedAt(rs, total) + total
                  <==> Place(rs, total, 1) == |rs| || size + 16 * |HeaderSlots()| * WORD <= total)
      ensures var total := AlignToNearestPage(size + HEADER);
              Valid() <==> Survives(old(Contents()), space.root, old(regions), old(cells), total)
      ensures old(GrowsAtTheEnd(AlignToNearestPage(size + HEADER), range, backing)) ==>
                IsRange(range) && |backing + added| <= |range| && Linear(Contents(), space.root, range, backing + added)
                && |added| == AlignToNearestPage(size + HEADER) / PAGE_SIZE
    {
      hide PathOf, PagePath, Word, IsTable, Sorted, MappedBelow, ListInMemory, InUse, Recursive, Separated, Linear;
      hide CanStore, Survives, KeepsTables, Allocated, Continues, Insert, RegionAppended, GapReused, ClearOfHeader;
      hide HeaderSlots, TableBound, TablesFor, NewPages, Consistent;
      added := [];
      var total := AlignToNearestPage(size + HEADER);
      ghost var s0, rs, cs := Contents(), regions, cells;
      ConsistentBounds(s0, space.root, rs, cs, top);
      FramesSuffice(s0.free, rs, total);
      var found, prev, k := FindGap(total);
      if found {
        var current, f := ReuseGap(prev, total, k);
        ghost var cells' := AfterReuse(s0, Contents(), space.root, rs, cs, top, total, f);
        cells := cells';
        address := current + GAP_HEADER;
      } else {
        var current, f, s1, taken, new_ := Append(prev, total, range, backing);
        added := new_;
        ghost var cells', top' := AfterAppend(s0, s1, Contents(), space.root, rs, cs, top, total, f, taken, added,
                                              range, backing);
        if Continues(s0, space.root, NewPages(rs, total), range, backing) {
          SameNewPages(rs, total);
          LinearAfterAppend(s0, s1, Contents(), space.root, cs[|rs| - 1], current, total, f, taken, added, range,
                            backing);
        }
        cells, top := cells', top';
        address := current + HEADER;
      }
      ConsistentIff(s0, Contents(), space.root, rs, cs, total, cells, top);
      InsertKeepsRoot(rs, total);
      BlockEndsInside(rs, size, total);
      regions := Insert(rs, total);
    }

    // The new region goes after the last one, where the linear range has come to.
    ghost predicate GrowsAtTheEnd(total: nat, range: seq<seq<Index>>, backing: seq<Frame>)
      requires regions != []
      reads this, space, space.frames.bitmap
    {
      && Place(regions, total, 1) == |regions| && HasRoom(regions, total)
      && Continues(Contents(), space.root, NewPages(regions, total), range, backing)
    }

    // The walk of vmm_free: k is the index of the region at `target`, or the number of regions.
    method FindRegion(target: int) returns (found: bool, prev: nat, current: nat, ghost k: nat)
      requires Valid() && target != vmRoot
      ensures found ==> 1 <= k < |regions| && regions[k].base == target == current && prev == regions[k - 1].base
      ensures !found ==> forall i :: 0 <= i < |regions| ==> regions[i].base != target
    {
      hide PathOf, PagePath, Word, ValueOf, IsTable, Recursive, Separated, Sorted, Consistent;
      current := vmRoot;
      prev, k := 0, 0;
      ConsistentBounds(Contents(), space.root, regions, cells, top);
      BoundsOf(regions, top, 0);
      while current != 0
        invariant 0 <= k <= |regions|
        invariant current == if k < |regions| then regions[k].base else 0
        invariant current == 0 ==> k == |regions|
        invariant prev == if k == 0 then 0 else regions[k - 1].base
        invariant forall i :: 0 <= i < k ==> regions[i].base != target
        decreases |regions| - k
      {
        if current == target {
          return true, prev, current, k;
        }
        HeaderOf(Contents(), space.root, regions, cells, top, k);
        BoundsOf(regions, top, k);
        prev := current;
        current := GetNext(current, cells[k]);
        k := k + 1;
        if k < |regions| {
          BoundsOf(regions, top, k);
        }
      }
      found := false;
    }

    // Unlinks the region whose header lies 16 bytes below `address`, and releases the frame of its first
    // page. The final map_page finds that page present and changes nothing: it stays mapped.
    method VmmFree(address: nat, pml4: nat) returns (ghost k: nat)
      requires Valid() && address - HEADER != vmRoot
      requires forall i :: 0 <= i < |regions| && regions[i].base == address - HEADER ==>
                 TablesIdentityMapped(space.mem, space.root, pml4, PathOf(regions[i].base))
      modifies this, space`mem, space.frames.bitmap
      ensures Valid() && regions == Remove(old(regions), address - HEADER) && vmRoot == old(vmRoot)
      ensures SameTranslations(old(space.mem), space.mem, space.root)
      ensures k <= |old(regions)|
      ensures k == |old(regions)| ==> regions == old(regions) && Contents() == old(Contents())
      ensures k < |old(regions)| ==>
                && 1 <= k && old(regions)[k].base == address - HEADER
                && space.frames.Free() == old(space.frames.Free())
                     + (if old(cells)[k] < space.frames.totalPages then {old(cells)[k]} else {})
                && Behind(space.mem, space.root, address - HEADER, old(cells)[k])
                && old(cells)[k - 1] in old(space.mem)
                && space.mem == SetEntry(old(space.mem), old(cells)[k - 1], 0, Word(NextOf(old(regions), k)))
    {
      hide PathOf, PagePath, Word, ValueOf, IsTable, Sorted, Recursive, Separated, ListInMemory, InUse, MappedBelow;
      hide TablesIdentityMapped, Beside, Remove, SetEntry, HeaderFrame;
      ghost var s0, rs, cs := Contents(), regions, cells;
      ConsistentBounds(s0, space.root, rs, cs, top);
      var targetAddress := address - HEADER;
      var found, prev, current, i := FindRegion(targetAddress);
      if !found {
        RemoveAbsent(rs, targetAddress);
        return |rs|;
      }
      k := i;
      HeaderOf(s0, space.root, rs, cs, top, k);
      HeaderOf(s0, space.root, rs, cs, top, k - 1);
      BoundsOf(rs, top, k);
      BoundsOf(rs, top, k - 1);
      var next := GetNext(current, cs[k]);
      BesideItself(s0.mem, space.root, cs[k - 1], HeaderSlots());
      DataHeader(s0.mem, space.root, s0.free, prev, cs[k - 1], cs[k - 1]);
      SetNext(prev, next, cs[k - 1], cs[k - 1], s0);
      DataStore(s0.mem, space.root, s0.free, cs[k - 1], 0, Word(next));
      IdentityKept(s0.mem, space.mem, space.root, pml4, PathOf(current));
      SameTables(s0.mem, space.mem, space.root, cs[k]);
      ReleaseFirstPage(current, pml4, cs[k]);
      UnlinkedIsConsistent(s0, space.mem, space.frames.Free(), space.root, rs, cs, top, k);
      RemoveKeepsSorted(rs, current);
      regions, cells := Remove(rs, current), cs[..k] + cs[k + 1..];
    }

    method ReleaseFirstPage(target: nat, pml4: nat, ghost f: Frame)
      requires HeaderPage(target, f) && !IsTable(space.mem, space.root, f) && f !in space.frames.Free()
      requires Separated(space.mem, space.root, space.frames.Free())
      requires TablesIdentityMapped(space.mem, space.root, pml4, PathOf(target))
      modifies space`mem, space.frames.bitmap
      ensures space.mem == old(space.mem) && space.Valid() && Separated(space.mem, space.root, space.frames.Free())
      ensures space.frames.Free() == old(space.frames.Free()) + if f < space.frames.totalPages then {f} else {}
    {
      hide PathOf, Recursive, Separated, IsTable;
      TranslatedPath(space.mem, space.root, space.frames.Free(), PathOf(target));
      var physical := space.GetPhysicalAddress(target, pml4);
      ghost var s0 := Contents();
      MoreFree(space.mem, space.root, s0.free, f);
      space.frames.SetPageFree(physical / PAGE_SIZE);
      NothingMissing(Contents(), space.root, PathOf(target));
      space.MapPage(target, 0, 0);
    }

    // init_vmm up to the call of init_kheap. Only the size of vm_root is set; that its next pointer is
    // zero is taken from the frame it lands in.
    method InitVmm(vmmArea: nat, ghost pages: nat, ghost range: seq<seq<Index>>) returns (ghost f: Frame)
      requires space.Valid() && Separated(space.mem, space.root, space.frames.Free())
      requires forall g :: g in space.frames.Free() ==> space.mem[g][0] == EMPTY
      requires StartOf(vmmArea) > 0 && IsRange(range) && StartsAt(range, StartOf(vmmArea), pages) && pages >= 1
      requires Linear(Contents(), space.root, range, []) && |space.frames.Free()| >= 4
      modifies this, space`mem, space.frames.bitmap
      ensures vmRoot == StartOf(vmmArea) && regions == [Region(vmRoot, PAGE_SIZE)]
      ensures NeverFreed(pages, range, [f])
      ensures KeepsTranslations(old(space.mem), space.mem, space.root)
      ensures TablesBorn(old(Contents()), Contents(), space.root) && space.mem.Keys == old(space.mem).Keys
      ensures DataKept(old(Contents()), Contents(), space.root) && f in old(space.mem)
      ensures space.mem[f] == old(space.mem)[f][1 := Word(PAGE_SIZE)]
      ensures exists m1: Memory :: RootLinked(old(Contents()), m1, Contents(), space.root, range[0], f)
      ensures OpensFor(old(Contents()), Contents(), space.root, vmRoot / PAGE_SIZE, 1)
      ensures IsLowest(f, old(space.frames.Free())) && TakesLowest(old(space.frames.Free()) - {f}, space.frames.Free())
      ensures space.frames.Free() <= old(space.frames.Free()) && |old(space.frames.Free())| <= |space.frames.Free()| + 4
    {
      hide PathOf, PagePath, Word, IsTable, Recursive, Separated, Linear, Mapped, Consistent, KeepsTranslations;
      hide SameTranslations, FreshlyMapped, Beside, SetEntry, StartOf, HeaderFrame, TablesBorn, TakesLowest, StartsAt;
      hide IsRange, OwnFrame, OpensFor, OpensOnly, SlotsOf, DataKept;
      ghost var s0 := Contents();
      var vmmAddress := StartOf(vmmArea);
      RootPage(range, vmmAddress, pages);
      f := MapRoot(vmmAddress, range[0]);
      FirstOfRange(s0, Contents(), space.root, range, f);
      FreshIsFree(s0, Contents(), space.root, range[0], f);
      BornByMapping(s0, Contents(), space.root, range[0], f);
      OpensByMapping(s0, Contents(), space.root, range[0], f);
      vmRoot := vmmAddress;
      ghost var s1 := Contents();
      BesideItself(s1.mem, space.root, f, HeaderSlots());
      OwnHeader(s1, space.root, vmmAddress, f);
      SetSize(vmmAddress, PAGE_SIZE, f, f, s1);
      DataStore(s1.mem, space.root, s1.free, f, 1, Word(PAGE_SIZE));
      SameIsKept(s0.mem, s1.mem, space.mem, space.root);
      BornAsWell(s0, s1, Contents(), space.root);
      OpensAsWell(s0, s1, Contents(), space.root, SlotsOf(s0.mem, space.root, range[0]));
      OpensForOne(s0, Contents(), space.root, vmmAddress);
      OtherDataKept(s0, s1, Contents(), space.root, range[0], f, Word(PAGE_SIZE));
      assert RootLinked(s0, s1.mem, Contents(), space.root, range[0], f) by {
        assert s1 == State(s1.mem, space.frames.Free());
      }
      RootIsConsistent(s0, s1, Contents(), space.root, pages, range, vmRoot, f);
      regions, cells, top := [Region(vmRoot, PAGE_SIZE)], [f], vmRoot / PAGE_SIZE + 1;
    }

    method MapRoot(vmmAddress: nat, ghost path: seq<Index>) returns (ghost f: Frame)
      requires space.Valid() && PathOf(vmmAddress) == path && |space.frames.Free()| >= 4
      modifies space`mem, space.frames.bitmap
      ensures space.frames.Valid() && FreshlyMapped(old(Contents()), Contents(), space.root, path, f)
      ensures IsLowest(f, old(space.frames.Free()))
    {
      hide PathOf, Mapped;
      ghost var s0 := Contents();
      var physical := space.frames.AllocatePhysicalPage();
      space.frames.SetPageUsed(physical / PAGE_SIZE);
      f := physical / PAGE_SIZE;
      FewerFree(s0.mem, space.root, s0.free, s0.free - {f});
      assert Contents() == State(s0.mem, s0.free - {f});
      assert EntryOf(AlignToPage(physical), PT_PRESENT_BIT | PT_RW_BIT) == Link(f);
      space.MapPage(vmmAddress, physical, PT_PRESENT_BIT | PT_RW_BIT);
    }

    // Before the first vmm_free: the regions lie back to back from vm_root on, their pages are backed by
    // frames of their own that are no page tables, and the rest of the range is unmapped. The first `pages`
    // pages of it are those for regions; the others just stay unmapped.
    ghost predicate NeverFreed(pages: nat, range: seq<seq<Index>>, backing: seq<Frame>)
      reads this, space, space.frames.bitmap
    {
      && Valid() && Packed(regions)
      && IsRange(range) && StartsAt(range, vmRoot, pages)
      && |backing| <= pages && Linear(Contents(), space.root, range, backing)
      && regions[|regions| - 1].End() == vmRoot + |backing| * PAGE_SIZE
    }

    // vmm_allocate in a run without vmm_free.
    method VmmAllocateNeverFreed(size: nat, ghost pages: nat, ghost range: seq<seq<Index>>, ghost backing: seq<Frame>)
      returns (address: nat, ghost added: seq<Frame>)
      requires NeverFreed(pages, range, backing)
      requires |backing| + AlignToNearestPage(size + HEADER) / PAGE_SIZE <= pages
      requires var n := AlignToNearestPage(size + HEADER) / PAGE_SIZE; n + TableBound(n) <= |space.frames.Free()|
      modifies this, space`mem, space.frames.bitmap
      ensures NeverFreed(pages, range, backing + added)
      ensures var total := AlignToNearestPage(size + HEADER);
              && |added| == total / PAGE_SIZE
              && regions == old(regions) + [Region(old(regions[|regions| - 1].End()), total)]
              && address == old(regions[|regions| - 1].End()) + HEADER
              && ClearOfHeader(old(regions[|regions| - 1].End()), address)
              && address + size <= regions[|regions| - 1].End()
              && KeepsTranslations(old(space.mem), space.mem, space.root)
      ensures |cells| == |regions| && IsLowest(cells[|regions| - 1], old(space.frames.Free()))
      ensures cells[..|regions| - 1] == old(cells)
      ensures |old(regions)| >= 1 && WordsWritten(old(Contents()), Contents(), space.root, cells[|regions| - 1],
                cells[|regions| - 2], regions[|regions| - 1].base, 0, regions[|regions| - 1].size)
      ensures TablesBorn(old(Contents()), Contents(), space.root) && space.mem.Keys == old(space.mem).Keys
      ensures TakesLowest(old(space.frames.Free()), space.frames.Free())
      ensures OpensFor(old(Contents()), Contents(), space.root, old(regions[|regions| - 1].End()) / PAGE_SIZE,
                       AlignToNearestPage(size + HEADER) / PAGE_SIZE)
      ensures var n := AlignToNearestPage(size + HEADER) / PAGE_SIZE;
              |old(space.frames.Free())| <= |space.frames.Free()| + n + TableBound(n)
    {
      hide PathOf, PagePath, Word, IsTable, MappedBelow, ListInMemory, InUse, Recursive, Separated, Linear;
      hide Consistent, Sorted, Continues, Insert, Packed, Survives, Usable, CanStore, Allocated, NewPages, TableBound;
      hide TablesBorn, TakesLowest, StartsAt, OpensOnly, NewSlots, WordsWritten;
      ghost var s0, rs, cs := Contents(), regions, cells;
      ghost var total := AlignToNearestPage(size + HEADER);
      ConsistentBounds(Contents(), space.root, regions, cells, top);
      BoundsOf(regions, top, |regions| - 1);
      PackedHasNoGap(regions, total, 1);
      PackedInsert(regions, total);
      EndIsUnmapped(Contents(), space.root, pages, range, backing, vmRoot, total);
      LengthsAddUp(|backing|, total);
      FreshHeader(s0, space.root, rs, cs, total);
      SameNewPages(rs, total);
      address, added := VmmAllocate(size, range, backing);
      AllocatedKeeps(s0, Contents(), space.root, rs, cs, total, cells, top);
      AllocatedAtTheEnd(s0, Contents(), space.root, rs, cs, total, cells, top);
    }
  }

  lemma FramesSuffice(free: set<Frame>, rs: seq<Region>, total: nat)
    requires rs != [] && total / PAGE_SIZE + TableBound(total / PAGE_SIZE) <= |free|
    ensures total / PAGE_SIZE + TablesFor(PlacedAt(rs, total) / PAGE_SIZE, total / PAGE_SIZE) <= |free|
  {
    TablesWithinBound(PlacedAt(rs, total) / PAGE_SIZE, total / PAGE_SIZE);
  }

  // A store that changes no translation leaves the tables where they are.
  lemma IdentityKept(m: Memory, m': Memory, root: Frame, pml4: nat, path: seq<Index>)
    requires SameTranslations(m, m', root) && |path| == 4 && TablesIdentityMapped(m, root, pml4, path)
    ensures TablesIdentityMapped(m', root, pml4, path)
  {
    hide PathOf, Canonical, WordOf;
    TableAtKept(m, m', root, pml4, root);
    forall k | 1 <= k <= 3 && Follow(m', root, path[..k]).Some?
      ensures Follow(m', root, path[..k]).value != 0
      ensures TableAt(m', root, Follow(m', root, path[..k]).value * PAGE_SIZE, Follow(m', root, path[..k]).value)
    {
      assert Follow(m, root, path[..k]) == Follow(m', root, path[..k]);
      TableAtKept(m, m', root, Follow(m, root, path[..k]).value * PAGE_SIZE, Follow(m, root, path[..k]).value);
    }
  }

  lemma TableAtKept(m: Memory, m': Memory, root: Frame, pointer: nat, t: Frame)
    requires SameTranslations(m, m', root) && TableAt(m, root, pointer, t)
    ensures TableAt(m', root, pointer, t)
  {
    hide PathOf, Canonical, WordOf;
    forall i: Index
      ensures WordAt(m', root, pointer, i, t)
    {
      assert WordAt(m, root, pointer, i, t);
    }
  }

  lemma NothingMissing(s: State, root: Frame, path: seq<Index>)
    requires Recursive(s.mem, root, s.free) && |path| == 4 && Walk(s.mem, root, path).Page?
    ensures Missing(s.mem, root, path) == 0
  {
    TranslatedPath(s.mem, root, s.free, path);
  }

  lemma LengthsAddUp(n: nat, total: nat)
    requires total % PAGE_SIZE == 0
    ensures n * PAGE_SIZE + total == (n + total / PAGE_SIZE) * PAGE_SIZE
  {
  }

  // The next page of a linear range is unmapped, and the pages from there on continue the range.
  lemma EndIsUnmapped(s: State, root: Frame, pages: nat, range: seq<seq<Index>>, backing: seq<Frame>,
                      vmRoot: nat, total: nat)
    requires vmRoot % PAGE_SIZE == 0 && total % PAGE_SIZE == 0 && total > 0
    requires IsRange(range) && StartsAt(range, vmRoot, pages)
    requires |backing| + total / PAGE_SIZE <= pages && Linear(s, root, range, backing)
    ensures var base := vmRoot + |backing| * PAGE_SIZE;
            && base / PAGE_SIZE == vmRoot / PAGE_SIZE + |backing|
            && base / PAGE_SIZE + total / PAGE_SIZE <= PAGE_LIMIT
            && Walk(s.mem, root, PathOf(base)) == Fault
            && Continues(s, root, PagePaths(base / PAGE_SIZE, total / PAGE_SIZE), range, backing)
  {
    hide PathOf, PagePath;
    var p := vmRoot / PAGE_SIZE;
    assert vmRoot == p * PAGE_SIZE;
    var base := vmRoot + |backing| * PAGE_SIZE;
    PathOfPage(vmRoot, |backing| * PAGE_SIZE, p, pages, |backing|);
    assert range[..pages][|backing|] == range[|backing|];
    assert Walk(s.mem, root, range[|backing|]) == Fault;
    assert base / PAGE_SIZE == p + |backing|;
    forall i | 0 <= i < total / PAGE_SIZE
      ensures range[|backing| + i] == PagePaths(base / PAGE_SIZE, total / PAGE_SIZE)[i]
    {
      assert PagePaths(base / PAGE_SIZE, total / PAGE_SIZE)[i] == PagePath(p + |backing| + i);
      assert range[..pages][|backing| + i] == range[|backing| + i];
    }
  }

  // An unmapped header page gets a frame of its own.
  lemma FreshHeader(s: State, root: Frame, rs: seq<Region>, cells: seq<Frame>, size: nat)
    requires HasRoom(rs, size) && Walk(s.mem, root, PathOf(PlacedAt(rs, size))) == Fault
    ensures Survives(s, root, rs, cells, size) && Usable(s.mem, root, PlacedAt(rs, size))
    ensures CanStore(s.mem, root, rs, size)
  {
    hide PathOf, PagePath, NewPages;
  }

  lemma SameNewPages(rs: seq<Region>, size: nat)
    requires HasRoom(rs, size)
    ensures NewPages(rs, size) == PagePaths(PlacedAt(rs, size) / PAGE_SIZE, size / PAGE_SIZE)
  {
  }

  // A gap has been mapped before, so there is a frame behind its first page.
  lemma GapHeader(s: State, root: Frame, rs: seq<Region>, size: nat, fp: Frame) returns (f: Frame)
    requires HasRoom(rs, size) && AllMapped(s.mem, root, NewPages(rs, size)) && size > 0 && size % PAGE_SIZE == 0
    requires PlacedAt(rs, size) % PAGE_SIZE == 0 && CanStore(s.mem, root, rs, size)
    requires var prev := rs[Place(rs, size, 1) - 1].base;
             && prev % PAGE_SIZE == 0 && prev + PAGE_SIZE <= PAGE_LIMIT * PAGE_SIZE
             && Behind(s.mem, root, prev, fp) && fp in s.mem && !IsTable(s.mem, root, fp)
    ensures Stale(s.mem, root, PlacedAt(rs, size)) == Some(f) && HeaderFrame(s.mem, root, PlacedAt(rs, size), f, f)
    ensures HeaderFrame(s.mem, root, rs[Place(rs, size, 1) - 1].base, fp, f)
    ensures !PassedBy(s.mem, root, NewPages(rs, size), f, HeaderSlots()) || Place(rs, size, 1) == |rs|
  {
    hide PathOf, PagePath, IsTable, PassedBy;
    var base := PlacedAt(rs, size);
    PathOfPage(base, 0, base / PAGE_SIZE, size / PAGE_SIZE, 0);
    f := Stale(s.mem, root, base).value;
  }

  // All that the walk and the stores find before a gap.
  lemma GapReady(s: State, root: Frame, rs: seq<Region>, cells: seq<Frame>, top: nat, size: nat, k: nat)
    returns (f: Frame)
    requires Consistent(s, root, rs, cells, top) && size > 0 && size % PAGE_SIZE == 0 && |cells| == |rs|
    requires 1 <= k == Place(rs, size, 1) < |rs| && HasRoom(rs, size) && CanStore(s.mem, root, rs, size)
    ensures var prev, fp := rs[k - 1], cells[k - 1];
            && prev.base % PAGE_SIZE == 0 && prev.base + PAGE_SIZE <= PAGE_LIMIT * PAGE_SIZE
            && Behind(s.mem, root, prev.base, fp) && fp in s.mem && f in s.mem && !IsTable(s.mem, root, fp)
            && ValueOf(s.mem[fp][0]) == NextOf(rs, k - 1) && prev.base + ValueOf(s.mem[fp][1]) == PlacedAt(rs, size)
            && HeaderFrame(s.mem, root, prev.base, fp, f)
    ensures Stale(s.mem, root, PlacedAt(rs, size)) == Some(f) && HeaderFrame(s.mem, root, PlacedAt(rs, size), f, f)
    ensures AllMapped(s.mem, root, NewPages(rs, size)) && !PassedBy(s.mem, root, NewPages(rs, size), f, HeaderSlots())
  {
    hide PathOf, PagePath, Consistent, IsTable, PassedBy, CanStore, AllMapped, Sorted, ValueOf, NewPages;
    ConsistentBounds(s, root, rs, cells, top);
    HeaderOf(s, root, rs, cells, top, k - 1);
    BoundsOf(rs, top, k - 1);
    GapPages(s, root, rs, cells, top, size);
    f := GapHeader(s, root, rs, size, cells[k - 1]);
  }

  lemma AlignedGap(rs: seq<Region>, cells: seq<Frame>, s: State, root: Frame, top: nat, size: nat)
    requires Consistent(s, root, rs, cells, top)
    ensures PlacedAt(rs, size) % PAGE_SIZE == 0
  {
    hide PathOf, PagePath, Consistent;
    ConsistentBounds(s, root, rs, cells, top);
    BoundsOf(rs, top, Place(rs, size, 1) - 1);
  }

  lemma StillAllMapped(s0: State, root: Frame, rs: seq<Region>, size: nat, f: Frame, fp: Frame, base: nat, next: nat)
    requires HasRoom(rs, size) && AllMapped(s0.mem, root, NewPages(rs, size)) && Recursive(s0.mem, root, s0.free)
    requires !PassedBy(s0.mem, root, NewPages(rs, size), f, HeaderSlots())
    requires f in s0.mem && fp in s0.mem && !IsTable(s0.mem, root, fp)
    ensures AllMapped(HeadersWritten(s0.mem, f, fp, base, next, size), root, NewPages(rs, size))
  {
    hide Recursive, HeadersWritten, NewPages, IsTable;
    var r := NewPages(rs, size);
    forall i | 0 <= i < |r|
      ensures Walk(HeadersWritten(s0.mem, f, fp, base, next, size), root, r[i]).Page?
    {
      HeadersLosePages(s0.mem, root, s0.free, f, fp, base, next, size, r[i]);
    }
  }

  // With the pages mapped both header pages are there, and still avoid the words of the new header.
  lemma HeadersAtTheEnd(s0: State, s1: State, root: Frame, rs: seq<Region>, size: nat, fp: Frame, f: Frame)
    requires HasRoom(rs, size) && Place(rs, size, 1) == |rs| && CanStore(s0.mem, root, rs, size)
    requires Recursive(s0.mem, root, s0.free) && Recursive(s1.mem, root, s1.free) && KeepsTables(s0.mem, s1.mem, root)
    requires HeaderTaken(s0, s1, root, PlacedAt(rs, size), f)
    requires Behind(s1.mem, root, PlacedAt(rs, size), f) && f in s1.mem
    requires PlacedAt(rs, size) % PAGE_SIZE == 0 && PlacedAt(rs, size) + PAGE_SIZE <= PAGE_LIMIT * PAGE_SIZE
    requires var prev := rs[|rs| - 1].base; prev % PAGE_SIZE == 0 && prev + PAGE_SIZE <= PAGE_LIMIT * PAGE_SIZE
    requires Behind(s0.mem, root, rs[|rs| - 1].base, fp) && Behind(s1.mem, root, rs[|rs| - 1].base, fp)
    requires fp in s1.mem && !IsTable(s1.mem, root, fp)
    ensures HeaderFrame(s1.mem, root, rs[|rs| - 1].base, fp, f)
    ensures HeaderFrame(s1.mem, root, PlacedAt(rs, size), f, f)
  {
    hide PathOf, Recursive, IsTable, KeepsTables, NewPages;
    var base, prev := PlacedAt(rs, size), rs[|rs| - 1].base;
    if Stale(s0.mem, root, base).Some? {
      MappedPassesKept(s0.mem, s1.mem, root, s0.free, PathOf(base), f, HeaderSlots());
      MappedPassesKept(s0.mem, s1.mem, root, s0.free, PathOf(prev), f, HeaderSlots());
    } else {
      NoTableNoWay(s1.mem, root, s1.free, PathOf(base), f);
      NoTableNoWay(s1.mem, root, s1.free, PathOf(prev), f);
    }
  }
}
