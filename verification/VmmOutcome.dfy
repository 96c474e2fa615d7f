/** What a call of vmm_allocate leaves behind, told from the state before it. */
module VmmOutcome {
  import opened PageTables
  import opened DataPages
  import opened PageRange
  import opened PageNumbers
  import opened AreaOrder
  import opened AreaMapping
  import opened StaleStores
  import opened Paging
  import opened Bitmap
  import opened RegionList
  import opened RegionHeaders
  import opened Wrappers

  predicate HasRoom(rs: seq<Region>, size: nat)
  {
    rs != [] && PlacedAt(rs, size) / PAGE_SIZE + size / PAGE_SIZE <= PAGE_LIMIT
  }

  // The pages of the new region.
  function NewPages(rs: seq<Region>, size: nat): (r: seq<seq<Index>>)
    requires HasRoom(rs, size)
    ensures IsRange(r) && |r| == size / PAGE_SIZE
  {
    PagePaths(PlacedAt(rs, size) / PAGE_SIZE, size / PAGE_SIZE)
  }

  // What a stale header page must allow for its stores, and those of the header before it, to reach their pages:
  // it is writable RAM, and the ways to both pages do not lead through the words of the new header. In a gap the
  // ways to the new pages do not either.
  ghost predicate CanStore(m: Memory, root: Frame, rs: seq<Region>, size: nat)
    requires HasRoom(rs, size)
  {
    var base, k := PlacedAt(rs, size), Place(rs, size, 1);
    Stale(m, root, base).Some? ==>
      var f := Stale(m, root, base).value;
      && Behind(m, root, base, f) && f in m
      && !Passes(m, root, PathOf(base), f, HeaderSlots())
      && !Passes(m, root, PathOf(rs[k - 1].base), f, HeaderSlots())
      && (k < |rs| ==> !PassedBy(m, root, NewPages(rs, size), f, HeaderSlots()))
  }

  // The ways to region i and to the new pages are no concern where the header page can take its words unharmed.
  lemma UsableCanStore(s: State, root: Frame, rs: seq<Region>, cells: seq<Frame>, top: nat, size: nat)
    requires Consistent(s, root, rs, cells, top) && size > 0 && size % PAGE_SIZE == 0 && HasRoom(rs, size)
    requires Usable(s.mem, root, PlacedAt(rs, size))
    ensures CanStore(s.mem, root, rs, size)
  {
    hide PathOf, PagePath, Recursive, Separated, Sorted, MappedBelow, IsTable, NewPages;
    var base, k := PlacedAt(rs, size), Place(rs, size, 1);
    ConsistentBounds(s, root, rs, cells, top);
    LocatedAt(s.mem, root, rs, cells, k - 1);
    if Stale(s.mem, root, base).Some? {
      var f := Stale(s.mem, root, base).value;
      MappedPageAvoids(s.mem, root, s.free, PathOf(base), base, f);
      MappedPageAvoids(s.mem, root, s.free, PathOf(rs[k - 1].base), base, f);
      if k < |rs| {
        GapPages(s, root, rs, cells, top, size);
        MappedPagesPass(s, root, NewPages(rs, size), base, f);
      }
    }
  }

  // A mapped page needs no slot that is absent.
  lemma MappedPageAvoids(m: Memory, root: Frame, free: set<Frame>, path: seq<Index>, base: nat, f: Frame)
    requires Recursive(m, root, free) && |path| == 4 && Walk(m, root, path).Page?
    requires Usable(m, root, base) && Stale(m, root, base) == Some(f)
    ensures !Passes(m, root, path, f, HeaderSlots())
  {
    hide PathOf, Recursive, IsTable;
    if Passes(m, root, path, f, HeaderSlots()) {
      PresentOnTheWay(m, root, free, path, f, HeaderSlots());
    }
  }

  // The new header cuts the way to another header.
  ghost predicate CutsOff(m: Memory, root: Frame, rs: seq<Region>, size: nat)
    requires HasRoom(rs, size)
  {
    var stale := Stale(m, root, PlacedAt(rs, size));
    stale.Some? && WayThrough(m, root, rs, stale.value)
  }

  ghost predicate WayThrough(m: Memory, root: Frame, rs: seq<Region>, f: Frame)
  {
    exists i :: 0 <= i < |rs| && Passes(m, root, PathOf(rs[i].base), f, HeaderSlots())
  }

  // The new list will be sound: no frame behind the header page, or one that no other header lies in and that
  // is neither free nor a page table once the pages are mapped.
  ghost predicate Survives(s: State, root: Frame, rs: seq<Region>, cells: seq<Frame>, size: nat)
    requires HasRoom(rs, size)
  {
    var stale := Stale(s.mem, root, PlacedAt(rs, size));
    stale.Some? ==> stale.value !in cells && StaysInUse(s, root, NewPages(rs, size), stale.value)
  }

  // The header will overwrite entries of a page table that the new pages need.
  ghost predicate LosesPages(s: State, root: Frame, rs: seq<Region>, size: nat)
    requires HasRoom(rs, size)
  {
    var stale := Stale(s.mem, root, PlacedAt(rs, size));
    stale.Some? && WillPass(s, root, NewPages(rs, size), stale.value, HeaderSlots())
  }

  // One frame for each page and one for each link that was missing, the lowest ones.
  ghost predicate FramesTaken(s0: State, s: State, root: Frame, r: seq<seq<Index>>)
    requires IsRange(r)
  {
    && TakesLowest(s0.free, s.free) && |s0.free| == |s.free| + Before(s0.mem, root, r, |r|)
    && Before(s0.mem, root, r, |r|) <= |r| + TableBound(|r|)
  }

  ghost predicate AllMapped(m: Memory, root: Frame, r: seq<seq<Index>>)
    requires IsRange(r)
  {
    forall i :: 0 <= i < |r| ==> Walk(m, root, r[i]).Page?
  }

  // What vmm_allocate leaves: the list is in memory if and only if no header was overwritten or cut off, and it
  // is consistent if and only if the frame of the new header is in use and no page table.
  ghost predicate ListLeft(s0: State, s: State, root: Frame, rs: seq<Region>, cells: seq<Frame>, size: nat,
                           cells': seq<Frame>, top': nat)
    requires HasRoom(rs, size)
  {
    && (if Clash(s0.mem, root, PlacedAt(rs, size), cells) || CutsOff(s0.mem, root, rs, size)
        then forall cs :: !ListInMemory(s.mem, root, Insert(rs, size), cs)
        else ListInMemory(s.mem, root, Insert(rs, size), cells'))
    && (if Survives(s0, root, rs, cells, size) then Consistent(s, root, Insert(rs, size), cells', top')
        else forall cs, t :: !Consistent(s, root, Insert(rs, size), cs, t))
  }

  // The frame behind the new header: the lowest free one for a page that was unmapped, otherwise the stale one.
  ghost predicate NewCell(s0: State, root: Frame, base: nat, f: Frame)
  {
    match Stale(s0.mem, root, base)
    case None => IsLowest(f, s0.free)
    case Some(g) => f == g
  }

  // With the pages mapped, a header page that was unmapped is backed by a frame of its own.
  ghost predicate HeaderTaken(s0: State, s1: State, root: Frame, base: nat, f: Frame)
  {
    && NewCell(s0, root, base, f)
    && (Stale(s0.mem, root, base).None? ==> f !in s1.free && !IsTable(s1.mem, root, f))
  }

  ghost predicate CellsLeft(s0: State, root: Frame, rs: seq<Region>, cells: seq<Frame>, size: nat, cells': seq<Frame>)
    requires HasRoom(rs, size)
  {
    var k := Place(rs, size, 1);
    && |cells| == |rs| && |cells'| == |rs| + 1 && cells' == cells[..k] + [cells'[k]] + cells[k..]
    && NewCell(s0, root, PlacedAt(rs, size), cells'[k])
  }

  // The frames that were free and are page tables now.
  ghost function Created(s0: State, s: State, root: Frame): set<Frame> {
    set f | f in s0.free && f !in s.free && IsTable(s.mem, root, f)
  }

  // Tables that the pages of r got were free frames, linked where links were missing: one for each such link unless
  // some were cut off again.
  ghost predicate TablesAdded(s0: State, s: State, root: Frame, r: seq<seq<Index>>, lost: bool)
    requires IsRange(r)
  {
    && TablesBorn(s0, s, root) && OpensOnly(s0, s, root, NewSlots(s0.mem, root, r, |r|))
    && |Created(s0, s, root)| <= |NewSlots(s0.mem, root, r, |r|)|
    && (!lost ==> |Created(s0, s, root)| == |NewSlots(s0.mem, root, r, |r|)|)
  }

  // What the call writes beside page tables and fresh frames: three words. The header in f has its size, its next
  // pointer unless f holds the header before it too, and that one points at the new region. All other words of data
  // frames in use are as they were.
  ghost predicate WordsWritten(s0: State, s: State, root: Frame, f: Frame, prev: Frame, base: nat, next: nat, size: nat)
  {
    && f in s.mem && prev in s.mem && s.mem.Keys == s0.mem.Keys
    && s.mem[f][1] == Word(size) && s.mem[prev][0] == Word(base) && (f != prev ==> s.mem[f][0] == Word(next))
    && forall g: Frame, i: Index :: g in s0.mem && g !in s0.free && !IsTable(s0.mem, root, g) ==>
         s.mem[g][i] == s0.mem[g][i] || (g == f && i in HeaderSlots()) || (g == prev && i == 0)
  }

  // The whole memory: m1 is s0 with the pages mapped, and s.mem is m1 with the three words of the headers.
  ghost predicate MapsThenLinks(s0: State, m1: Memory, s: State, root: Frame, rs: seq<Region>, size: nat,
                                f: Frame, prev: Frame)
    requires HasRoom(rs, size)
  {
    && AreaWrites(s0, State(m1, s.free), root, NewPages(rs, size), size / PAGE_SIZE) && f in m1 && prev in m1
    && s.mem == HeadersWritten(m1, f, prev, PlacedAt(rs, size), NextOf(rs, Place(rs, size, 1) - 1), size)
  }

  ghost predicate MemoryLeft(s0: State, s: State, root: Frame, rs: seq<Region>, size: nat, f: Frame, prev: Frame)
    requires HasRoom(rs, size)
  {
    exists m1: Memory :: MapsThenLinks(s0, m1, s, root, rs, size, f, prev)
  }

  ghost predicate NewHeaderWritten(s0: State, s: State, root: Frame, rs: seq<Region>, cells: seq<Frame>,
                                   size: nat, cells': seq<Frame>)
    requires HasRoom(rs, size)
  {
    var k := Place(rs, size, 1);
    && k <= |cells| && k < |cells'|
    && WordsWritten(s0, s, root, cells'[k], cells[k - 1], PlacedAt(rs, size), NextOf(rs, k - 1), size)
    && MemoryLeft(s0, s, root, rs, size, cells'[k], cells[k - 1])
  }

  // Older translations survive if and only if the header page could take a header without harm.
  ghost predicate Allocated(s0: State, s: State, root: Frame, rs: seq<Region>, cells: seq<Frame>, size: nat,
                            cells': seq<Frame>, top': nat)
    requires HasRoom(rs, size)
  {
    && s.mem.Keys == s0.mem.Keys
    && (KeepsTranslations(s0.mem, s.mem, root) <==> Usable(s0.mem, root, PlacedAt(rs, size)))
    && FramesTaken(s0, s, root, NewPages(rs, size))
    && TablesAdded(s0, s, root, NewPages(rs, size), LosesPages(s0, root, rs, size))
    && (AllMapped(s.mem, root, NewPages(rs, size)) <==> !LosesPages(s0, root, rs, size))
    && CellsLeft(s0, root, rs, cells, size, cells')
    && NewHeaderWritten(s0, s, root, rs, cells, size, cells')
    && ListLeft(s0, s, root, rs, cells, size, cells', top')
  }

  lemma ConsistentIff(s0: State, s: State, root: Frame, rs: seq<Region>, cells: seq<Frame>, size: nat,
                      cells': seq<Frame>, top': nat)
    requires HasRoom(rs, size) && Allocated(s0, s, root, rs, cells, size, cells', top')
    ensures Consistent(s, root, Insert(rs, size), cells', top') <==> Survives(s0, root, rs, cells, size)
  {
    hide Consistent, Survives, Clash, CutsOff, LosesPages, FramesTaken, AllMapped, CellsLeft, TablesAdded;
    hide NewHeaderWritten;
  }

  lemma AllocatedKeeps(s0: State, s: State, root: Frame, rs: seq<Region>, cells: seq<Frame>, size: nat,
                       cells': seq<Frame>, top': nat)
    requires HasRoom(rs, size) && Allocated(s0, s, root, rs, cells, size, cells', top')
    ensures KeepsTranslations(s0.mem, s.mem, root) <==> Usable(s0.mem, root, PlacedAt(rs, size))
  {
    hide ListLeft, CellsLeft, LosesPages, FramesTaken, AllMapped, TablesAdded, Usable, NewHeaderWritten;
  }

  // A region that went after the last one.
  lemma AllocatedAtTheEnd(s0: State, s: State, root: Frame, rs: seq<Region>, cells: seq<Frame>, size: nat,
                          cells': seq<Frame>, top': nat)
    requires HasRoom(rs, size) && Allocated(s0, s, root, rs, cells, size, cells', top')
    requires Place(rs, size, 1) == |rs| && Stale(s0.mem, root, PlacedAt(rs, size)).None?
    ensures |cells'| == |rs| + 1 && cells'[..|rs|] == cells && IsLowest(cells'[|rs|], s0.free)
    ensures TablesBorn(s0, s, root) && TakesLowest(s0.free, s.free) && s.mem.Keys == s0.mem.Keys
    ensures |s0.free| <= |s.free| + size / PAGE_SIZE + TableBound(size / PAGE_SIZE)
    ensures OpensOnly(s0, s, root, NewSlots(s0.mem, root, NewPages(rs, size), size / PAGE_SIZE))
    ensures |cells| == |rs| && WordsWritten(s0, s, root, cells'[|rs|], cells[|rs| - 1], PlacedAt(rs, size), 0, size)
  {
    hide ListLeft, LosesPages, AllMapped, Usable, TablesBorn, TakesLowest, IsLowest, Before, NewSlots, NewPages;
    hide OpensOnly, WordsWritten, MemoryLeft;
  }

  // ---------------------------------------------------------------------------------------------
  // Both ways through vmm_allocate: s1 is the state with the pages mapped and no header written

  ghost predicate Written(s0: State, s1: State, s: State, root: Frame, f: Frame, prev: Frame, base: nat,
                          next: nat, size: nat)
  {
    && f in s1.mem && prev in s1.mem && !IsTable(s1.mem, root, prev)
    && s == State(HeadersWritten(s1.mem, f, prev, base, next, size), s1.free)
    && Behind(s1.mem, root, base, f) && !Passes(s1.mem, root, PathOf(base), f, HeaderSlots())
    && DataKept(s0, s1, root) && KeepsTranslations(s0.mem, s1.mem, root) && KeepsTables(s0.mem, s1.mem, root)
    && Recursive(s0.mem, root, s0.free) && Separated(s1.mem, root, s1.free) && Recursive(s1.mem, root, s1.free)
  }

  lemma StillBehind(s0: State, s1: State, s: State, root: Frame, f: Frame, prev: Frame, base: nat, next: nat, size: nat)
    requires Written(s0, s1, s, root, f, prev, base, next, size)
    ensures Behind(s.mem, root, base, f)
  {
    hide PathOf, Recursive, Separated, HeadersWritten, IsTable, DataKept, KeepsTranslations, KeepsTables;
    HeadersLosePages(s1.mem, root, s1.free, f, prev, base, next, size, PathOf(base));
  }

  // What was told of the frame f behind the header before the call has come true.
  ghost predicate Foretold(s0: State, s1: State, root: Frame, rs: seq<Region>, cells: seq<Frame>, size: nat, f: Frame)
    requires HasRoom(rs, size)
  {
    && (Clash(s0.mem, root, PlacedAt(rs, size), cells) <==> f in cells)
    && (Survives(s0, root, rs, cells, size) <==> f !in cells && f !in s1.free && !IsTable(s1.mem, root, f))
    && (LosesPages(s0, root, rs, size) <==> PassedBy(s1.mem, root, NewPages(rs, size), f, HeaderSlots()))
    && (CutsOff(s0.mem, root, rs, size) <==> WayThrough(s1.mem, root, rs, f))
  }

  // The exact condition on both ways: what the header cuts in s1 are the translations that s0 had there.
  lemma OlderTranslationsIff(s0: State, s1: State, s: State, root: Frame, f: Frame, prev: Frame, base: nat,
                             next: nat, size: nat)
    requires Written(s0, s1, s, root, f, prev, base, next, size) && HeaderTaken(s0, s1, root, base, f)
    requires prev in s0.mem && !IsTable(s0.mem, root, prev) && (Stale(s0.mem, root, base).Some? ==>
               Behind(s0.mem, root, base, f) && f in s0.mem)
    ensures KeepsTranslations(s0.mem, s.mem, root) <==> Usable(s0.mem, root, base)
  {
    hide PathOf, Recursive, Separated, HeadersWritten, IsTable, DataKept, KeepsTranslations, KeepsTables;
    if Stale(s0.mem, root, base).None? {
      HeadersAreData(s1.mem, root, s1.free, f, prev, base, next, size);
      SameIsKept(s0.mem, s1.mem, s.mem, root);
    } else if Usable(s0.mem, root, base) {
      HarmlessHeaders(s0, s1, root, f, prev, base, next, size);
      KeptTranslations(s0.mem, s.mem, root, s0.free);
    } else {
      var i: Index := if Harmless(s0.mem, root, f, 0) then 1 else 0;
      HeadersCut(s1.mem, root, f, prev, base, next, size);
      LostWithItsSlot(s0.mem, s1.mem, s.mem, root, s0.free, s1.free, f, HeaderSlots(), i);
    }
  }

  lemma HarmlessHeaders(s0: State, s1: State, root: Frame, f: Frame, prev: Frame, base: nat, next: nat, size: nat)
    requires KeepsTables(s0.mem, s1.mem, root) && f in s1.mem && prev in s1.mem
    requires Harmless(s0.mem, root, f, 0) && Harmless(s0.mem, root, f, 1) && Harmless(s0.mem, root, prev, 0)
    ensures KeepsTables(s0.mem, HeadersWritten(s1.mem, f, prev, base, next, size), root)
  {
    hide IsTable, KeepsTables, Word, Harmless;
    var m1 := SetEntry(s1.mem, f, 1, Word(size));
    HarmlessStore(s0.mem, s1.mem, root, f, 1, Word(size));
    HarmlessStore(s0.mem, m1, root, f, 0, Word(next));
    HarmlessStore(s0.mem, SetEntry(m1, f, 0, Word(next)), root, prev, 0, Word(base));
  }

  lemma PagesAfterwards(s0: State, s1: State, s: State, root: Frame, f: Frame, prev: Frame, base: nat, next: nat,
                        size: nat, r: seq<seq<Index>>)
    requires Written(s0, s1, s, root, f, prev, base, next, size) && IsRange(r) && AllMapped(s1.mem, root, r)
    ensures AllMapped(s.mem, root, r) <==> !PassedBy(s1.mem, root, r, f, HeaderSlots())
  {
    hide PathOf, Recursive, Separated, HeadersWritten, IsTable, DataKept, KeepsTranslations;
    forall i | 0 <= i < |r|
      ensures Walk(s.mem, root, r[i]).Page? <==> !Passes(s1.mem, root, r[i], f, HeaderSlots())
    {
      HeadersLosePages(s1.mem, root, s1.free, f, prev, base, next, size, r[i]);
    }
  }

  lemma SoundList(s0: State, s1: State, s: State, root: Frame, rs: seq<Region>, cells: seq<Frame>, top: nat, size: nat,
                  f: Frame, top': nat)
    requires Consistent(s0, root, rs, cells, top) && size > 0 && size % PAGE_SIZE == 0 && |cells| == |rs|
    requires HasRoom(rs, size)
    requires var k := Place(rs, size, 1);
             Written(s0, s1, s, root, f, cells[k - 1], PlacedAt(rs, size), NextOf(rs, k - 1), size)
    requires MappedBelow(s1.mem, root, rs[0].base / PAGE_SIZE, top') && top <= top' <= PAGE_LIMIT
    requires PlacedAt(rs, size) + size <= top' * PAGE_SIZE
    requires f !in cells && f !in s1.free && !IsTable(s1.mem, root, f)
    ensures var k := Place(rs, size, 1); Consistent(s, root, Insert(rs, size), cells[..k] + [f] + cells[k..], top')
  {
    hide PathOf, PagePath, Recursive, Separated, Sorted, HeadersWritten, IsTable, DataKept, KeepsTranslations;
    hide MappedBelow, ListInMemory, InUse;
    var k := Place(rs, size, 1);
    HeadersAreData(s1.mem, root, s1.free, f, cells[k - 1], PlacedAt(rs, size), NextOf(rs, k - 1), size);
    SameIsKept(s0.mem, s1.mem, s.mem, root);
    ConsistentParts(s0, root, rs, cells, top);
    KeptLocations(s0.mem, s.mem, root, rs, cells);
    StillBehind(s0, s1, s, root, f, cells[k - 1], PlacedAt(rs, size), NextOf(rs, k - 1), size);
    ListAfterwards(s0, s1, s.mem, root, rs, cells, size, f);
    InsertedIsConsistent(s0, s1, s.mem, root, rs, cells, top, size, f, top');
  }

  lemma UnsoundList(s0: State, s1: State, s: State, root: Frame, rs: seq<Region>, prev: Frame, next: nat, size: nat,
                    f: Frame, cs: seq<Frame>, t: nat)
    requires HasRoom(rs, size) && Written(s0, s1, s, root, f, prev, PlacedAt(rs, size), next, size)
    requires f in s1.free || IsTable(s1.mem, root, f)
    ensures !Consistent(s, root, Insert(rs, size), cs, t)
  {
    hide PathOf, Recursive, Separated, HeadersWritten, IsTable, DataKept, KeepsTranslations, Consistent;
    if IsTable(s1.mem, root, f) {
      HeadersCut(s1.mem, root, f, prev, PlacedAt(rs, size), next, size);
      StillATable(s1.mem, s.mem, root, s1.free, f, HeaderSlots());
    }
    StillBehind(s0, s1, s, root, f, prev, PlacedAt(rs, size), next, size);
    LostHeader(s, root, Insert(rs, size), Place(rs, size, 1), f, cs, t);
  }

  lemma NoListNotConsistent(s: State, root: Frame, rs: seq<Region>, cs: seq<Frame>, t: nat)
    requires !ListInMemory(s.mem, root, rs, cs)
    ensures !Consistent(s, root, rs, cs, t)
  {
  }

  lemma ListsAfterwards(s0: State, s1: State, s: State, root: Frame, rs: seq<Region>, cells: seq<Frame>, top: nat,
                        size: nat, f: Frame, top': nat)
    requires Consistent(s0, root, rs, cells, top) && size > 0 && size % PAGE_SIZE == 0 && |cells| == |rs|
    requires HasRoom(rs, size)
    requires var k := Place(rs, size, 1);
             Written(s0, s1, s, root, f, cells[k - 1], PlacedAt(rs, size), NextOf(rs, k - 1), size)
    requires MappedBelow(s1.mem, root, rs[0].base / PAGE_SIZE, top') && top <= top' <= PAGE_LIMIT
    requires PlacedAt(rs, size) + size <= top' * PAGE_SIZE
    requires Foretold(s0, s1, root, rs, cells, size, f)
    ensures var k := Place(rs, size, 1); ListLeft(s0, s, root, rs, cells, size, cells[..k] + [f] + cells[k..], top')
  {
    hide PathOf, PagePath, Recursive, Separated, Sorted, HeadersWritten, IsTable, DataKept, KeepsTranslations;
    hide MappedBelow, ListInMemory, InUse, Insert, Survives, Clash, LosesPages, Cells, Located, Consistent, PassedBy;
    hide CutsOff, WayThrough, KeepsTables;
    var k := Place(rs, size, 1);
    ConsistentParts(s0, root, rs, cells, top);
    WaysAfterwards(s0, s1, s, root, rs, cells, size, f);
    if Survives(s0, root, rs, cells, size) {
      SoundList(s0, s1, s, root, rs, cells, top, size, f, top');
    } else {
      forall cs: seq<Frame>, t: nat
        ensures !Consistent(s, root, Insert(rs, size), cs, t)
      {
        if f in cells {
          NoListNotConsistent(s, root, Insert(rs, size), cs, t);
        } else {
          UnsoundList(s0, s1, s, root, rs, cells[k - 1], NextOf(rs, k - 1), size, f, cs, t);
        }
      }
    }
  }

  // The headers are where they were if no way to one of them is cut, and no list can be found otherwise.
  lemma WaysAfterwards(s0: State, s1: State, s: State, root: Frame, rs: seq<Region>, cells: seq<Frame>,
                       size: nat, f: Frame)
    requires HasRoom(rs, size) && |cells| == |rs| && size > 0 && size % PAGE_SIZE == 0
    requires var k := Place(rs, size, 1);
             Written(s0, s1, s, root, f, cells[k - 1], PlacedAt(rs, size), NextOf(rs, k - 1), size)
    requires Sorted(rs) && ListInMemory(s0.mem, root, rs, cells) && InUse(s0, root, cells)
    ensures var k := Place(rs, size, 1);
            if f in cells || WayThrough(s1.mem, root, rs, f)
            then forall cs :: !ListInMemory(s.mem, root, Insert(rs, size), cs)
            else ListInMemory(s.mem, root, Insert(rs, size), cells[..k] + [f] + cells[k..])
  {
    hide PathOf, Recursive, Separated, Sorted, HeadersWritten, IsTable, DataKept, KeepsTranslations, KeepsTables;
    hide Cells, InUse, Insert;
    var k := Place(rs, size, 1);
    StillBehind(s0, s1, s, root, f, cells[k - 1], PlacedAt(rs, size), NextOf(rs, k - 1), size);
    KeptLocations(s0.mem, s1.mem, root, rs, cells);
    if WayThrough(s1.mem, root, rs, f) {
      var i :| 0 <= i < |rs| && Passes(s1.mem, root, PathOf(rs[i].base), f, HeaderSlots());
      HeadersLosePages(s1.mem, root, s1.free, f, cells[k - 1], PlacedAt(rs, size), NextOf(rs, k - 1), size,
                       PathOf(rs[i].base));
      forall cs: seq<Frame>
        ensures !ListInMemory(s.mem, root, Insert(rs, size), cs)
      {
        LostRegion(s.mem, root, rs, size, i, cs);
      }
    } else {
      forall i | 0 <= i < |rs|
        ensures Behind(s.mem, root, rs[i].base, cells[i])
      {
        HeadersLosePages(s1.mem, root, s1.free, f, cells[k - 1], PlacedAt(rs, size), NextOf(rs, k - 1), size,
                         PathOf(rs[i].base));
        assert Behind(s1.mem, root, rs[i].base, cells[i]);
      }
      ListAfterwards(s0, s1, s.mem, root, rs, cells, size, f);
    }
  }

  lemma StillListed(rs: seq<Region>, size: nat, i: nat) returns (j: nat)
    requires i < |rs|
    ensures j < |Insert(rs, size)| && Insert(rs, size)[j] == rs[i]
  {
    j := if i < Place(rs, size, 1) then i else i + 1;
  }

  lemma LostRegion(m: Memory, root: Frame, rs: seq<Region>, size: nat, i: nat, cs: seq<Frame>)
    requires HasRoom(rs, size) && i < |rs| && Walk(m, root, PathOf(rs[i].base)) == Fault
    ensures !ListInMemory(m, root, Insert(rs, size), cs)
  {
    hide PathOf, Cells, Located, Insert, Place;
    if ListInMemory(m, root, Insert(rs, size), cs) {
      var j := StillListed(rs, size, i);
      LocatedAt(m, root, Insert(rs, size), cs, j);
    }
  }

  lemma KeptLocations(m: Memory, m': Memory, root: Frame, rs: seq<Region>, cells: seq<Frame>)
    requires KeepsTranslations(m, m', root) && Located(m, root, rs, cells)
    ensures Located(m', root, rs, cells)
  {
    hide PathOf;
    forall i | 0 <= i < |rs|
      ensures Behind(m', root, rs[i].base, cells[i])
    {
      assert Behind(m, root, rs[i].base, cells[i]);
    }
  }

  lemma ConsistentParts(s: State, root: Frame, rs: seq<Region>, cells: seq<Frame>, top: nat)
    requires Consistent(s, root, rs, cells, top)
    ensures Sorted(rs) && ListInMemory(s.mem, root, rs, cells) && InUse(s, root, cells)
  {
  }

  lemma AllocatedAfterwards(s0: State, s1: State, s: State, root: Frame, rs: seq<Region>, cells: seq<Frame>, top: nat,
                            size: nat, f: Frame, top': nat)
    returns (cells': seq<Frame>)
    requires Consistent(s0, root, rs, cells, top) && size > 0 && size % PAGE_SIZE == 0 && |cells| == |rs|
    requires HasRoom(rs, size)
    requires var k := Place(rs, size, 1);
             Written(s0, s1, s, root, f, cells[k - 1], PlacedAt(rs, size), NextOf(rs, k - 1), size)
    requires MappedBelow(s1.mem, root, rs[0].base / PAGE_SIZE, top') && top <= top' <= PAGE_LIMIT
    requires PlacedAt(rs, size) + size <= top' * PAGE_SIZE
    requires Foretold(s0, s1, root, rs, cells, size, f)
    requires HeaderTaken(s0, s1, root, PlacedAt(rs, size), f) && CanStore(s0.mem, root, rs, size)
    requires TablesFrom(s0, s1, root, NewPages(rs, size))
    requires AreaWrites(s0, s1, root, NewPages(rs, size), size / PAGE_SIZE)
    requires AllMapped(s1.mem, root, NewPages(rs, size)) && FramesTaken(s0, s1, root, NewPages(rs, size))
    ensures Allocated(s0, s, root, rs, cells, size, cells', top')
  {
    hide PathOf, PagePath, Recursive, Separated, Sorted, HeadersWritten, IsTable, DataKept, KeepsTranslations, NewPages;
    hide MappedBelow, Insert, Survives, Clash, LosesPages, Consistent, PassedBy, AllMapped, TakesLowest, Before;
    hide ListLeft, CutsOff, WayThrough, KeepsTables, TablesFrom, TablesAdded, Usable, InUse, Located, Cells, NewSlots;
    hide WordsWritten, AreaWrites;
    var k := Place(rs, size, 1);
    cells' := cells[..k] + [f] + cells[k..];
    ListsAfterwards(s0, s1, s, root, rs, cells, top, size, f, top');
    PagesAfterwards(s0, s1, s, root, f, cells[k - 1], PlacedAt(rs, size), NextOf(rs, k - 1), size, NewPages(rs, size));
    HeaderOf(s0, root, rs, cells, top, k - 1);
    WrittenKeys(s0, s1, s, root, f, cells[k - 1], PlacedAt(rs, size), NextOf(rs, k - 1), size);
    WordsAfterwards(s0, s1, s, root, f, cells[k - 1], PlacedAt(rs, size), NextOf(rs, k - 1), size);
    assert MapsThenLinks(s0, s1.mem, s, root, rs, size, f, cells[k - 1]) by {
      assert s1 == State(s1.mem, s.free);
    }
    StaleIsRam(s0.mem, root, rs, size);
    OlderTranslationsIff(s0, s1, s, root, f, cells[k - 1], PlacedAt(rs, size), NextOf(rs, k - 1), size);
    TablesAfterwards(s0, s1, s, root, f, cells[k - 1], PlacedAt(rs, size), NextOf(rs, k - 1), size, NewPages(rs, size));
  }

  lemma WordsAfterwards(s0: State, s1: State, s: State, root: Frame, f: Frame, prev: Frame, base: nat,
                        next: nat, size: nat)
    requires Written(s0, s1, s, root, f, prev, base, next, size)
    ensures WordsWritten(s0, s, root, f, prev, base, next, size)
  {
    hide PathOf, Recursive, Separated, IsTable, Word, KeepsTranslations, KeepsTables, Behind, Passes;
  }

  lemma WrittenKeys(s0: State, s1: State, s: State, root: Frame, f: Frame, prev: Frame, base: nat, next: nat, size: nat)
    requires Written(s0, s1, s, root, f, prev, base, next, size)
    ensures s.mem.Keys == s0.mem.Keys
  {
    hide PathOf, Recursive, Separated, IsTable, Word;
  }

  lemma StaleIsRam(m: Memory, root: Frame, rs: seq<Region>, size: nat)
    requires HasRoom(rs, size) && CanStore(m, root, rs, size)
    ensures var stale := Stale(m, root, PlacedAt(rs, size));
            stale.Some? ==> Behind(m, root, PlacedAt(rs, size), stale.value) && stale.value in m
  {
    hide PathOf, NewPages;
  }

  // ---------------------------------------------------------------------------------------------
  // The tables created

  // With the pages mapped: new tables were free, one for each missing link, and each lies on the way of a page.
  ghost predicate TablesFrom(s0: State, s1: State, root: Frame, r: seq<seq<Index>>)
    requires IsRange(r)
  {
    && (forall q: seq<Index> :: Plain(q) && Follow(s0.mem, root, q).None? && Follow(s1.mem, root, q).Some? ==>
          Follow(s1.mem, root, q).value in s0.free)
    && OpensOnly(s0, s1, root, NewSlots(s0.mem, root, r, |r|))
    && |Created(s0, s1, root)| == |NewSlots(s0.mem, root, r, |r|)|
    && forall t :: t in Created(s0, s1, root) ==> OnTheWay(s1.mem, root, r, t)
  }

  ghost predicate OnTheWay(m: Memory, root: Frame, r: seq<seq<Index>>, t: Frame)
    requires IsRange(r)
  {
    exists i, k :: 0 <= i < |r| && 0 <= k <= 3 && Follow(m, root, r[i][..k]) == Some(t)
  }

  lemma TablesAfterwards(s0: State, s1: State, s: State, root: Frame, f: Frame, prev: Frame, base: nat, next: nat,
                         size: nat, r: seq<seq<Index>>)
    requires Written(s0, s1, s, root, f, prev, base, next, size) && IsRange(r) && TablesFrom(s0, s1, root, r)
    ensures TablesAdded(s0, s, root, r, PassedBy(s1.mem, root, r, f, HeaderSlots()))
  {
    hide PathOf, Recursive, Separated, HeadersWritten, DataKept, KeepsTranslations, KeepsTables, NewSlots;
    HeadersCut(s1.mem, root, f, prev, base, next, size);
    assert Follow(s1.mem, root, []) == Some(root);
    forall q: seq<Index> | |q| <= 3 && Follow(s.mem, root, q).Some?
      ensures Follow(s1.mem, root, q) == Follow(s.mem, root, q) && Follow(s.mem, root, q).value !in s1.free
    {
      CutFollow(s1.mem, s.mem, root, s1.free, f, HeaderSlots(), [], q);
      NeverFree(s1, root, q);
    }
    forall t | t in Created(s0, s, root)
      ensures t in Created(s0, s1, root)
    {
    }
    Fewer(Created(s0, s, root), Created(s0, s1, root));
    if !PassedBy(s1.mem, root, r, f, HeaderSlots()) {
      forall t | t in Created(s0, s1, root)
        ensures t in Created(s0, s, root)
      {
        StillOnTheWay(s1, s.mem, root, f, r, t);
      }
      assert Created(s0, s, root) == Created(s0, s1, root);
    }
  }

  lemma NeverFree(s: State, root: Frame, q: seq<Index>)
    requires Recursive(s.mem, root, s.free) && |q| <= 3 && Follow(s.mem, root, q).Some?
    ensures Follow(s.mem, root, q).value !in s.free
  {
  }

  lemma StillOnTheWay(s1: State, m: Memory, root: Frame, f: Frame, r: seq<seq<Index>>, t: Frame)
    requires Recursive(s1.mem, root, s1.free) && Cut(s1.mem, m, root, f, HeaderSlots()) && IsRange(r)
    requires !PassedBy(s1.mem, root, r, f, HeaderSlots()) && OnTheWay(s1.mem, root, r, t)
    ensures IsTable(m, root, t)
  {
    hide Recursive, Cut;
    var i, k :| 0 <= i < |r| && 0 <= k <= 3 && Follow(s1.mem, root, r[i][..k]) == Some(t);
    var q := r[i][..k];
    if Passes(s1.mem, root, q, f, HeaderSlots()) {
      var j := PassesAt(s1.mem, root, q, f, HeaderSlots());
      assert q[..j] == r[i][..j] && q[j] == r[i][j];
      PassesIf(s1.mem, root, r[i], j, f, HeaderSlots());
    }
    assert Follow(s1.mem, root, []) == Some(root);
    CutFollow(s1.mem, m, root, s1.free, f, HeaderSlots(), [], q);
  }

  // ---------------------------------------------------------------------------------------------
  // A gap is reused: headers first, then frames taken that nothing maps

  ghost predicate GapReused(s0: State, s: State, root: Frame, f: Frame, prev: Frame, base: nat, next: nat, size: nat)
  {
    && f in s0.mem && prev in s0.mem && s.mem == HeadersWritten(s0.mem, f, prev, base, next, size)
    && TakesLowest(s0.free, s.free) && |s0.free| == |s.free| + size / PAGE_SIZE
  }

  // A stale frame of a gap is in use afterwards unless it is a table, or free with size / PAGE_SIZE lower ones.
  lemma ForetoldInGap(s0: State, s: State, root: Frame, rs: seq<Region>, cells: seq<Frame>, size: nat, f: Frame)
    requires HasRoom(rs, size) && Recursive(s0.mem, root, s0.free) && AllMapped(s0.mem, root, NewPages(rs, size))
    requires Stale(s0.mem, root, PlacedAt(rs, size)) == Some(f) && CanStore(s0.mem, root, rs, size)
    requires Place(rs, size, 1) < |rs| && TakesLowest(s0.free, s.free) && |s0.free| == |s.free| + size / PAGE_SIZE
    ensures Foretold(s0, State(s0.mem, s.free), root, rs, cells, size, f)
    ensures f in s0.free ==> (f !in s.free <==> Rank(s0.free, f) < size / PAGE_SIZE)
  {
    hide PathOf, Recursive, IsTable, TakesLowest, NewPages, HandedToPage, Rank, Before;
    var r := NewPages(rs, size);
    HandedWithoutTables(s0, root, r, f);
    TakenOnly(s0.free, s.free);
    if f in s0.free {
      TakenByRank(s0.free, s.free, f);
    }
  }

  // Nor do mapped pages of a range.
  lemma MappedPagesPass(s: State, root: Frame, r: seq<seq<Index>>, base: nat, f: Frame)
    requires IsRange(r) && Recursive(s.mem, root, s.free) && AllMapped(s.mem, root, r)
    requires Usable(s.mem, root, base) && Stale(s.mem, root, base) == Some(f)
    ensures !PassedBy(s.mem, root, r, f, HeaderSlots())
  {
    hide PathOf, Recursive, IsTable;
    if PassedBy(s.mem, root, r, f, HeaderSlots()) {
      var i :| 0 <= i < |r| && Passes(s.mem, root, r[i], f, HeaderSlots());
      PresentOnTheWay(s.mem, root, s.free, r[i], f, HeaderSlots());
    }
  }

  lemma TakenOnly(before: set<Frame>, after: set<Frame>)
    requires TakesLowest(before, after)
    ensures after <= before
  {
  }

  lemma AfterReuse(s0: State, s: State, root: Frame, rs: seq<Region>, cells: seq<Frame>, top: nat, size: nat, f: Frame)
    returns (cells': seq<Frame>)
    requires Consistent(s0, root, rs, cells, top) && size > 0 && size % PAGE_SIZE == 0 && |cells| == |rs|
    requires HasRoom(rs, size)
    requires Place(rs, size, 1) < |rs| && CanStore(s0.mem, root, rs, size)
    requires Stale(s0.mem, root, PlacedAt(rs, size)) == Some(f)
    requires var k := Place(rs, size, 1);
             GapReused(s0, s, root, f, cells[k - 1], PlacedAt(rs, size), NextOf(rs, k - 1), size)
    ensures Allocated(s0, s, root, rs, cells, size, cells', top)
  {
    hide PathOf, PagePath, Recursive, Separated, Sorted, HeadersWritten, IsTable, Consistent, KeepsTables, Foretold;
    hide TakesLowest, Before, MappedBelow, KeepsTranslations, Allocated, NewPages, AllMapped, DataKept, AreaWrites;
    var k := Place(rs, size, 1);
    var s1 := State(s0.mem, s.free);
    ConsistentBounds(s0, root, rs, cells, top);
    GapPages(s0, root, rs, cells, top, size);
    ForetoldInGap(s0, s, root, rs, cells, size, f);
    HeaderOf(s0, root, rs, cells, top, k - 1);
    TakenOnly(s0.free, s.free);
    FewerFree(s0.mem, root, s0.free, s.free);
    OnlyFramesTaken(s0, s.free, root);
    GapFrames(s0, s, root, rs, size);
    StaleIsRam(s0.mem, root, rs, size);
    NoTablesFrom(s0, s.free, root, NewPages(rs, size));
    NoAreaWrites(s0, s.free, root, NewPages(rs, size), size / PAGE_SIZE);
    assert !Passes(s0.mem, root, PathOf(PlacedAt(rs, size)), f, HeaderSlots());
    cells' := AllocatedAfterwards(s0, s1, s, root, rs, cells, top, size, f, top);
  }

  lemma NoTablesFrom(s0: State, free: set<Frame>, root: Frame, r: seq<seq<Index>>)
    requires IsRange(r) && Recursive(s0.mem, root, s0.free) && AllMapped(s0.mem, root, r)
    ensures TablesFrom(s0, State(s0.mem, free), root, r)
  {
    HandedWithoutTables(s0, root, r, 0);
    NothingNew(s0.mem, root, s0.free, r, |r|);
    assert Created(s0, State(s0.mem, free), root) == {};
  }

  lemma OnlyFramesTaken(s0: State, free: set<Frame>, root: Frame)
    requires free <= s0.free
    ensures DataKept(s0, State(s0.mem, free), root) && KeepsTranslations(s0.mem, s0.mem, root)
    ensures KeepsTables(s0.mem, s0.mem, root)
  {
  }

  lemma GapPages(s: State, root: Frame, rs: seq<Region>, cells: seq<Frame>, top: nat, size: nat)
    requires Consistent(s, root, rs, cells, top) && Place(rs, size, 1) < |rs| && size > 0 && size % PAGE_SIZE == 0
    requires HasRoom(rs, size)
    ensures PlacedAt(rs, size) + size <= top * PAGE_SIZE && AllMapped(s.mem, root, NewPages(rs, size))
  {
    hide PathOf, PagePath, Consistent;
    GapIsMapped(s, root, rs, cells, top, size);
  }

  lemma GapFrames(s0: State, s: State, root: Frame, rs: seq<Region>, size: nat)
    requires HasRoom(rs, size) && Recursive(s0.mem, root, s0.free) && AllMapped(s0.mem, root, NewPages(rs, size))
    requires TakesLowest(s0.free, s.free) && |s0.free| == |s.free| + size / PAGE_SIZE
    ensures FramesTaken(s0, State(s0.mem, s.free), root, NewPages(rs, size))
  {
    hide PathOf, Recursive, TakesLowest, NewPages, Before;
    HandedWithoutTables(s0, root, NewPages(rs, size), 0);
  }

  // ---------------------------------------------------------------------------------------------
  // Behind the last region: pages first, then headers

  lemma HeaderBehind(s0: State, s1: State, root: Frame, base: nat, n: nat, taken: set<Frame>, added: seq<Frame>,
                     range: seq<seq<Index>>, backing: seq<Frame>)
    returns (f: Frame)
    requires base % PAGE_SIZE == 0 && n > 0
    requires Stale(s0.mem, root, base).Some? ==>
               var g := Stale(s0.mem, root, base).value; Behind(s0.mem, root, base, g) && g in s0.mem
    requires Progress(s0, s1, root, base / PAGE_SIZE, n, n, taken, added, range, backing)
    ensures Behind(s1.mem, root, base, f) && f in s1.mem && HeaderTaken(s0, s1, root, base, f)
  {
    hide PathOf, PagePath, IsTable, Recursive, Separated, InOrder, KeepsTranslations, AreaWrites;
    PathOfPage(base, 0, base / PAGE_SIZE, n, 0);
    AreaKeepsTables(s0, s1, root, base / PAGE_SIZE, n, taken, added, range, backing);
    if Stale(s0.mem, root, base).None? {
      f := FirstPageBehind(s0, s1, root, PagePaths(base / PAGE_SIZE, n), PathOf(base), taken, n);
    } else {
      f := Stale(s0.mem, root, base).value;
      MatchingKeys(s0.mem, s1.mem, root);
      PageStays(s0.mem, s1.mem, root, base, f);
    }
  }

  lemma PageStays(m: Memory, m': Memory, root: Frame, b: nat, f: Frame)
    requires KeepsTranslations(m, m', root) && Behind(m, root, b, f)
    ensures Behind(m', root, b, f)
  {
    hide PathOf;
  }

  lemma FirstPageBehind(s0: State, s1: State, root: Frame, r: seq<seq<Index>>, path: seq<Index>,
                        taken: set<Frame>, j: nat)
    returns (f: Frame)
    requires IsRange(r) && 0 < j <= |r| && r[0] == path && Recursive(s0.mem, root, s0.free)
    requires Area(s0, s1, root, r, j, taken) && Ordered(s0, s1, root, r, j, taken) && Walk(s0.mem, root, path) == Fault
    ensures Walk(s1.mem, root, path) == Page(f, true) && f in s1.mem
    ensures IsLowest(f, s0.free) && f !in s1.free && !IsTable(s1.mem, root, f)
  {
    f :| IsLowest(f, s0.free) && f in taken && Walk(s1.mem, root, r[0]) == Page(f, true);
  }

  ghost predicate RegionAppended(s0: State, s1: State, s: State, root: Frame, f: Frame, prev: Frame,
                                 base: nat, size: nat, taken: set<Frame>, added: seq<Frame>,
                                 range: seq<seq<Index>>, backing: seq<Frame>)
  {
    && Progress(s0, s1, root, base / PAGE_SIZE, size / PAGE_SIZE, size / PAGE_SIZE, taken, added, range, backing)
    && HeaderTaken(s0, s1, root, base, f)
    && Written(s0, s1, s, root, f, prev, base, 0, size)
  }

  lemma ForetoldAtTheEnd(s0: State, s1: State, root: Frame, rs: seq<Region>, cells: seq<Frame>, size: nat, f: Frame,
                         taken: set<Frame>, added: seq<Frame>, range: seq<seq<Index>>, backing: seq<Frame>)
    requires HasRoom(rs, size) && size / PAGE_SIZE > 0 && PlacedAt(rs, size) % PAGE_SIZE == 0
    requires ListInMemory(s0.mem, root, rs, cells) && InUse(s0, root, cells) && f in s0.mem
    requires Progress(s0, s1, root, PlacedAt(rs, size) / PAGE_SIZE, size / PAGE_SIZE, size / PAGE_SIZE, taken, added,
                      range, backing)
    requires HeaderTaken(s0, s1, root, PlacedAt(rs, size), f)
    ensures Foretold(s0, s1, root, rs, cells, size, f)
  {
    hide PathOf, PagePath, IsTable, Progress, WillPass, StaysInUse, WayThrough, PassedBy, Recursive, Separated;
    hide KeepsTables, KeepsTranslations, DataKept, Located, Cells, InUse;
    var base, n := PlacedAt(rs, size), size / PAGE_SIZE;
    var p := base / PAGE_SIZE;
    PathOfPage(base, 0, p, n, 0);
    AreaKeepsTables(s0, s1, root, p, n, taken, added, range, backing);
    if Stale(s0.mem, root, base).Some? {
      FateOfFrame(s0, s1, root, p, n, taken, added, range, backing, f);
      WillPassIff(s0, s1, root, p, n, taken, added, range, backing, f, HeaderSlots());
      WaysKept(s0, s1, root, rs, cells, f);
    } else {
      NoTableNoPass(s1, root, NewPages(rs, size), f);
      NoTableNoWays(s1, root, rs, f);
      FreeIsNoCell(s0, root, cells, f);
    }
  }

  lemma FreeIsNoCell(s: State, root: Frame, cells: seq<Frame>, f: Frame)
    requires InUse(s, root, cells) && f in s.free
    ensures f !in cells
  {
    hide IsTable;
  }

  lemma WaysKept(s0: State, s1: State, root: Frame, rs: seq<Region>, cells: seq<Frame>, f: Frame)
    requires Located(s0.mem, root, rs, cells) && Recursive(s0.mem, root, s0.free) && KeepsTables(s0.mem, s1.mem, root)
    ensures WayThrough(s0.mem, root, rs, f) <==> WayThrough(s1.mem, root, rs, f)
  {
    hide PathOf, Recursive, KeepsTables;
    forall i | 0 <= i < |rs|
      ensures Passes(s1.mem, root, PathOf(rs[i].base), f, HeaderSlots())
              <==> Passes(s0.mem, root, PathOf(rs[i].base), f, HeaderSlots())
    {
      assert Behind(s0.mem, root, rs[i].base, cells[i]);
      MappedPassesKept(s0.mem, s1.mem, root, s0.free, PathOf(rs[i].base), f, HeaderSlots());
    }
  }

  lemma NoTableNoWays(s: State, root: Frame, rs: seq<Region>, f: Frame)
    requires Recursive(s.mem, root, s.free) && !IsTable(s.mem, root, f)
    ensures !WayThrough(s.mem, root, rs, f)
  {
    hide Recursive, IsTable, PathOf;
    if WayThrough(s.mem, root, rs, f) {
      var i :| 0 <= i < |rs| && Passes(s.mem, root, PathOf(rs[i].base), f, HeaderSlots());
      NoTableNoWay(s.mem, root, s.free, PathOf(rs[i].base), f);
    }
  }

  lemma TablesOfArea(s0: State, s1: State, root: Frame, p: nat, n: nat, taken: set<Frame>, added: seq<Frame>,
                     range: seq<seq<Index>>, backing: seq<Frame>)
    requires Progress(s0, s1, root, p, n, n, taken, added, range, backing)
    ensures TablesFrom(s0, s1, root, PagePaths(p, n))
  {
    hide PathOf, PagePath, Recursive, Separated, Counted, Ordered, Linearly, NewSlots;
    var r := PagePaths(p, n);
    TablesCreated(s0, s1, root, r, n, taken);
    forall t | t in Created(s0, s1, root)
      ensures OnTheWay(s1.mem, root, r, t)
    {
      var i, k := NewTableServes(s0, s1, root, r, n, taken, t);
    }
  }

  lemma WordsOfArea(s0: State, s1: State, root: Frame, p: nat, n: nat, taken: set<Frame>, added: seq<Frame>,
                    range: seq<seq<Index>>, backing: seq<Frame>)
    requires Progress(s0, s1, root, p, n, n, taken, added, range, backing)
    ensures AreaWrites(s0, s1, root, PagePaths(p, n), n)
  {
    hide PathOf, PagePath, Recursive, Separated, Counted, Ordered, Linearly, InOrder, Area, AreaWrites;
  }

  lemma NoTableNoPass(s: State, root: Frame, r: seq<seq<Index>>, f: Frame)
    requires IsRange(r) && Recursive(s.mem, root, s.free) && !IsTable(s.mem, root, f)
    ensures !PassedBy(s.mem, root, r, f, HeaderSlots())
  {
    hide Recursive, IsTable;
    if PassedBy(s.mem, root, r, f, HeaderSlots()) {
      var i :| 0 <= i < |r| && Passes(s.mem, root, r[i], f, HeaderSlots());
      PresentOnTheWay(s.mem, root, s.free, r[i], f, HeaderSlots());
    }
  }

  lemma AfterAppend(s0: State, s1: State, s: State, root: Frame, rs: seq<Region>, cells: seq<Frame>,
                    top: nat, size: nat, f: Frame, taken: set<Frame>, added: seq<Frame>,
                    range: seq<seq<Index>>, backing: seq<Frame>)
    returns (cells': seq<Frame>, top': nat)
    requires Consistent(s0, root, rs, cells, top) && size > 0 && size % PAGE_SIZE == 0 && HasRoom(rs, size)
    requires |cells| == |rs| == Place(rs, size, 1)
    requires RegionAppended(s0, s1, s, root, f, cells[|rs| - 1], PlacedAt(rs, size), size, taken, added, range, backing)
    requires CanStore(s0.mem, root, rs, size)
    ensures Allocated(s0, s, root, rs, cells, size, cells', top')
  {
    hide PathOf, PagePath, Recursive, Separated, Sorted, HeadersWritten, IsTable, Consistent, KeepsTables, Foretold;
    hide TakesLowest, Before, MappedBelow, KeepsTranslations, Allocated, DataKept, Progress, NewCell, Stale;
    hide CanStore, TablesFrom, ListInMemory, InUse, Located, Cells, NewSlots, TablesFor, TableBound, AreaWrites;
    var base, n := PlacedAt(rs, size), size / PAGE_SIZE;
    var p := base / PAGE_SIZE;
    ConsistentBounds(s0, root, rs, cells, top);
    ConsistentParts(s0, root, rs, cells, top);
    BoundsOf(rs, top, |rs| - 1);
    AreaKeepsTables(s0, s1, root, p, n, taken, added, range, backing);
    AreaTakes(s0, s1, root, p, n, taken, added, range, backing);
    TablesWithinBound(p, n);
    MatchingKeys(s0.mem, s1.mem, root);
    ForetoldAtTheEnd(s0, s1, root, rs, cells, size, f, taken, added, range, backing);
    TablesOfArea(s0, s1, root, p, n, taken, added, range, backing);
    WordsOfArea(s0, s1, root, p, n, taken, added, range, backing);
    top' := if p + n <= top then top else p + n;
    StillMapped(s0.mem, s1.mem, root, rs[0].base / PAGE_SIZE, top, p, n);
    cells' := AllocatedAfterwards(s0, s1, s, root, rs, cells, top, size, f, top');
  }

  // Where the first new page continues a linear range, the header lands in its fresh frame.
  lemma LinearAfterAppend(s0: State, s1: State, s: State, root: Frame, prev: Frame, base: nat, size: nat, f: Frame,
                          taken: set<Frame>, added: seq<Frame>, range: seq<seq<Index>>, backing: seq<Frame>)
    requires size / PAGE_SIZE > 0 && base % PAGE_SIZE == 0 && base / PAGE_SIZE + size / PAGE_SIZE <= PAGE_LIMIT
    requires RegionAppended(s0, s1, s, root, f, prev, base, size, taken, added, range, backing)
    requires Continues(s0, root, PagePaths(base / PAGE_SIZE, size / PAGE_SIZE), range, backing)
    ensures |added| == size / PAGE_SIZE
    ensures IsRange(range) && |backing + added| <= |range| && Linear(s, root, range, backing + added)
  {
    hide PathOf, PagePath, Recursive, Separated, IsTable, HeadersWritten, Linear, DataKept, KeepsTranslations;
    hide InOrder, Area, Counted, Ordered;
    var p, n := base / PAGE_SIZE, size / PAGE_SIZE;
    PathOfPage(base, 0, p, n, 0);
    NextIsUnmapped(s0, root, range, backing);
    HeadersAreData(s1.mem, root, s1.free, f, prev, base, 0, size);
    LinearAfterwards(s0, s1, s, root, p, n, taken, added, range, backing);
  }

  lemma NextIsUnmapped(s: State, root: Frame, range: seq<seq<Index>>, backing: seq<Frame>)
    requires IsRange(range) && |backing| < |range| && Linear(s, root, range, backing)
    ensures Walk(s.mem, root, range[|backing|]) == Fault
  {
  }
}
