/** Which page tables can be read at their physical addresses, as get_physical_address in src/mem/paging.c does. */
module Reach {
  import opened PageTables
  import opened DataPages
  import opened PageRange
  import opened PageNumbers
  import opened AreaOrder
  import opened Paging
  import opened Bitmap
  import opened RegionList
  import opened RegionHeaders
  import opened Vmm
  import opened StaleFrames
  import opened Wrappers

  // A page mapped to the frame of its own number shows that frame word by word.
  lemma ReadInPlaceIff(m: Memory, root: Frame, t: Frame)
    requires t < PAGE_LIMIT && t in m
    ensures TableAt(m, root, t * PAGE_SIZE, t) <==>
              Walk(m, root, PagePath(t)).Page? && Walk(m, root, PagePath(t)).frame == t
  {
    hide PathOf, PagePath;
    forall i: Index
      ensures WordAt(m, root, t * PAGE_SIZE, i, t) <==>
                Walk(m, root, PagePath(t)).Page? && Walk(m, root, PagePath(t)).frame == t
    {
      WordsOfPage(t, i);
    }
    assert WordAt(m, root, t * PAGE_SIZE, 0, t) || !TableAt(m, root, t * PAGE_SIZE, t);
  }

  lemma TableStaysAt(m: Memory, m': Memory, root: Frame, pointer: nat, t: Frame)
    requires KeepsTranslations(m, m', root) && m'.Keys == m.Keys && TableAt(m, root, pointer, t)
    ensures TableAt(m', root, pointer, t)
  {
    hide PathOf, Canonical, WordOf;
    forall i: Index
      ensures WordAt(m', root, pointer, i, t)
    {
      assert WordAt(m, root, pointer, i, t);
    }
  }

  // ---------------------------------------------------------------------------------------------
  // Mapping one of the pages that stay unmapped

  lemma OwnFrameMapped(s0: State, s: State, root: Frame, path: seq<Index>, e: Entry, q: seq<Index>, f: Frame)
    requires |path| == 4 && path[0] != RECURSIVE && Separated(s0.mem, root, s0.free) && Mapped(s0, s, root, path, e)
    requires |q| == 4 && OwnFrame(s0, root, q, f)
    ensures OwnFrame(s, root, q, f)
  {
    if IsTable(s.mem, root, f) {
      NewTablesWereFree(s0, s, root, path, e, f);
    }
  }

  // The others stay unmapped, and the mapped part stays as it is.
  lemma LinearWithout(s0: State, s: State, root: Frame, r: seq<seq<Index>>, frames: seq<Frame>, i: nat, e: Entry)
    requires IsRange(r) && |frames| <= i < |r| && Linear(s0, root, r, frames)
    requires Separated(s0.mem, root, s0.free) && Mapped(s0, s, root, r[i], e)
    ensures var r' := r[..i] + r[i + 1..]; IsRange(r') && Linear(s, root, r', frames)
  {
    hide Mapped, Separated, PrefixesApart;
    InjectiveKept(s0, s, root, r, r[i], e);
    var r' := r[..i] + r[i + 1..];
    forall k | 0 <= k < |frames|
      ensures OwnFrame(s, root, r'[k], frames[k])
    {
      OwnFrameMapped(s0, s, root, r[i], e, r[k], frames[k]);
    }
    forall k | |frames| <= k < |r'|
      ensures Walk(s.mem, root, r'[k]) == Fault
    {
      OtherStaysUnmapped(s0, s, root, r, i, e, if k < i then k else k + 1);
    }
    WithoutIsRange(s.mem, root, r, i);
  }

  lemma OtherStaysUnmapped(s0: State, s: State, root: Frame, r: seq<seq<Index>>, i: nat, e: Entry, k: nat)
    requires IsRange(r) && i < |r| && k < |r| && k != i && Injective(s.mem, root, r)
    requires Separated(s0.mem, root, s0.free) && Mapped(s0, s, root, r[i], e) && Walk(s0.mem, root, r[k]) == Fault
    ensures Walk(s.mem, root, r[k]) == Fault
  {
    assert PrefixesApart(s.mem, root, r[k][..3], r[i][..3]);
    OtherLeafStaysAbsent(s0.mem, s.mem, root, r[i], r[k]);
  }

  lemma WithoutIsRange(m: Memory, root: Frame, r: seq<seq<Index>>, i: nat)
    requires IsRange(r) && i < |r| && Injective(m, root, r)
    ensures var r' := r[..i] + r[i + 1..]; IsRange(r') && Injective(m, root, r')
  {
    hide PrefixesApart;
    var r' := r[..i] + r[i + 1..];
    forall k | 0 <= k < |r'|
      ensures r'[k] == r[if k < i then k else k + 1]
    {
    }
  }

  lemma LinearPrefix(s: State, root: Frame, r: seq<seq<Index>>, frames: seq<Frame>, n: nat)
    requires IsRange(r) && |frames| <= n <= |r| && Linear(s, root, r, frames)
    ensures IsRange(r[..n]) && Linear(s, root, r[..n], frames)
  {
  }

  // Every path that became followable ends in the index that x or y has at that place.
  ghost predicate OpensAlong(m: Memory, m': Memory, root: Frame, x: seq<Index>, y: seq<Index>)
    requires |x| == |y| == 4
  {
    forall q: seq<Index> :: Plain(q) && Follow(m, root, q).None? && Follow(m', root, q).Some? ==>
      q[|q| - 1] == x[|q| - 1] || q[|q| - 1] == y[|q| - 1]
  }

  lemma OpensBoth(m0: Memory, m1: Memory, m: Memory, root: Frame, x: seq<Index>, y: seq<Index>)
    requires |x| == |y| == 4 && OpensAlong(m0, m1, root, x, x) && OpensAlong(m1, m, root, y, y)
    ensures OpensAlong(m0, m, root, x, y)
  {
  }

  lemma OpensItsPath(s0: State, s: State, root: Frame, path: seq<Index>, e: Entry)
    requires |path| == 4 && path[0] != RECURSIVE && Separated(s0.mem, root, s0.free) && Mapped(s0, s, root, path, e)
    ensures OpensAlong(s0.mem, s.mem, root, path, path)
  {
    hide Separated;
  }

  // One call of map_page: table t becomes readable at its own address, and the run without frees goes on.
  method MapInPlace(m: Manager, t: Frame, ghost i: nat, ghost pages: nat,
                    ghost range: seq<seq<Index>>, ghost backing: seq<Frame>)
    requires m.NeverFreed(pages, range, backing) && pages <= i < |range|
    requires t < PAGE_LIMIT && range[i] == PagePath(t) && t in m.space.mem && |m.space.frames.Free()| >= 3
    modifies m.space`mem, m.space.frames.bitmap
    ensures m.NeverFreed(pages, range[..i] + range[i + 1..], backing)
    ensures KeepsTranslations(old(m.space.mem), m.space.mem, m.space.root) && m.space.mem.Keys == old(m.space.mem).Keys
    ensures OpensAlong(old(m.space.mem), m.space.mem, m.space.root, PagePath(t), PagePath(t))
    ensures TableAt(m.space.mem, m.space.root, t * PAGE_SIZE, t)
    ensures TakesLowest(old(m.space.frames.Free()), m.space.frames.Free())
    ensures |old(m.space.frames.Free())| <= |m.space.frames.Free()| + 3
  {
    hide PathOf, PagePath, Consistent, Separated, Recursive, Mapped, Linear, Packed, TakesLowest, KeepsTranslations;
    hide StartsAt, IsRange, TableAt, DataKept, Missing, OpensAlong;
    ghost var s0 := m.Contents();
    ConsistentBounds(s0, m.space.root, m.regions, m.cells, m.top);
    PageIsItsPath(t);
    AtMostThree(s0.mem, m.space.root, PagePath(t));
    assert EntryOf(AlignToPage(t * PAGE_SIZE), PT_PRESENT_BIT | PT_RW_BIT) == Link(t);
    m.space.MapPage(t * PAGE_SIZE, t * PAGE_SIZE, PT_PRESENT_BIT | PT_RW_BIT);
    AfterMapping(s0, m.Contents(), m.space.root, m.regions, m.cells, m.top, pages, range, backing, i, m.vmRoot, t);
  }

  lemma AtMostThree(m: Memory, root: Frame, path: seq<Index>)
    requires |path| == 4
    ensures Missing(m, root, path) <= 3
  {
  }

  lemma AfterMapping(s0: State, s: State, root: Frame, rs: seq<Region>, cells: seq<Frame>, top: nat, pages: nat,
                     range: seq<seq<Index>>, backing: seq<Frame>, i: nat, base: nat, t: Frame)
    requires Consistent(s0, root, rs, cells, top) && IsRange(range) && StartsAt(range, base, pages)
    requires |backing| <= pages <= i < |range| && Linear(s0, root, range, backing)
    requires t < PAGE_LIMIT && range[i] == PagePath(t) && t in s0.mem && Mapped(s0, s, root, range[i], Link(t))
    ensures Consistent(s, root, rs, cells, top) && Recursive(s.mem, root, s.free)
    ensures var range' := range[..i] + range[i + 1..];
            IsRange(range') && StartsAt(range', base, pages) && Linear(s, root, range', backing)
    ensures KeepsTranslations(s0.mem, s.mem, root) && s.mem.Keys == s0.mem.Keys
    ensures TableAt(s.mem, root, t * PAGE_SIZE, t)
    ensures TakesLowest(s0.free, s.free) && |s0.free| <= |s.free| + 3
    ensures OpensAlong(s0.mem, s.mem, root, PagePath(t), PagePath(t))
  {
    hide PathOf, PagePath, Consistent, Separated, Recursive, Mapped, Linear, TakesLowest, KeepsTranslations, StartsAt;
    hide IsRange, TableAt, DataKept, OpensAlong;
    ConsistentBounds(s0, root, rs, cells, top);
    StayedUnmapped(s0, root, range, backing, i);
    OpensItsPath(s0, s, root, range[i], Link(t));
    MappedKeeps(s0, s, root, range[i], Link(t));
    MappedFrames(s0, s, root, range[i], Link(t));
    SeparatedIsRecursive(s.mem, root, s.free);
    ConsistentKept(s0, s, root, rs, cells, top);
    LinearWithout(s0, s, root, range, backing, i, Link(t));
    StartsWithout(range, base, pages, i);
    ReadInPlaceIff(s.mem, root, t);
  }

  lemma PageIsItsPath(t: Frame)
    ensures PathOf(t * PAGE_SIZE) == PagePath(t)
  {
  }

  lemma StayedUnmapped(s: State, root: Frame, r: seq<seq<Index>>, frames: seq<Frame>, i: nat)
    requires IsRange(r) && |frames| <= i < |r| && Linear(s, root, r, frames)
    ensures Walk(s.mem, root, r[i]) == Fault && |r[i]| == 4 && r[i][0] != RECURSIVE
  {
  }

  lemma MappedFrames(s0: State, s: State, root: Frame, path: seq<Index>, e: Entry)
    requires |path| == 4 && Mapped(s0, s, root, path, e) && Walk(s0.mem, root, path) == Fault && Present(e)
    ensures TakesLowest(s0.free, s.free) && |s0.free| <= |s.free| + 3 && s.mem.Keys == s0.mem.Keys
    ensures Walk(s.mem, root, path) == Page(e.frame, Writable(e))
  {
  }

  lemma StartsWithout(range: seq<seq<Index>>, base: nat, pages: nat, i: nat)
    requires StartsAt(range, base, pages) && pages <= i < |range|
    ensures StartsAt(range[..i] + range[i + 1..], base, pages)
  {
    assert (range[..i] + range[i + 1..])[..pages] == range[..pages];
  }

  // t2 and t3 are the second and third table on the way; those above them can be read.
  ghost predicate UpperInPlace(m: Memory, root: Frame, pml4: nat, path: seq<Index>, t2: Frame, t3: Frame)
  {
    && |path| == 4 && path[0] != RECURSIVE && TablesOf(m, root, path, t2, t3)
    && pml4 != 0 && TableAt(m, root, pml4, root) && TableInPlace(m, root, path[..1])
  }

  // Two calls of map_page make all tables on the way to `base` readable, if those above them are: its second and third
  // table are mapped onto themselves.
  method ReadTables(m: Manager, pml4: nat, t2: Frame, t3: Frame, ghost base: nat, ghost i2: nat, ghost i3: nat,
                    ghost pages: nat, ghost range: seq<seq<Index>>, ghost backing: seq<Frame>)
    requires m.NeverFreed(pages, range, backing) && |m.space.frames.Free()| >= 6
    requires UpperInPlace(m.space.mem, m.space.root, pml4, PathOf(base), t2, t3)
    requires pages <= i2 < |range| && range[i2] == PagePath(t2) && 0 < t2 < PAGE_LIMIT
    requires pages <= i3 < |range| && range[i3] == PagePath(t3) && 0 < t3 < PAGE_LIMIT
    modifies m.space`mem, m.space.frames.bitmap
    ensures m.NeverFreed(pages, range[..pages], backing)
    ensures KeepsTranslations(old(m.space.mem), m.space.mem, m.space.root)
    ensures OpensAlong(old(m.space.mem), m.space.mem, m.space.root, PagePath(t2), PagePath(t3))
    ensures TablesIdentityMapped(m.space.mem, m.space.root, pml4, PathOf(base))
    ensures TakesLowest(old(m.space.frames.Free()), m.space.frames.Free())
    ensures |old(m.space.frames.Free())| <= |m.space.frames.Free()| + 6
  {
    hide PathOf, PagePath, Consistent, Separated, Recursive, Linear, Packed, TakesLowest, TableAt, KeepsTranslations;
    hide IsRange, StartsAt, TablesOf, TableInPlace, OpensAlong;
    ghost var s0, path := m.Contents(), PathOf(base);
    ConsistentBounds(s0, m.space.root, m.regions, m.cells, m.top);
    TablesInRam(s0, m.space.root, path, t2, t3);
    OtherIndex(range, i2, i3, t2, t3);
    MapBothInPlace(m, t2, t3, i2, i3, pages, range, backing);
    ConsistentBounds(m.Contents(), m.space.root, m.regions, m.cells, m.top);
    TableStaysAt(s0.mem, m.space.mem, m.space.root, pml4, m.space.root);
    TablesStay(s0, m.Contents(), m.space.root, path, t2, t3);
    AllInPlace(m.space.mem, m.space.root, pml4, path, t2, t3);
  }

  lemma OneTakenOut(r: seq<seq<Index>>, r': seq<seq<Index>>, pages: nat, i: nat, j: nat) returns (j': nat)
    requires pages <= i < |r| && pages <= j < |r| && i != j && r' == r[..i] + r[i + 1..]
    ensures pages <= j' < |r'| && r'[j'] == r[j]
  {
    j' := if j < i then j else j - 1;
  }

  lemma SameStart(r: seq<seq<Index>>, r1: seq<seq<Index>>, r2: seq<seq<Index>>, pages: nat, i: nat, j: nat)
    requires pages <= i < |r| && r1 == r[..i] + r[i + 1..]
    requires pages <= j < |r1| && r2 == r1[..j] + r1[j + 1..]
    ensures pages <= |r2| && r2[..pages] == r[..pages]
  {
  }

  method MapBothInPlace(m: Manager, t2: Frame, t3: Frame, ghost i2: nat, ghost i3: nat, ghost pages: nat,
                        ghost range: seq<seq<Index>>, ghost backing: seq<Frame>)
    requires m.NeverFreed(pages, range, backing) && |m.space.frames.Free()| >= 6 && i2 != i3
    requires pages <= i2 < |range| && range[i2] == PagePath(t2) && t2 < PAGE_LIMIT && t2 in m.space.mem
    requires pages <= i3 < |range| && range[i3] == PagePath(t3) && t3 < PAGE_LIMIT && t3 in m.space.mem
    modifies m.space`mem, m.space.frames.bitmap
    ensures m.NeverFreed(pages, range[..pages], backing)
    ensures KeepsTranslations(old(m.space.mem), m.space.mem, m.space.root) && m.space.mem.Keys == old(m.space.mem).Keys
    ensures OpensAlong(old(m.space.mem), m.space.mem, m.space.root, PagePath(t2), PagePath(t3))
    ensures TableAt(m.space.mem, m.space.root, t2 * PAGE_SIZE, t2)
    ensures TableAt(m.space.mem, m.space.root, t3 * PAGE_SIZE, t3)
    ensures TakesLowest(old(m.space.frames.Free()), m.space.frames.Free())
    ensures |old(m.space.frames.Free())| <= |m.space.frames.Free()| + 6
  {
    hide PathOf, PagePath, Consistent, Separated, Recursive, Linear, Packed, TakesLowest, TableAt, KeepsTranslations;
    hide IsRange, StartsAt, OpensAlong;
    ghost var s0 := m.Contents();
    MapInPlace(m, t2, i2, pages, range, backing);
    ghost var s1, range1 := m.Contents(), range[..i2] + range[i2 + 1..];
    ghost var i := OneTakenOut(range, range1, pages, i2, i3);
    MapInPlace(m, t3, i, pages, range1, backing);
    ghost var s2, range2 := m.Contents(), range1[..i] + range1[i + 1..];
    LowestCompose(s0.free, s1.free, s2.free);
    KeptOnceMore(s0.mem, s1.mem, s2.mem, m.space.root);
    OpensBoth(s0.mem, s1.mem, s2.mem, m.space.root, PagePath(t2), PagePath(t3));
    TableStaysAt(s1.mem, s2.mem, m.space.root, t2 * PAGE_SIZE, t2);
    SameStart(range, range1, range2, pages, i2, i);
    LinearPrefix(s2, m.space.root, range2, backing, pages);
    StartsPrefix(range2, m.vmRoot, pages);
  }

  // The second and third table on the way.
  ghost predicate TablesOf(m: Memory, root: Frame, path: seq<Index>, t2: Frame, t3: Frame)
  {
    |path| == 4 && Follow(m, root, path[..2]) == Some(t2) && Follow(m, root, path[..3]) == Some(t3)
  }

  ghost predicate TableInPlace(m: Memory, root: Frame, prefix: seq<Index>)
  {
    && Follow(m, root, prefix).Some? && Follow(m, root, prefix).value != 0
    && TableAt(m, root, Follow(m, root, prefix).value * PAGE_SIZE, Follow(m, root, prefix).value)
  }

  lemma TablesInRam(s: State, root: Frame, path: seq<Index>, t2: Frame, t3: Frame)
    requires Recursive(s.mem, root, s.free) && Separated(s.mem, root, s.free) && TablesOf(s.mem, root, path, t2, t3)
    requires path[0] != RECURSIVE
    ensures t2 in s.mem && t3 in s.mem && t2 != t3
  {
    if t2 == t3 {
      SameLevel(s.mem, root, s.free, path[..2], path[..3]);
    }
  }

  lemma OtherIndex(range: seq<seq<Index>>, i2: nat, i3: nat, t2: Frame, t3: Frame)
    requires i2 < |range| && i3 < |range| && range[i2] == PagePath(t2) && range[i3] == PagePath(t3)
    requires t2 != t3 && t2 < PAGE_LIMIT && t3 < PAGE_LIMIT
    ensures i2 != i3
  {
    hide PagePath;
    SharedPrefix(t2, t3);
  }

  lemma KeptOnceMore(m0: Memory, m1: Memory, m2: Memory, root: Frame)
    requires KeepsTranslations(m0, m1, root) && KeepsTranslations(m1, m2, root)
    ensures KeepsTranslations(m0, m2, root)
  {
  }

  lemma TablesStay(s0: State, s: State, root: Frame, path: seq<Index>, t2: Frame, t3: Frame)
    requires Recursive(s0.mem, root, s0.free) && Recursive(s.mem, root, s.free) && s.mem.Keys == s0.mem.Keys
    requires KeepsTranslations(s0.mem, s.mem, root) && TablesOf(s0.mem, root, path, t2, t3)
    requires TableInPlace(s0.mem, root, path[..1])
    ensures TablesOf(s.mem, root, path, t2, t3) && TableInPlace(s.mem, root, path[..1])
  {
    hide Recursive, KeepsTranslations, TableAt;
    TablesKept(s0.mem, s.mem, root, s0.free, s.free, path[..1]);
    TablesKept(s0.mem, s.mem, root, s0.free, s.free, path[..2]);
    TablesKept(s0.mem, s.mem, root, s0.free, s.free, path[..3]);
    var t1 := Follow(s0.mem, root, path[..1]).value;
    TableStaysAt(s0.mem, s.mem, root, t1 * PAGE_SIZE, t1);
  }

  lemma StartsPrefix(range: seq<seq<Index>>, base: nat, pages: nat)
    requires StartsAt(range, base, pages)
    ensures StartsAt(range[..pages], base, pages)
  {
    assert range[..pages][..pages] == range[..pages];
  }

  lemma AllInPlace(m: Memory, root: Frame, pml4: nat, path: seq<Index>, t2: Frame, t3: Frame)
    requires TablesOf(m, root, path, t2, t3) && TableInPlace(m, root, path[..1]) && t2 != 0 && t3 != 0
    requires pml4 != 0 && TableAt(m, root, pml4, root)
    requires TableAt(m, root, t2 * PAGE_SIZE, t2) && TableAt(m, root, t3 * PAGE_SIZE, t3)
    ensures TablesIdentityMapped(m, root, pml4, path)
  {
    hide TableAt;
  }
}
