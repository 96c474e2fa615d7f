/** The region list of src/mem/vmm.c in memory: headers in the pages they describe, and the stores that link them. */
module RegionHeaders {
  import opened PageTables
  import opened DataPages
  import opened PageRange
  import opened PageNumbers
  import opened AreaMapping
  import opened StaleStores
  import opened Paging
  import opened Bitmap
  import opened RegionList
  import opened Wrappers

  // A page-aligned value as the 8-byte word that holds it.
  function Word(v: nat): Entry {
    Entry(0, v / PAGE_SIZE)
  }

  function ValueOf(e: Entry): nat {
    e.frame * PAGE_SIZE
  }

  // ---------------------------------------------------------------------------------------------
  // The list in memory

  // cells[i] is the frame behind the header of region i: word 0 holds the next pointer, word 1 the size.
  ghost predicate Cells(m: Memory, rs: seq<Region>, cells: seq<Frame>)
  {
    && |cells| == |rs|
    && forall i :: 0 <= i < |rs| ==> IsHeader(m, cells[i], NextOf(rs, i), rs[i].size)
  }

  ghost predicate IsHeader(m: Memory, f: Frame, next: nat, size: nat)
  {
    f in m && m[f][0] == Word(next) && m[f][1] == Word(size)
  }

  ghost predicate Located(m: Memory, root: Frame, rs: seq<Region>, cells: seq<Frame>)
  {
    && |cells| == |rs|
    && forall i :: 0 <= i < |rs| ==> Behind(m, root, rs[i].base, cells[i])
  }

  // The processor, walking from vm_root through translated addresses, finds exactly the regions rs.
  ghost predicate ListInMemory(m: Memory, root: Frame, rs: seq<Region>, cells: seq<Frame>)
  {
    Cells(m, rs, cells) && Located(m, root, rs, cells)
  }

  ghost predicate InUse(s: State, root: Frame, cells: seq<Frame>)
  {
    forall i :: 0 <= i < |cells| ==> cells[i] in s.mem && cells[i] !in s.free && !IsTable(s.mem, root, cells[i])
  }

  lemma ValueOfWord(v: nat)
    requires v % PAGE_SIZE == 0
    ensures ValueOf(Word(v)) == v && Word(v).flags == 0 && Word(v).frame * PAGE_SIZE == v
  {
  }

  lemma WordIsInjective(a: nat, b: nat)
    requires a % PAGE_SIZE == 0 && b % PAGE_SIZE == 0 && Word(a) == Word(b)
    ensures a == b
  {
  }

  // A sorted list has a frame of its own for every header: all next pointers differ.
  lemma HeadersDiffer(m: Memory, rs: seq<Region>, cells: seq<Frame>, i: nat, j: nat)
    requires Sorted(rs) && Cells(m, rs, cells) && i < j < |rs|
    ensures cells[i] != cells[j]
  {
    hide Word, Sorted;
    assert IsHeader(m, cells[i], NextOf(rs, i), rs[i].size);
    assert IsHeader(m, cells[j], NextOf(rs, j), rs[j].size);
    NextsDiffer(rs, i, j);
    if cells[i] == cells[j] {
      WordIsInjective(NextOf(rs, i), NextOf(rs, j));
    }
  }

  lemma LengthOfCells(m: Memory, rs: seq<Region>, cells: seq<Frame>)
    requires Cells(m, rs, cells)
    ensures |cells| == |rs|
  {
  }

  // What linking a region behind index k - 1 leaves in memory.
  ghost predicate HeadersLinked(m0: Memory, m: Memory, prev: Frame, new_: Frame, base: nat, next: nat, size: nat)
  {
    && m.Keys == m0.Keys && IsHeader(m, new_, next, size)
    && prev in m && m[prev][0] == Word(base) && m[prev][1] == m0[prev][1]
    && forall f :: f in m0 && f != prev && f != new_ ==> m[f] == m0[f]
  }

  lemma LinkedIsInserted(m0: Memory, m: Memory, rs: seq<Region>, cells: seq<Frame>, k: nat, r: Region, f: Frame)
    requires Sorted(rs) && Cells(m0, rs, cells) && f !in cells && 1 <= k <= |rs|
    requires HeadersLinked(m0, m, cells[k - 1], f, r.base, NextOf(rs, k - 1), r.size)
    ensures Cells(m, rs[..k] + [r] + rs[k..], cells[..k] + [f] + cells[k..])
  {
    hide Word, Sorted;
    var after, cells' := rs[..k] + [r] + rs[k..], cells[..k] + [f] + cells[k..];
    forall i | 0 <= i < |after|
      ensures IsHeader(m, cells'[i], NextOf(after, i), after[i].size)
    {
      if i != k {
        OtherHeader(m0, m, rs, cells, k, r, f, if i < k then i else i - 1);
      }
    }
  }

  lemma OtherHeader(m0: Memory, m: Memory, rs: seq<Region>, cells: seq<Frame>, k: nat, r: Region, f: Frame, i: nat)
    requires Sorted(rs) && Cells(m0, rs, cells) && f !in cells && 1 <= k <= |rs| && i < |rs|
    requires HeadersLinked(m0, m, cells[k - 1], f, r.base, NextOf(rs, k - 1), r.size)
    ensures IsHeader(m, cells[i], if i == k - 1 then r.base else NextOf(rs, i), rs[i].size)
  {
    hide Word, Sorted;
    assert IsHeader(m0, cells[i], NextOf(rs, i), rs[i].size);
    if i < k - 1 {
      HeadersDiffer(m0, rs, cells, i, k - 1);
    } else if k - 1 < i {
      HeadersDiffer(m0, rs, cells, k - 1, i);
    }
  }

  // Every page from the first region up to page `top` is mapped; pages are never unmapped again.
  ghost predicate MappedBelow(m: Memory, root: Frame, lo: nat, top: nat)
  {
    forall p: nat :: lo <= p < top ==> Walk(m, root, PagePath(p)).Page?
  }

  ghost predicate Consistent(s: State, root: Frame, rs: seq<Region>, cells: seq<Frame>, top: nat)
  {
    && Separated(s.mem, root, s.free) && Recursive(s.mem, root, s.free)
    && Sorted(rs) && ListInMemory(s.mem, root, rs, cells) && InUse(s, root, cells)
    && rs[|rs| - 1].End() <= top * PAGE_SIZE && top <= PAGE_LIMIT
    && MappedBelow(s.mem, root, rs[0].base / PAGE_SIZE, top)
  }

  // The words of a page-sized frame that a region's header takes up.
  function HeaderSlots(): set<Index> {
    {0, 1}
  }

  // The page at b is backed by g, and stays so while a header is written to f: g is f or no table, and the way
  // to the page does not lead through the words of that header.
  ghost predicate HeaderFrame(m: Memory, root: Frame, b: nat, g: Frame, f: Frame)
  {
    && b % PAGE_SIZE == 0 && b + PAGE_SIZE <= PAGE_LIMIT * PAGE_SIZE
    && Behind(m, root, b, g) && g in m && (g == f || !IsTable(m, root, g))
    && !Passes(m, root, PathOf(b), f, HeaderSlots())
  }

  // vmm_allocate returns a pointer right behind the words of the header, in a gap sixteen times as far.
  lemma ReturnedPointer(rs: seq<Region>, size: nat)
    requires rs != []
    ensures var words := |HeaderSlots()| * WORD;
            Returned(rs, size) == PlacedAt(rs, size) + if Place(rs, size, 1) == |rs| then words else 16 * words
  {
    assert |HeaderSlots()| == 2;
  }

  // The size bytes from `address` on lie behind the header and, up to the end of the region, clear of what follows it.
  ghost predicate ClearOfHeader(b: nat, address: nat)
  {
    forall i :: i in HeaderSlots() ==> b + i * WORD + WORD <= address
  }

  // The block handed out with a region of `total` bytes ends inside it exactly if the region is the last one or the
  // size leaves room for the sixteen headers that are skipped in a gap.
  lemma BlockEndsInside(rs: seq<Region>, size: nat, total: nat)
    requires rs != [] && size + HEADER <= total
    ensures ClearOfHeader(PlacedAt(rs, total), Returned(rs, total))
    ensures Returned(rs, total) + size <= PlacedAt(rs, total) + total
            <==> Place(rs, total, 1) == |rs| || size + 16 * |HeaderSlots()| * WORD <= total
  {
    hide Place;
    ReturnedPointer(rs, total);
    assert |HeaderSlots()| == 2;
  }

  // The frame that a former region left behind the page at b.
  function Stale(m: Memory, root: Frame, b: nat): Option<Frame>
  {
    match Walk(m, root, PathOf(b))
    case Fault => None
    case Page(f, _) => Some(f)
  }

  // The page for a new header is unmapped, or a former region left it mapped to RAM that is no page table or
  // has its first two entries absent.
  ghost predicate Usable(m: Memory, root: Frame, b: nat)
  {
    Stale(m, root, b).Some? ==>
      var f := Stale(m, root, b).value; Behind(m, root, b, f) && Harmless(m, root, f, 0) && Harmless(m, root, f, 1)
  }

  // The stale frame holds the header of another region by now.
  ghost predicate Clash(m: Memory, root: Frame, b: nat, cells: seq<Frame>)
  {
    Stale(m, root, b).Some? && Stale(m, root, b).value in cells
  }

  lemma HeaderWords(b: nat)
    requires b % PAGE_SIZE == 0 && b + PAGE_SIZE <= PAGE_LIMIT * PAGE_SIZE
    ensures PathOf(b + WORD) == PathOf(b) && WordOf(b) == 0 && WordOf(b + WORD) == 1
    ensures b % WORD == 0 && (b + WORD) % WORD == 0 && Canonical(b) && Canonical(b + WORD)
  {
    var q := b / PAGE_SIZE;
    assert PathOf(b + WORD) == PathOf(b) by {
      hide PathOf;
      SamePagePath(b, WORD);
    }
    QuotientIs(b + WORD, PAGE_SIZE, q, WORD);
    QuotientIs(b, WORD, q * 512, 0);
    QuotientIs(b + WORD, WORD, q * 512 + 1, 0);
  }

  // ---------------------------------------------------------------------------------------------
  // What linking a new region does to the list

  lemma HeaderStays(m0: Memory, m: Memory, root: Frame, free: set<Frame>, b: nat, g: Frame, f: Frame)
    requires Recursive(m0, root, free) && Beside(m0, m, root, f, HeaderSlots()) && HeaderFrame(m0, root, b, g, f)
    ensures Behind(m, root, b, g) && g in m
  {
    hide PathOf, Recursive;
    assert Follow(m0, root, []) == Some(root);
    BesideWalk(m0, m, root, free, f, HeaderSlots(), [], PathOf(b));
  }

  // A data page takes a header without cutting anything.
  lemma DataHeader(m: Memory, root: Frame, free: set<Frame>, b: nat, g: Frame, f: Frame)
    requires Recursive(m, root, free) && b % PAGE_SIZE == 0 && b + PAGE_SIZE <= PAGE_LIMIT * PAGE_SIZE
    requires Behind(m, root, b, g) && g in m && !IsTable(m, root, g) && !IsTable(m, root, f)
    ensures HeaderFrame(m, root, b, g, f)
  {
    hide PathOf, Recursive, IsTable;
    NoTableNoWay(m, root, free, PathOf(b), f);
  }

  lemma NoTableNoWay(m: Memory, root: Frame, free: set<Frame>, path: seq<Index>, f: Frame)
    requires Recursive(m, root, free) && |path| == 4 && !IsTable(m, root, f)
    ensures !Passes(m, root, path, f, HeaderSlots())
  {
    hide Recursive, IsTable;
    if Passes(m, root, path, f, HeaderSlots()) {
      PresentOnTheWay(m, root, free, path, f, HeaderSlots());
    }
  }

  lemma MatchingKeys(m0: Memory, m: Memory, root: Frame)
    requires KeepsTables(m0, m, root)
    ensures m.Keys == m0.Keys
  {
  }

  lemma StillMapped(m: Memory, m': Memory, root: Frame, lo: nat, top: nat, p: nat, n: nat)
    requires MappedBelow(m, root, lo, top) && KeepsTranslations(m, m', root) && p <= top && p + n <= PAGE_LIMIT
    requires forall i :: 0 <= i < n ==> Walk(m', root, PagePaths(p, n)[i]).Page?
    ensures MappedBelow(m', root, lo, if p + n <= top then top else p + n)
  {
    hide PagePath;
    forall q: nat | lo <= q < (if p + n <= top then top else p + n)
      ensures Walk(m', root, PagePath(q)).Page?
    {
      if q < top {
        assert Walk(m, root, PagePath(q)).Page?;
      } else {
        assert PagePaths(p, n)[q - p] == PagePath(q);
      }
    }
  }

  // The headers of the old regions are untouched while the area is mapped.
  lemma HeadersKept(s0: State, s1: State, root: Frame, rs: seq<Region>, cells: seq<Frame>)
    requires ListInMemory(s0.mem, root, rs, cells) && InUse(s0, root, cells)
    requires DataKept(s0, s1, root) && KeepsTranslations(s0.mem, s1.mem, root)
    ensures ListInMemory(s1.mem, root, rs, cells) && InUse(s1, root, cells)
  {
    hide PathOf, Word;
    forall i | 0 <= i < |rs|
      ensures IsHeader(s1.mem, cells[i], NextOf(rs, i), rs[i].size) && Behind(s1.mem, root, rs[i].base, cells[i])
    {
      assert IsHeader(s0.mem, cells[i], NextOf(rs, i), rs[i].size) && Behind(s0.mem, root, rs[i].base, cells[i]);
    }
  }

  lemma InsertedIsLocated(m: Memory, root: Frame, rs: seq<Region>, cells: seq<Frame>, k: nat, r: Region, f: Frame)
    requires Located(m, root, rs, cells) && 1 <= k <= |rs| && Behind(m, root, r.base, f)
    ensures Located(m, root, rs[..k] + [r] + rs[k..], cells[..k] + [f] + cells[k..])
  {
    hide PathOf;
    var after, cells' := rs[..k] + [r] + rs[k..], cells[..k] + [f] + cells[k..];
    forall i | 0 <= i < |after|
      ensures Behind(m, root, after[i].base, cells'[i])
    {
      if i < k {
        assert Behind(m, root, rs[i].base, cells[i]);
      } else if i > k {
        assert Behind(m, root, rs[i - 1].base, cells[i - 1]);
      }
    }
  }

  lemma InsertedInUse(s1: State, m: Memory, root: Frame, cells: seq<Frame>, k: nat, f: Frame)
    requires InUse(s1, root, cells) && SameTranslations(s1.mem, m, root) && 1 <= k <= |cells|
    requires f in s1.mem && f !in s1.free && !IsTable(s1.mem, root, f)
    ensures InUse(State(m, s1.free), root, cells[..k] + [f] + cells[k..])
  {
  }

  // A list whose new header shares its frame with another header is not the list that was meant.
  lemma ClashBreaksTheList(m: Memory, root: Frame, rs: seq<Region>, cells: seq<Frame>, k: nat, r: Region,
                           f: Frame, cells': seq<Frame>)
    requires Located(m, root, rs, cells) && 1 <= k <= |rs| && Behind(m, root, r.base, f) && f in cells
    requires Sorted(rs[..k] + [r] + rs[k..])
    ensures !ListInMemory(m, root, rs[..k] + [r] + rs[k..], cells')
  {
    hide PathOf, Sorted, Cells, Located;
    var after := rs[..k] + [r] + rs[k..];
    LengthOfLocated(m, root, rs, cells);
    if ListInMemory(m, root, after, cells') {
      var i :| 0 <= i < |cells| && cells[i] == f;
      var j := if i < k then i else i + 1;
      assert after[j] == rs[i] && after[k] == r;
      LocatedAt(m, root, rs, cells, i);
      LocatedAt(m, root, after, cells', j);
      LocatedAt(m, root, after, cells', k);
      if j < k {
        HeadersDiffer(m, after, cells', j, k);
      } else {
        HeadersDiffer(m, after, cells', k, j);
      }
    }
  }

  // A header that lies in a free frame or in a page table is no part of a consistent list.
  lemma LostHeader(s: State, root: Frame, rs: seq<Region>, k: nat, f: Frame, cells: seq<Frame>, top: nat)
    requires k < |rs| && Behind(s.mem, root, rs[k].base, f) && (f in s.free || IsTable(s.mem, root, f))
    ensures !Consistent(s, root, rs, cells, top)
  {
    hide PathOf, IsTable, Sorted, MappedBelow, Recursive, Separated, Cells, Located;
    if Consistent(s, root, rs, cells, top) {
      LocatedAt(s.mem, root, rs, cells, k);
    }
  }

  lemma LengthOfLocated(m: Memory, root: Frame, rs: seq<Region>, cells: seq<Frame>)
    requires Located(m, root, rs, cells)
    ensures |cells| == |rs|
  {
  }

  lemma LocatedAt(m: Memory, root: Frame, rs: seq<Region>, cells: seq<Frame>, i: nat)
    requires Located(m, root, rs, cells) && i < |rs|
    ensures |cells| == |rs| && Behind(m, root, rs[i].base, cells[i])
  {
  }

  lemma SameMapped(m: Memory, m': Memory, root: Frame, lo: nat, top: nat)
    requires MappedBelow(m, root, lo, top) && SameTranslations(m, m', root)
    ensures MappedBelow(m', root, lo, top)
  {
    hide PagePath;
    forall p: nat | lo <= p < top
      ensures Walk(m', root, PagePath(p)).Page?
    {
      assert Walk(m, root, PagePath(p)).Page?;
    }
  }

  // The list after the area is mapped and the headers are written.
  lemma ListAfterwards(s0: State, s1: State, m: Memory, root: Frame, rs: seq<Region>, cells: seq<Frame>,
                       size: nat, f: Frame)
    requires Sorted(rs) && ListInMemory(s0.mem, root, rs, cells) && InUse(s0, root, cells)
    requires size > 0 && size % PAGE_SIZE == 0 && |cells| == |rs|
    requires DataKept(s0, s1, root) && KeepsTranslations(s0.mem, s1.mem, root) && Located(m, root, rs, cells)
    requires f in s1.mem && cells[Place(rs, size, 1) - 1] in s1.mem
    requires var k := Place(rs, size, 1);
             m == HeadersWritten(s1.mem, f, cells[k - 1], PlacedAt(rs, size), NextOf(rs, k - 1), size)
    requires Behind(m, root, PlacedAt(rs, size), f)
    ensures f !in cells ==>
              var k := Place(rs, size, 1); ListInMemory(m, root, Insert(rs, size), cells[..k] + [f] + cells[k..])
    ensures f in cells ==> forall cs :: !ListInMemory(m, root, Insert(rs, size), cs)
  {
    hide PathOf, Word, IsHeader, Behind, Sorted, HeadersLinked, InUse, Located, Cells, KeepsTranslations;
    hide HeadersWritten, DataKept;
    var k, r := Place(rs, size, 1), Region(PlacedAt(rs, size), size);
    HeadersWrittenLink(s1.mem, f, cells[k - 1], r.base, NextOf(rs, k - 1), size);
    HeadersKept(s0, s1, root, rs, cells);
    if f !in cells {
      LinkedIsInserted(s1.mem, m, rs, cells, k, r, f);
      InsertedIsLocated(m, root, rs, cells, k, r, f);
    } else {
      InsertKeepsSorted(rs, size);
      forall cs: seq<Frame>
        ensures !ListInMemory(m, root, Insert(rs, size), cs)
      {
        ClashBreaksTheList(m, root, rs, cells, k, r, f, cs);
      }
    }
  }

  lemma InsertedIsConsistent(s0: State, s1: State, m: Memory, root: Frame, rs: seq<Region>, cells: seq<Frame>, top: nat,
                             size: nat, f: Frame, top': nat)
    requires Consistent(s0, root, rs, cells, top) && size > 0 && size % PAGE_SIZE == 0 && |cells| == |rs|
    requires DataKept(s0, s1, root) && KeepsTranslations(s0.mem, s1.mem, root)
    requires f in s1.mem && f !in s1.free && !IsTable(s1.mem, root, f)
    requires SameTranslations(s1.mem, m, root) && Separated(m, root, s1.free) && Recursive(m, root, s1.free)
    requires MappedBelow(s1.mem, root, rs[0].base / PAGE_SIZE, top') && top <= top' <= PAGE_LIMIT
    requires PlacedAt(rs, size) + size <= top' * PAGE_SIZE
    requires var k := Place(rs, size, 1); ListInMemory(m, root, Insert(rs, size), cells[..k] + [f] + cells[k..])
    ensures var k := Place(rs, size, 1);
            Consistent(State(m, s1.free), root, Insert(rs, size), cells[..k] + [f] + cells[k..], top')
  {
    hide PathOf, PagePath, Sorted, MappedBelow, Recursive, Separated, InUse, ListInMemory, Located, Cells;
    hide IsTable, KeepsTranslations, SameTranslations;
    var k := Place(rs, size, 1);
    InsertKeepsSorted(rs, size);
    InsertEnds(rs, size, top' * PAGE_SIZE);
    SameMapped(s1.mem, m, root, rs[0].base / PAGE_SIZE, top');
    CellsStayInUse(s0, s1, root, cells);
    InsertedInUse(s1, m, root, cells, k, f);
  }

  lemma CellsStayInUse(s0: State, s1: State, root: Frame, cells: seq<Frame>)
    requires InUse(s0, root, cells) && DataKept(s0, s1, root)
    ensures InUse(s1, root, cells)
  {
    hide IsTable;
  }

  // Size and next of the new header in f, then next of the previous header in prev.
  function HeadersWritten(m: Memory, f: Frame, prev: Frame, base: nat, next: nat, size: nat): Memory
    requires f in m && prev in m
  {
    SetEntry(SetEntry(SetEntry(m, f, 1, Word(size)), f, 0, Word(next)), prev, 0, Word(base))
  }

  lemma HeadersWrittenLink(m: Memory, f: Frame, prev: Frame, base: nat, next: nat, size: nat)
    requires f in m && prev in m
    ensures var m' := HeadersWritten(m, f, prev, base, next, size);
            && (f != prev ==> HeadersLinked(m, m', prev, f, base, next, size))
            // writing the same values again changes nothing
            && SetEntry(m', f, 1, Word(size)) == m' && SetEntry(m', prev, 0, Word(base)) == m'
            // nor does the order of the two words of one header
            && m' == SetEntry(SetEntry(SetEntry(m, f, 0, Word(next)), f, 1, Word(size)), prev, 0, Word(base))
  {
    hide Word;
    var m' := HeadersWritten(m, f, prev, base, next, size);
    assert m[f][1 := Word(size)][0 := Word(next)] == m[f][0 := Word(next)][1 := Word(size)];
    assert m'[f][1 := Word(size)] == m'[f];
    assert m'[prev][0 := Word(base)] == m'[prev];
  }

  // Both words of the new header are absent entries. Where f is a page table they cut two slots of it; the
  // word in prev, which is no table, harms nothing.
  lemma HeadersCut(m: Memory, root: Frame, f: Frame, prev: Frame, base: nat, next: nat, size: nat)
    requires f in m && prev in m && !IsTable(m, root, prev)
    ensures Cut(m, HeadersWritten(m, f, prev, base, next, size), root, f, HeaderSlots())
  {
    hide IsTable;
    var m' := HeadersWritten(m, f, prev, base, next, size);
    forall t: Frame, i: Index | t in m && IsTable(m, root, t)
      ensures CutSlot(m, m', t, i, f, HeaderSlots())
    {
    }
  }

  // All older translations survive the three stores if and only if f is no page table, or its first two
  // entries were absent.
  lemma HeadersKeepTranslationsIff(m: Memory, root: Frame, free: set<Frame>, f: Frame, prev: Frame, base: nat,
                                   next: nat, size: nat)
    requires Separated(m, root, free) && f in m && prev in m && !IsTable(m, root, prev)
    ensures KeepsTranslations(m, HeadersWritten(m, f, prev, base, next, size), root)
            <==> Harmless(m, root, f, 0) && Harmless(m, root, f, 1)
  {
    hide HeadersWritten, Separated, Harmless, KeepsTranslations;
    var m' := HeadersWritten(m, f, prev, base, next, size);
    HeadersCut(m, root, f, prev, base, next, size);
    CutKeepsTranslationsIff(m, m', root, free, f, HeaderSlots());
    assert (forall i: Index :: i in HeaderSlots() ==> Harmless(m, root, f, i))
        <==> Harmless(m, root, f, 0) && Harmless(m, root, f, 1);
  }

  // Exactly the pages whose way leads through those two slots of f fault afterwards.
  lemma HeadersLosePages(m: Memory, root: Frame, free: set<Frame>, f: Frame, prev: Frame, base: nat, next: nat,
                         size: nat, path: seq<Index>)
    requires Recursive(m, root, free) && f in m && prev in m && !IsTable(m, root, prev) && |path| == 4
    ensures Walk(HeadersWritten(m, f, prev, base, next, size), root, path)
            == if Passes(m, root, path, f, HeaderSlots()) then Fault else Walk(m, root, path)
  {
    hide HeadersWritten, Recursive;
    HeadersCut(m, root, f, prev, base, next, size);
    assert Follow(m, root, []) == Some(root);
    CutWalk(m, HeadersWritten(m, f, prev, base, next, size), root, free, f, HeaderSlots(), [], path);
  }

  // Where f is no table nothing changes for the processor.
  lemma HeadersAreData(m: Memory, root: Frame, free: set<Frame>, f: Frame, prev: Frame, base: nat, next: nat, size: nat)
    requires Separated(m, root, free) && f in m && prev in m && !IsTable(m, root, f) && !IsTable(m, root, prev)
    ensures var m' := HeadersWritten(m, f, prev, base, next, size);
            SameTranslations(m, m', root) && Separated(m', root, free) && Recursive(m', root, free)
  {
    hide Separated, Recursive, IsTable, SetEntry, Word, SameTranslations;
    var m1 := SetEntry(m, f, 1, Word(size));
    DataStore(m, root, free, f, 1, Word(size));
    SameTables(m, m1, root, f);
    SameTables(m, m1, root, prev);
    StillThere(m, m1, root, f, prev);
    var m2 := SetEntry(m1, f, 0, Word(next));
    DataStore(m1, root, free, f, 0, Word(next));
    SameTables(m1, m2, root, prev);
    StillThere(m1, m2, root, f, prev);
    var m3 := SetEntry(m2, prev, 0, Word(base));
    DataStore(m2, root, free, prev, 0, Word(base));
    SameThrice(m, m1, m2, m3, root);
  }

  lemma StillThere(m: Memory, m': Memory, root: Frame, f: Frame, g: Frame)
    requires SameTranslations(m, m', root) && f in m && g in m
    ensures f in m' && g in m'
  {
  }

  lemma SameThrice(m0: Memory, m1: Memory, m2: Memory, m3: Memory, root: Frame)
    requires SameTranslations(m0, m1, root) && SameTranslations(m1, m2, root) && SameTranslations(m2, m3, root)
    ensures SameTranslations(m0, m3, root)
  {
  }

  // What the list promises about region i.
  lemma HeaderOf(s: State, root: Frame, rs: seq<Region>, cells: seq<Frame>, top: nat, i: nat)
    requires Consistent(s, root, rs, cells, top) && i < |rs|
    ensures var r, f := rs[i], cells[i];
            && Behind(s.mem, root, r.base, f) && f in s.mem && f !in s.free && !IsTable(s.mem, root, f)
            && ValueOf(s.mem[f][0]) == NextOf(rs, i) && ValueOf(s.mem[f][1]) == r.size
  {
    hide PathOf, PagePath, Recursive, Separated, MappedBelow, Word, ValueOf, Sorted;
    var r := rs[i];
    assert IsHeader(s.mem, cells[i], NextOf(rs, i), r.size);
    assert Behind(s.mem, root, r.base, cells[i]);
    AlignedRegion(rs, i);
    ValueOfWord(NextOf(rs, i));
    ValueOfWord(r.size);
  }

  lemma BoundsOf(rs: seq<Region>, top: nat, i: nat)
    requires Sorted(rs) && rs[|rs| - 1].End() <= top * PAGE_SIZE && i < |rs|
    ensures rs[i].base % PAGE_SIZE == 0 && rs[i].base + PAGE_SIZE <= rs[i].End() <= top * PAGE_SIZE
    ensures rs[i].End() % PAGE_SIZE == 0 && 0 < rs[0].base <= rs[i].base
  {
    AlignedRegion(rs, i);
    EndIsAligned(rs[i]);
    if i < |rs| - 1 {
      SortedOrder(rs, i, |rs| - 1);
    }
    if i > 0 {
      SortedOrder(rs, 0, i);
    }
  }

  // Inside a gap everything is mapped already.
  lemma GapIsMapped(s: State, root: Frame, rs: seq<Region>, cells: seq<Frame>, top: nat, size: nat)
    requires Consistent(s, root, rs, cells, top) && Place(rs, size, 1) < |rs| && size > 0 && size % PAGE_SIZE == 0
    ensures PlacedAt(rs, size) + size <= top * PAGE_SIZE && PlacedAt(rs, size) % PAGE_SIZE == 0
    ensures PlacedAt(rs, size) / PAGE_SIZE + size / PAGE_SIZE <= PAGE_LIMIT
    ensures forall i :: 0 <= i < size / PAGE_SIZE ==>
              Walk(s.mem, root, PagePaths(PlacedAt(rs, size) / PAGE_SIZE, size / PAGE_SIZE)[i]).Page?
  {
    hide PathOf, PagePath, Recursive, Separated, ListInMemory, InUse;
    var k := Place(rs, size, 1);
    PlaceIsFirst(rs, size, 1);
    EndIsAligned(rs[k - 1]);
    if k < |rs| - 1 {
      SortedOrder(rs, k, |rs| - 1);
    }
    if k - 1 > 0 {
      SortedOrder(rs, 0, k - 1);
    }
    var p, n := PlacedAt(rs, size) / PAGE_SIZE, size / PAGE_SIZE;
    assert p * PAGE_SIZE == PlacedAt(rs, size) && n * PAGE_SIZE == size;
    assert rs[0].base / PAGE_SIZE <= p && p + n <= top;
    forall i | 0 <= i < n
      ensures Walk(s.mem, root, PagePaths(p, n)[i]).Page?
    {
      assert PagePaths(p, n)[i] == PagePath(p + i);
    }
  }

  lemma ConsistentBounds(s: State, root: Frame, rs: seq<Region>, cells: seq<Frame>, top: nat)
    requires Consistent(s, root, rs, cells, top)
    ensures Sorted(rs) && |rs| >= 1 && rs[|rs| - 1].End() <= top * PAGE_SIZE && top <= PAGE_LIMIT && |cells| == |rs|
    ensures MappedBelow(s.mem, root, rs[0].base / PAGE_SIZE, top)
    ensures Separated(s.mem, root, s.free) && Recursive(s.mem, root, s.free)
  {
  }

  lemma SameIsKept(m0: Memory, m1: Memory, m: Memory, root: Frame)
    requires KeepsTranslations(m0, m1, root) && SameTranslations(m1, m, root)
    ensures KeepsTranslations(m0, m, root)
  {
  }

  // ---------------------------------------------------------------------------------------------
  // vmm_free

  // Unlinking region i: its predecessor takes over its next pointer.
  lemma UnlinkedCells(m: Memory, rs: seq<Region>, cells: seq<Frame>, i: nat)
    requires Sorted(rs) && Cells(m, rs, cells) && 1 <= i < |rs|
    ensures Cells(SetEntry(m, cells[i - 1], 0, Word(NextOf(rs, i))), rs[..i] + rs[i + 1..], cells[..i] + cells[i + 1..])
  {
    hide Word, Sorted;
    var m' := SetEntry(m, cells[i - 1], 0, Word(NextOf(rs, i)));
    var after, cells' := rs[..i] + rs[i + 1..], cells[..i] + cells[i + 1..];
    forall j | 0 <= j < |after|
      ensures IsHeader(m', cells'[j], NextOf(after, j), after[j].size)
    {
      var old_ := if j < i then j else j + 1;
      assert IsHeader(m, cells[old_], NextOf(rs, old_), rs[old_].size);
      if old_ < i - 1 {
        HeadersDiffer(m, rs, cells, old_, i - 1);
      } else if i - 1 < old_ {
        HeadersDiffer(m, rs, cells, i - 1, old_);
      }
    }
  }

  lemma UnlinkedIsLocated(m: Memory, m': Memory, root: Frame, rs: seq<Region>, cells: seq<Frame>, i: nat)
    requires Located(m, root, rs, cells) && SameTranslations(m, m', root) && i < |rs|
    ensures Located(m', root, rs[..i] + rs[i + 1..], cells[..i] + cells[i + 1..])
  {
    hide PathOf;
    var after, cells' := rs[..i] + rs[i + 1..], cells[..i] + cells[i + 1..];
    forall j | 0 <= j < |after|
      ensures Behind(m', root, after[j].base, cells'[j])
    {
      var old_ := if j < i then j else j + 1;
      assert Behind(m, root, rs[old_].base, cells[old_]);
    }
  }

  lemma UnlinkedInUse(s: State, m': Memory, free': set<Frame>, root: Frame, rs: seq<Region>, cells: seq<Frame>, i: nat)
    requires Sorted(rs) && Cells(s.mem, rs, cells) && InUse(s, root, cells) && SameTranslations(s.mem, m', root)
        && i < |rs|
    requires free' <= s.free + {cells[i]}
    ensures InUse(State(m', free'), root, cells[..i] + cells[i + 1..])
  {
    hide Word, Sorted, IsTable, Cells, SameTranslations;
    LengthOfCells(s.mem, rs, cells);
    var cells' := cells[..i] + cells[i + 1..];
    forall j | 0 <= j < |cells'|
      ensures cells'[j] in m' && cells'[j] !in free' && !IsTable(m', root, cells'[j])
    {
      OtherStaysInUse(s, m', root, rs, cells, i, if j < i then j else j + 1);
    }
  }

  lemma OtherStaysInUse(s: State, m': Memory, root: Frame, rs: seq<Region>, cells: seq<Frame>, i: nat, j: nat)
    requires Sorted(rs) && Cells(s.mem, rs, cells) && InUse(s, root, cells) && SameTranslations(s.mem, m', root)
    requires i < |rs| && j < |rs| && j != i && |cells| == |rs|
    ensures cells[j] in m' && cells[j] !in s.free && cells[j] != cells[i] && !IsTable(m', root, cells[j])
  {
    hide Word, Sorted, IsTable, Cells;
    SameTables(s.mem, m', root, cells[j]);
    if j < i {
      HeadersDiffer(s.mem, rs, cells, j, i);
    } else {
      HeadersDiffer(s.mem, rs, cells, i, j);
    }
  }

  lemma UnlinkedIsConsistent(s: State, m': Memory, free': set<Frame>, root: Frame, rs: seq<Region>, cells: seq<Frame>,
                             top: nat, i: nat)
    requires Consistent(s, root, rs, cells, top) && 1 <= i < |rs| && |cells| == |rs|
    requires m' == SetEntry(s.mem, cells[i - 1], 0, Word(NextOf(rs, i))) && SameTranslations(s.mem, m', root)
    requires s.free <= free' <= s.free + {cells[i]} && Separated(m', root, free') && Recursive(m', root, free')
    ensures Consistent(State(m', free'), root, Remove(rs, rs[i].base), cells[..i] + cells[i + 1..], top)
  {
    hide PathOf, PagePath, Word, IsTable, Recursive, Separated, Sorted, Cells, Located, InUse, MappedBelow, Remove;
    hide SetEntry;
    RemoveAtRegion(rs, top, i);
    RemoveKeepsSorted(rs, rs[i].base);
    UnlinkedCells(s.mem, rs, cells, i);
    UnlinkedIsLocated(s.mem, m', root, rs, cells, i);
    UnlinkedInUse(s, m', free', root, rs, cells, i);
    SameMapped(s.mem, m', root, rs[0].base / PAGE_SIZE, top);
  }

  lemma RemoveAtRegion(rs: seq<Region>, top: nat, i: nat)
    requires Sorted(rs) && 1 <= i < |rs| && rs[|rs| - 1].End() <= top * PAGE_SIZE
    ensures rs[0].base != rs[i].base
    ensures var after := Remove(rs, rs[i].base);
            after == rs[..i] + rs[i + 1..] && after != [] && after[|after| - 1].End() <= top * PAGE_SIZE
  {
    hide Sorted, Remove;
    SortedOrder(rs, 0, i);
    RemoveAt(rs, i);
    BoundsOf(rs, top, if i == |rs| - 1 then i - 1 else |rs| - 1);
  }
}
