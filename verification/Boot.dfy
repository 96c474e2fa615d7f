/** The page tables that src/boot/boot.asm builds with SMALL_PAGES = 1, before paging is switched on. */
module Boot {
  import opened PageTables
  import opened Paging
  import opened Bitmap
  import opened PageRange
  import opened PageNumbers
  import Vmm
  import opened Wrappers

  const PD_LOOP_LIMIT := 2
  const LOOP_LIMIT := 1024
  const KERNEL_VIRTUAL_ADDR: nat := 0xFFFF_FFFF_8000_0000

  const FRAMEBUFFER_SLOT := 488
  const FRAMEBUFFER: nat := 0xFFFF_FFFF_BD00_0000   // where drivers/framebuffer expects it

  // The zeroed .bss frames behind p4_table, p3_table, p2_table, the first two of pt_tables and the first of
  // fbb_pt_tables.
  datatype Tables = Tables(p4: Frame, p3: Frame, p2: Frame, pt: Frame, fb: Frame)

  function FramesOf(b: Tables): set<Frame> {
    {b.p4, b.p3, b.p2, b.pt, b.pt + 1, b.fb}
  }

  ghost predicate DistinctTables(b: Tables)
  {
    && b.p4 != b.p3 && b.p4 != b.p2 && b.p3 != b.p2
    && b.pt != b.p4 && b.pt != b.p3 && b.pt != b.p2
    && b.pt + 1 != b.p4 && b.pt + 1 != b.p3 && b.pt + 1 != b.p2
    && b.fb !in {b.p4, b.p3, b.p2, b.pt, b.pt + 1}
  }

  ghost predicate Cleared(m: Memory, b: Tables)
  {
    && FramesOf(b) <= m.Keys && DistinctTables(b)
    && m[b.p4] == m[b.p3] == m[b.p2] == m[b.pt] == m[b.pt + 1] == EmptyTable()
  }

  // The word of each table entry after boot. `shown` is the first frame of the framebuffer, if there is one.
  function P4Entry(b: Tables, i: Index): Entry {
    if i == 0 || i == 511 then Link(b.p3) else if i == 510 then Link(b.p4) else EMPTY
  }

  function P3Entry(b: Tables, i: Index): Entry {
    if i == 0 || i == 510 then Link(b.p2) else EMPTY
  }

  function P2Entry(b: Tables, shown: bool, i: Index): Entry {
    if i < PD_LOOP_LIMIT then Link(b.pt + i) else if shown && i == FRAMEBUFFER_SLOT then Link(b.fb) else EMPTY
  }

  // The first `count` entries of t map consecutive frames, `first` onwards.
  predicate MapsFrom(t: Table, first: nat, count: int)
  {
    forall i: Index :: i < count ==> t[i] == Link(first + i)
  }

  // The five tables; `shown` says whether the framebuffer table is linked.
  ghost predicate TablesLinked(m: Memory, b: Tables, shown: bool)
  {
    && FramesOf(b) <= m.Keys
    && (forall i: Index :: m[b.p4][i] == P4Entry(b, i))
    && (forall i: Index :: m[b.p3][i] == P3Entry(b, i))
    && (forall i: Index :: m[b.p2][i] == P2Entry(b, shown, i))
    && MapsFrom(m[b.pt], 0, 512) && MapsFrom(m[b.pt + 1], 512, 512)
  }

  ghost predicate Booted(m: Memory, b: Tables, shown: Option<Frame>)
  {
    && TablesLinked(m, b, shown.Some?)
    && (shown.Some? ==> MapsFrom(m[b.fb], shown.value, 512))
  }

  method BuildTables(m0: Memory, b: Tables) returns (m: Memory)
    requires Cleared(m0, b)
    ensures Booted(m, b, None) && m.Keys == m0.Keys
    ensures forall f :: f in m && f !in {b.p4, b.p3, b.p2, b.pt, b.pt + 1} ==> m[f] == m0[f]
  {
    m := LinkUpperTables(m0, b);
    m := MapPdTable(m, b);
    m := MapPtTables(m, b);
  }

  // The five stores before the loops.
  method LinkUpperTables(m0: Memory, b: Tables) returns (m: Memory)
    requires Cleared(m0, b)
    ensures m.Keys == m0.Keys && forall f :: f in m && f != b.p4 && f != b.p3 ==> m[f] == m0[f]
    ensures (forall i: Index :: m[b.p4][i] == P4Entry(b, i)) && forall i: Index :: m[b.p3][i] == P3Entry(b, i)
  {
    m := SetEntry(m0, b.p4, 0, Link(b.p3));
    m := SetEntry(m, b.p4, 511, Link(b.p3));
    m := SetEntry(m, b.p4, 510, Link(b.p4));
    m := SetEntry(m, b.p3, 0, Link(b.p2));
    m := SetEntry(m, b.p3, 510, Link(b.p2));
  }

  // .map_pd_table
  method MapPdTable(m0: Memory, b: Tables) returns (m: Memory)
    requires b.p2 in m0 && m0[b.p2] == EmptyTable()
    ensures m.Keys == m0.Keys && forall f :: f in m && f != b.p2 ==> m[f] == m0[f]
    ensures forall i: Index :: m[b.p2][i] == P2Entry(b, false, i)
  {
    m := m0;
    var ebx := 0;
    while ebx != PD_LOOP_LIMIT
      invariant 0 <= ebx <= PD_LOOP_LIMIT && m.Keys == m0.Keys
      invariant forall f :: f in m && f != b.p2 ==> m[f] == m0[f]
      invariant forall i: Index :: m[b.p2][i] == if i < ebx then Link(b.pt + i) else EMPTY
      decreases PD_LOOP_LIMIT - ebx
    {
      m := SetEntry(m, b.p2, ebx, Link(b.pt + ebx));
      ebx := ebx + 1;
    }
  }

  // .map_pt_table: the loop runs through both page tables, which lie next to each other.
  method MapPtTables(m0: Memory, b: Tables) returns (m: Memory)
    requires b.pt in m0 && b.pt + 1 in m0
    ensures m.Keys == m0.Keys && forall f :: f in m && f != b.pt && f != b.pt + 1 ==> m[f] == m0[f]
    ensures MapsFrom(m[b.pt], 0, 512) && MapsFrom(m[b.pt + 1], 512, 512)
  {
    m := m0;
    var ecx := 0;
    while ecx != LOOP_LIMIT
      invariant 0 <= ecx <= LOOP_LIMIT && m.Keys == m0.Keys
      invariant forall f :: f in m && f != b.pt && f != b.pt + 1 ==> m[f] == m0[f]
      invariant MapsFrom(m[b.pt], 0, ecx) && MapsFrom(m[b.pt + 1], 512, ecx - 512)
      decreases LOOP_LIMIT - ecx
    {
      m := SetEntry(m, b.pt + ecx / 512, ecx % 512, Link(ecx));
      ecx := ecx + 1;
    }
  }

  // -------------------------------------------------------------------------------------------
  // The walk over the Multiboot tags, with paging switched on

  datatype Tag = FramebufferTag(first: Frame) | OtherTag

  // The framebuffer that the tags announce; a later one replaces an earlier one.
  function Announced(tags: seq<Tag>, shown: Option<Frame>): Option<Frame>
    decreases |tags|
  {
    if tags == [] then shown
    else Announced(tags[1..], if tags[0].FramebufferTag? then Some(tags[0].first) else shown)
  }

  predicate NoFramebuffer(tags: seq<Tag>, from: nat) {
    forall j :: from <= j < |tags| ==> tags[j] == OtherTag
  }

  // Tag i is the last one that announces a framebuffer.
  predicate IsLastFramebuffer(tags: seq<Tag>, i: nat) {
    i < |tags| && tags[i].FramebufferTag? && NoFramebuffer(tags, i + 1)
  }

  lemma {:induction false} NothingAnnounced(tags: seq<Tag>, shown: Option<Frame>)
    requires NoFramebuffer(tags, 0)
    ensures Announced(tags, shown) == shown
    decreases |tags|
  {
    if tags != [] {
      assert tags[0] == OtherTag;
      forall j | 0 <= j < |tags[1..]|
        ensures tags[1..][j] == OtherTag
      {
        assert tags[j + 1] == OtherTag;
      }
      NothingAnnounced(tags[1..], shown);
    }
  }

  lemma {:induction false} LastIsAnnounced(tags: seq<Tag>, shown: Option<Frame>, i: nat)
    requires IsLastFramebuffer(tags, i)
    ensures Announced(tags, shown) == Some(tags[i].first)
    decreases |tags|
  {
    var next := if tags[0].FramebufferTag? then Some(tags[0].first) else shown;
    forall j | i <= j < |tags[1..]|
      ensures tags[1..][j] == OtherTag
    {
      assert tags[j + 1] == OtherTag;
    }
    if i == 0 {
      NothingAnnounced(tags[1..], next);
    } else {
      LastIsAnnounced(tags[1..], next, i - 1);
    }
  }

  // A store at a higher-half address goes through the tables that it may be changing. The kernel lies in
  // the first 4 MiB, so that it can.
  method StoreHigh(m0: Memory, b: Tables, ghost shown: bool, table: Frame, i: Index, e: Entry) returns (m: Memory)
    requires TablesLinked(m0, b, shown) && table < LOOP_LIMIT && table in m0
    ensures m == SetEntry(m0, table, i, e)
  {
    hide PathOf, TablesLinked;
    RootInRam(m0, b, shown);
    HighWord(table, i);
    KernelIsSeen(m0, b, shown, table * PAGE_SIZE + i * WORD);
    var address := KERNEL_VIRTUAL_ADDR + table * PAGE_SIZE + i * WORD;
    var translation := Walk(m0, b.p4, PathOf(address));
    m := SetEntry(m0, translation.frame, WordOf(address), e);
  }

  lemma RootInRam(m: Memory, b: Tables, shown: bool)
    requires TablesLinked(m, b, shown)
    ensures FramesOf(b) <= m.Keys
  {
  }

  lemma HighWord(t: Frame, i: Index)
    requires t < LOOP_LIMIT
    ensures var x := t * PAGE_SIZE + i * WORD;
            && x < 0x40_0000 && x / PAGE_SIZE == t && Canonical(KERNEL_VIRTUAL_ADDR + x)
            && (KERNEL_VIRTUAL_ADDR + x) % WORD == 0 && WordOf(KERNEL_VIRTUAL_ADDR + x) == i
  {
    var x := t * PAGE_SIZE + i * WORD;
    var first := 0xF_FFFF_FFF8_0000;
    QuotientIs(x, PAGE_SIZE, t, i * WORD);
    QuotientIs(KERNEL_VIRTUAL_ADDR + x, PAGE_SIZE, first + t, i * WORD);
    QuotientIs(KERNEL_VIRTUAL_ADDR + x, WORD, (first + t) * 512 + i, 0);
    QuotientIs(i * WORD, WORD, i, 0);
  }

  // .parse_fb_data: link the table, then map 512 pages of the framebuffer.
  method MapFramebuffer(m0: Memory, b: Tables, first: Frame, ghost shown: Option<Frame>) returns (m: Memory)
    requires Booted(m0, b, shown) && DistinctTables(b) && b.p2 < LOOP_LIMIT && b.fb < LOOP_LIMIT
    ensures Booted(m, b, Some(first)) && m.Keys == m0.Keys
    ensures forall f :: f in m && f != b.p2 && f != b.fb ==> m[f] == m0[f]
  {
    m := StoreHigh(m0, b, shown.Some?, b.p2, FRAMEBUFFER_SLOT, Link(b.fb));
    var rcx := 0;
    while rcx != 512
      invariant 0 <= rcx <= 512 && m.Keys == m0.Keys && TablesLinked(m, b, true)
      invariant forall f :: f in m && f != b.p2 && f != b.fb ==> m[f] == m0[f]
      invariant MapsFrom(m[b.fb], first, rcx)
      decreases 512 - rcx
    {
      m := StoreHigh(m, b, true, b.fb, rcx, Link(first + rcx));
      rcx := rcx + 1;
    }
  }

  // read_multiboot
  method ReadMultiboot(m0: Memory, b: Tables, tags: seq<Tag>) returns (m: Memory)
    requires Booted(m0, b, None) && DistinctTables(b) && b.p2 < LOOP_LIMIT && b.fb < LOOP_LIMIT
    ensures Booted(m, b, Announced(tags, None)) && m.Keys == m0.Keys
    ensures NoFramebuffer(tags, 0) ==> Booted(m, b, None)
    ensures forall i: nat :: IsLastFramebuffer(tags, i) ==> Booted(m, b, Some(tags[i].first))
    ensures forall f :: f in m && f != b.p2 && f != b.fb ==> m[f] == m0[f]
  {
    hide Booted;
    m := m0;
    ghost var shown: Option<Frame> := None;
    var i := 0;
    while i < |tags|
      invariant 0 <= i <= |tags| && m.Keys == m0.Keys && Booted(m, b, shown)
      invariant forall f :: f in m && f != b.p2 && f != b.fb ==> m[f] == m0[f]
      invariant Announced(tags[i..], shown) == Announced(tags, None)
    {
      assert tags[i..][0] == tags[i] && tags[i..][1..] == tags[i + 1..];
      if tags[i].FramebufferTag? {
        m := MapFramebuffer(m, b, tags[i].first, shown);
        shown := Some(tags[i].first);
      }
      i := i + 1;
    }
    if NoFramebuffer(tags, 0) {
      NothingAnnounced(tags, None);
    }
    forall i: nat | IsLastFramebuffer(tags, i)
      ensures Booted(m, b, Some(tags[i].first))
    {
      LastIsAnnounced(tags, None, i);
    }
  }

  // -------------------------------------------------------------------------------------------
  // What the tables mean

  // The boot tables satisfy the invariant of map_page, although p3 and p2 are each linked twice.
  lemma BootIsSeparated(m: Memory, b: Tables, shown: Option<Frame>, free: set<Frame>)
    requires Booted(m, b, shown) && DistinctTables(b) && free <= m.Keys
    requires free !! FramesOf(b)
    ensures Separated(m, b.p4, free) && Recursive(m, b.p4, free)
  {
    var level: map<Frame, nat> := map[b.p4 := 4, b.p3 := 3, b.p2 := 2, b.pt := 1, b.pt + 1 := 1, b.fb := 1];
    assert LevelledOutside(m, b.p4, level, free);
    SeparatedIsRecursive(m, b.p4, free);
  }

  // What a page in one of the four places of p2 is mapped to.
  function PageOfP2(shown: Option<Frame>, i: Index, j: Index): Translation {
    if i < PD_LOOP_LIMIT then Page(i as int * 512 + j, true)
    else if shown.Some? && i == FRAMEBUFFER_SLOT then Page(shown.value + j, true)
    else Fault
  }

  // Outside the recursive window exactly the first 4 MiB are mapped, and 2 MiB of the framebuffer if there
  // is one, at four places each.
  lemma BootTranslation(m: Memory, b: Tables, shown: Option<Frame>, path: seq<Index>)
    requires Booted(m, b, shown) && |path| == 4 && path[0] != RECURSIVE
    ensures Walk(m, b.p4, path)
            == if path[0] in {0, 511} && path[1] in {0, 510} then PageOfP2(shown, path[2], path[3]) else Fault
  {
    assert m[b.p4][path[0]] == P4Entry(b, path[0]);
    if path[0] in {0, 511} {
      var p3 := path[1..];
      assert p3[0] == path[1] && p3[1..] == path[2..];
      assert m[b.p3][path[1]] == P3Entry(b, path[1]);
      if path[1] in {0, 510} {
        P2Translation(m, b, shown, path[2..]);
      }
    }
  }

  lemma P2Translation(m: Memory, b: Tables, shown: Option<Frame>, p: seq<Index>)
    requires Booted(m, b, shown) && |p| == 2
    ensures Walk(m, b.p2, p) == PageOfP2(shown, p[0], p[1])
  {
    assert m[b.p2][p[0]] == P2Entry(b, shown.Some?, p[0]);
    assert p[1..][0] == p[1];
    if p[0] < PD_LOOP_LIMIT {
      assert m[b.pt + p[0]][p[1]] == Link(p[0] as int * 512 + p[1]);
      assert Walk(m, b.pt + p[0], p[1..]) == Page(p[0] as int * 512 + p[1], true);
    } else if shown.Some? && p[0] == FRAMEBUFFER_SLOT {
      assert m[b.fb][p[1]] == Link(shown.value + p[1]);
      assert Walk(m, b.fb, p[1..]) == Page(shown.value + p[1], true);
    }
  }

  // The kernel sees physical address x at KERNEL_VIRTUAL_ADDR + x and at x itself.
  lemma BootMapsTheKernel(m: Memory, b: Tables, shown: Option<Frame>, x: nat)
    requires Booted(m, b, shown) && x < 0x40_0000
    ensures Walk(m, b.p4, PathOf(x)) == Page(x / PAGE_SIZE, true)
    ensures Walk(m, b.p4, PathOf(KERNEL_VIRTUAL_ADDR + x)) == Page(x / PAGE_SIZE, true)
  {
    KernelPaths(x);
    BootTranslation(m, b, shown, PathOf(x));
    BootTranslation(m, b, shown, PathOf(KERNEL_VIRTUAL_ADDR + x));
  }

  // The same while the framebuffer table is being filled.
  lemma KernelIsSeen(m: Memory, b: Tables, shown: bool, x: nat)
    requires TablesLinked(m, b, shown) && x < 0x40_0000
    ensures Walk(m, b.p4, PathOf(KERNEL_VIRTUAL_ADDR + x)) == Page(x / PAGE_SIZE, true)
  {
    hide PathOf;
    KernelPaths(x);
    var path := PathOf(KERNEL_VIRTUAL_ADDR + x);
    var p3, p2, p1 := path[1..], path[2..], path[3..];
    assert p3[0] == path[1] && p3[1..] == p2 && p2[0] == path[2] && p2[1..] == p1 && p1[0] == path[3];
    assert m[b.p4][511] == P4Entry(b, 511) && m[b.p3][510] == P3Entry(b, 510);
    assert m[b.p2][path[2]] == P2Entry(b, shown, path[2]);
    assert m[b.pt + path[2]][path[3]] == Link(path[2] as int * 512 + path[3]);
    assert Walk(m, b.pt + path[2], p1) == Page(path[2] as int * 512 + path[3], true);
    assert Walk(m, b.p2, p2) == Page(path[2] as int * 512 + path[3], true);
    assert Walk(m, b.p3, p3) == Page(path[2] as int * 512 + path[3], true);
  }

  // The framebuffer driver finds the framebuffer where it expects it.
  lemma BootMapsTheFramebuffer(m: Memory, b: Tables, first: Frame, x: nat)
    requires Booted(m, b, Some(first)) && x < 0x20_0000
    ensures Walk(m, b.p4, PathOf(FRAMEBUFFER + x)) == Page(first + x / PAGE_SIZE, true)
  {
    var page := x / PAGE_SIZE;
    PathOfFields(0xFFFF, 511, 510, FRAMEBUFFER_SLOT, page, x % PAGE_SIZE);
    assert 0xFFFF * 0x1_0000_0000_0000 + EntriesToAddress(511, 510, FRAMEBUFFER_SLOT, page) + x % PAGE_SIZE
           == FRAMEBUFFER + x;
    BootTranslation(m, b, Some(first), PathOf(FRAMEBUFFER + x));
  }

  lemma KernelPaths(x: nat)
    requires x < 0x40_0000
    ensures var page := x / PAGE_SIZE;
            && page / 512 < PD_LOOP_LIMIT && page / 512 * 512 + page % 512 == page
            && PathOf(x) == [0, 0, page / 512, page % 512]
            && PathOf(KERNEL_VIRTUAL_ADDR + x) == [511, 510, page / 512, page % 512]
  {
    var page := x / PAGE_SIZE;
    PathOfFields(0, 0, 0, page / 512, page % 512, x % PAGE_SIZE);
    PathOfFields(0xFFFF, 511, 510, page / 512, page % 512, x % PAGE_SIZE);
    assert EntriesToAddress(0, 0, page / 512, page % 512) + x % PAGE_SIZE == x;
    assert 0xFFFF * 0x1_0000_0000_0000 + EntriesToAddress(511, 510, page / 512, page % 512) + x % PAGE_SIZE
           == KERNEL_VIRTUAL_ADDR + x;
  }

  // ---------------------------------------------------------------------------------------------
  // What the memory manager finds

  // A page below 510 GiB that no table of boot shows.
  predicate Unused(shown: Option<Frame>, path: seq<Index>)
  {
    && |path| == 4 && path[0] == 0 && path[1] < 510
    && (path[1] == 0 ==> path[2] >= PD_LOOP_LIMIT && !(shown.Some? && path[2] == FRAMEBUFFER_SLOT))
  }

  // Nothing is mapped there after boot, and no two such pages share a table by aliasing.
  lemma BootRangeIsLinear(m: Memory, b: Tables, shown: Option<Frame>, free: set<Frame>, r: seq<seq<Index>>)
    requires Booted(m, b, shown) && IsRange(r) && forall i :: 0 <= i < |r| ==> Unused(shown, r[i])
    ensures Linear(State(m, free), b.p4, r, [])
  {
    hide Booted;
    forall i | 0 <= i < |r|
      ensures Walk(m, b.p4, r[i]) == Fault
    {
      BootTranslation(m, b, shown, r[i]);
    }
    forall i, j | 0 <= i < |r| && 0 <= j < |r|
      ensures PrefixesApart(m, b.p4, r[i][..3], r[j][..3])
    {
      BootPathsApart(m, b, shown, r[i], r[j]);
    }
  }

  lemma BootPathsApart(m: Memory, b: Tables, shown: Option<Frame>, x: seq<Index>, y: seq<Index>)
    requires Booted(m, b, shown) && Unused(shown, x) && Unused(shown, y)
    ensures PrefixesApart(m, b.p4, x[..3], y[..3])
  {
    hide Booted;
    BootPathEnds(m, b, shown, x);
    BootPathEnds(m, b, shown, y);
    assert x[..3][..2] == x[..2] && x[..2][..1] == x[..1] && y[..3][..2] == y[..2] && y[..2][..1] == y[..1];
    assert x[..1] == [0] && y[..1] == [0] && [0][..0] == [];
    assert PrefixesApart(m, b.p4, [], []);
    assert PrefixesApart(m, b.p4, x[..1], y[..1]);
    assert x[1] == 0 && y[1] == 0 ==> x[..2] == y[..2];
    assert PrefixesApart(m, b.p4, x[..2], y[..2]);
  }

  lemma BootPathEnds(m: Memory, b: Tables, shown: Option<Frame>, x: seq<Index>)
    requires Booted(m, b, shown) && Unused(shown, x)
    ensures Follow(m, b.p4, x[..1]) == Some(b.p3) && Follow(m, b.p4, x[..3]) == None
    ensures Follow(m, b.p4, x[..2]) == if x[1] == 0 then Some(b.p2) else None
  {
    assert m[b.p4][0] == P4Entry(b, 0) && m[b.p3][x[1]] == P3Entry(b, x[1]);
    assert m[b.p2][x[2]] == P2Entry(b, shown.Some?, x[2]);
    assert x[..1][1..] == [] && x[..2][1..] == [x[1]] && x[..3][1..] == [x[1], x[2]];
    assert [x[1]][1..] == [] && [x[1], x[2]][1..] == [x[2]] && [x[2]][1..] == [];
    assert x[1] == 0 ==> Follow(m, b.p2, [x[2]]) == None;
    assert Follow(m, b.p3, [x[1]]) == if x[1] == 0 then Some(b.p2) else None;
    assert Follow(m, b.p3, [x[1], x[2]]) == None;
  }

  // The pages [p, p + n) and the page of a frame's own number in the framebuffer's place are seen elsewhere.
  predicate Elsewhere(shown: Option<Frame>, p: nat, n: nat, t: nat) {
    p <= t < p + n || (shown.Some? && t / 512 == FRAMEBUFFER_SLOT)
  }

  // The other pages of [lo, hi).
  function Unseen(shown: Option<Frame>, p: nat, n: nat, lo: nat, hi: nat): (r: seq<nat>)
    ensures forall t: nat :: t in r <==> lo <= t < hi && !Elsewhere(shown, p, n, t)
    ensures forall i, j :: 0 <= i < j < |r| ==> r[i] < r[j]
    decreases hi
  {
    if hi <= lo then []
    else
      var below := Unseen(shown, p, n, lo, hi - 1);
      assert forall i :: 0 <= i < |below| ==> below[i] in below;
      if Elsewhere(shown, p, n, hi - 1) then below else below + [hi - 1]
  }

  // The pages for regions, and behind them the pages through which frames [lo, hi) would be read in place.
  function WatchedPage(shown: Option<Frame>, p: nat, n: nat, lo: nat, hi: nat, i: nat): (page: nat)
    requires i < n + |Unseen(shown, p, n, lo, hi)|
    ensures i < n ==> page == p + i
    ensures i >= n ==> lo <= page < hi && !Elsewhere(shown, p, n, page)
  {
    var others := Unseen(shown, p, n, lo, hi);
    if i < n then p + i
    else
      assert others[i - n] in others;
      others[i - n]
  }

  function WatchedRange(shown: Option<Frame>, p: nat, n: nat, lo: nat, hi: nat): (r: seq<seq<Index>>)
    ensures |r| == n + |Unseen(shown, p, n, lo, hi)|
    ensures forall i :: 0 <= i < |r| ==> r[i] == PagePath(WatchedPage(shown, p, n, lo, hi, i))
  {
    var count := n + |Unseen(shown, p, n, lo, hi)|;
    seq(count, i requires 0 <= i < count => PagePath(WatchedPage(shown, p, n, lo, hi, i)))
  }

  // The page of every frame that is not seen elsewhere is among them.
  lemma IsWatched(shown: Option<Frame>, p: nat, n: nat, lo: nat, hi: nat, t: nat) returns (i: nat)
    requires lo <= t < hi && !Elsewhere(shown, p, n, t)
    ensures n <= i < |WatchedRange(shown, p, n, lo, hi)| && WatchedRange(shown, p, n, lo, hi)[i] == PagePath(t)
  {
    hide PagePath;
    var others := Unseen(shown, p, n, lo, hi);
    var k :| 0 <= k < |others| && others[k] == t;
    i := n + k;
  }

  lemma WatchedAreUnused(shown: Option<Frame>, p: nat, n: nat, lo: nat, hi: nat)
    requires 0x4_0000 <= p && p + n <= 510 * 0x4_0000 && LOOP_LIMIT <= lo && hi <= 510 * 0x4_0000
    ensures var r := WatchedRange(shown, p, n, lo, hi);
            && IsRange(r) && n <= |r| && p + n <= PAGE_LIMIT && r[..n] == PagePaths(p, n)
            && forall i :: 0 <= i < |r| ==> Unused(shown, r[i])
  {
    hide PagePath, PathOf;
    var r := WatchedRange(shown, p, n, lo, hi);
    forall i | 0 <= i < |r|
      ensures Unused(shown, r[i]) && |r[i]| == 4 && r[i][0] != RECURSIVE
    {
      UnusedPage(shown, WatchedPage(shown, p, n, lo, hi, i));
    }
    forall i, j | 0 <= i < j < |r|
      ensures r[i] != r[j]
    {
      WatchedDiffer(shown, p, n, lo, hi, i, j);
      SharedPrefix(WatchedPage(shown, p, n, lo, hi, i), WatchedPage(shown, p, n, lo, hi, j));
    }
  }

  lemma WatchedDiffer(shown: Option<Frame>, p: nat, n: nat, lo: nat, hi: nat, i: nat, j: nat)
    requires i < j < n + |Unseen(shown, p, n, lo, hi)|
    ensures WatchedPage(shown, p, n, lo, hi, i) != WatchedPage(shown, p, n, lo, hi, j)
  {
    var others := Unseen(shown, p, n, lo, hi);
    if i < n <= j {
      assert others[j - n] in others;
    } else if n <= i {
      assert others[i - n] < others[j - n];
    }
  }

  lemma UnusedPage(shown: Option<Frame>, page: nat)
    requires LOOP_LIMIT <= page < 510 * 0x4_0000 && !(shown.Some? && page / 512 == FRAMEBUFFER_SLOT)
    ensures Unused(shown, PagePath(page))
  {
    hide PathOf;
    PagePathIs(page);
    PageDigits(page);
  }

  // The kernel lies in the first 4 MiB above KERNEL_VIRTUAL_ADDR; the area that init_vmm derives from a
  // symbol in it starts at 6 GiB, inside that range.
  lemma VmmAreaIsInRange(vmmArea: nat)
    requires KERNEL_VIRTUAL_ADDR <= vmmArea < KERNEL_VIRTUAL_ADDR + 0x40_0000
    ensures var start := Vmm.StartOf(vmmArea);
            0x1_8000_0000 <= start <= 0x1_8040_0000 && 6 * 0x4_0000 <= start / PAGE_SIZE <= 6 * 0x4_0000 + 1024
  {
    var sum := vmmArea + Vmm.ONE_GIGABYTE * WORD;
    QuotientIs(sum, 0x1_0000_0000_0000_0000, 1, sum - 0x1_0000_0000_0000_0000);
  }

  // The page of this number is mapped to the frame of the same number.
  predicate SeenInPlace(shown: Option<Frame>, t: Frame) {
    t < LOOP_LIMIT
    || (shown.Some? && t / 0x4_0000 in {0, 510} && t / 512 % 512 == FRAMEBUFFER_SLOT && shown.value == t / 512 * 512)
  }

  // After boot a table can be read at its own physical address exactly if it lies in the first 4 MiB, or in
  // the framebuffer should that lie where it is mapped. The frames that allocate_physical_page hands out lie
  // above the first 4 MiB, so for the tables that map_page creates get_physical_address, and with it
  // vmm_free, has no mapping to rely on.
  lemma TablesInReach(m: Memory, b: Tables, shown: Option<Frame>, t: Frame)
    requires Booted(m, b, shown) && t < PAGE_LIMIT
    ensures TableAt(m, b.p4, t * PAGE_SIZE, t) <==> t in m && SeenInPlace(shown, t)
  {
    hide PathOf, Booted, TablesLinked;
    PageSeen(m, b, shown, t);
    if t in m && SeenInPlace(shown, t) {
      forall i: Index
        ensures WordAt(m, b.p4, t * PAGE_SIZE, i, t)
      {
        WordsOfPage(t, i);
      }
    } else if t in m {
      WordsOfPage(t, 0);
      assert !WordAt(m, b.p4, t * PAGE_SIZE, 0, t);
    }
  }

  lemma PageSeen(m: Memory, b: Tables, shown: Option<Frame>, t: Frame)
    requires Booted(m, b, shown) && t < PAGE_LIMIT
    ensures SeenInPlace(shown, t) <==>
              Walk(m, b.p4, PagePath(t)).Page? && Walk(m, b.p4, PagePath(t)).frame == t
  {
    hide PathOf, Booted;
    PagePathIs(t);
    PageDigits(t);
    BootTranslation(m, b, shown, PagePath(t));
  }
}
