/** vmm_allocate_area of src/mem/vmm.c: what mapping the pages of an area one after another keeps and adds. */
module AreaMapping {
  import opened PageTables
  import opened DataPages
  import opened PageRange
  import opened PageNumbers
  import opened AreaOrder
  import opened StaleStores
  import opened Paging
  import opened Bitmap
  import opened Wrappers

  // The page at address b is backed by f.
  ghost predicate Behind(m: Memory, root: Frame, b: nat, f: Frame)
  {
    Walk(m, root, PathOf(b)) == Page(f, true)
  }

  lemma PathOfPage(base: nat, i: nat, p: nat, n: nat, j: nat)
    requires base == p * PAGE_SIZE && i == j * PAGE_SIZE && j < n && p + n <= PAGE_LIMIT
    ensures PathOf(base + i) == PagePaths(p, n)[j]
  {
    assert base + i == (p + j) * PAGE_SIZE;
  }

  // The pages continue the mapped part of a range that is linear so far.
  ghost predicate Continues(s: State, root: Frame, r: seq<seq<Index>>, range: seq<seq<Index>>, backing: seq<Frame>)
  {
    && IsRange(range) && |backing| + |r| <= |range| && Linear(s, root, range, backing)
    && forall i :: 0 <= i < |r| ==> range[|backing| + i] == r[i]
  }

  // n frames for the pages, and at most one table for every group of pages met.
  ghost predicate Counted(s0: State, s: State, p: nat, n: nat, j: nat)
  {
    n + TablesFor(p, n) <= |s0.free| <= |s.free| + j + TablesFor(p, j)
  }

  // If the first page was unmapped it gets the lowest free frame. Where everything is mapped already the
  // frames are taken in vain.
  ghost predicate Ordered(s0: State, s: State, root: Frame, r: seq<seq<Index>>, j: nat, taken: set<Frame>)
    requires IsRange(r)
  {
    && (j == 0 ==> s == s0)
    && (0 < j <= |r| && Walk(s0.mem, root, r[0]) == Fault ==>
          exists f :: IsLowest(f, s0.free) && f in taken && Walk(s.mem, root, r[0]) == Page(f, true))
    && ((forall i :: 0 <= i < |r| ==> Walk(s0.mem, root, r[i]).Page?) ==> s.mem == s0.mem)
  }

  ghost predicate Linearly(s0: State, s: State, root: Frame, r: seq<seq<Index>>, j: nat, added: seq<Frame>,
                           range: seq<seq<Index>>, backing: seq<Frame>)
  {
    |added| == j && (Continues(s0, root, r, range, backing) && j <= |r| ==> Linear(s, root, range, backing + added))
  }

  // The way to one of the first j pages leads through slot i of g.
  ghost predicate OnSomePath(m: Memory, root: Frame, r: seq<seq<Index>>, j: nat, g: Frame, i: Index)
    requires IsRange(r) && j <= |r|
  {
    exists x :: 0 <= x < j && OnPath(m, root, r[x], g, i)
  }

  // Off these ways new tables are clear, and every other word is as it was.
  ghost predicate AreaWrites(s0: State, s: State, root: Frame, r: seq<seq<Index>>, j: nat)
    requires IsRange(r) && j <= |r|
  {
    && s.mem.Keys == s0.mem.Keys
    && forall g: Frame, i: Index :: g in s0.mem && !OnSomePath(s.mem, root, r, j, g, i) ==>
         s.mem[g][i] == if g in s0.free && IsTable(s.mem, root, g) then EMPTY else s0.mem[g][i]
  }

  lemma NoAreaWrites(s0: State, free: set<Frame>, root: Frame, r: seq<seq<Index>>, j: nat)
    requires IsRange(r) && j <= |r| && Recursive(s0.mem, root, s0.free)
    ensures AreaWrites(s0, State(s0.mem, free), root, r, j)
  {
    hide OnSomePath, OnPath;
  }

  // A way stays one when a page is mapped.
  lemma PathsStay(m: Memory, m': Memory, root: Frame, free: set<Frame>, r: seq<seq<Index>>, j: nat, g: Frame, i: Index)
    requires Recursive(m, root, free) && Preserves(m, m', free) && IsRange(r) && j <= |r|
    requires OnSomePath(m, root, r, j, g, i)
    ensures OnSomePath(m', root, r, j, g, i)
  {
    hide Recursive, Preserves;
    var x :| 0 <= x < j && OnPath(m, root, r[x], g, i);
    var k :| 0 <= k <= 3 && Follow(m, root, r[x][..k]) == Some(g) && r[x][k] == i;
    assert Follow(m, root, []) == Some(root);
    PreservedFollow(m, m', root, free, [], r[x][..k]);
    assert OnPath(m', root, r[x], g, i);
  }

  // What mapping one page does to the words and the tables.
  lemma PageWrites(s1: State, s: State, root: Frame, path: seq<Index>, n: Frame)
    requires |path| == 4 && path[0] != RECURSIVE && Separated(s1.mem, root, s1.free)
    requires FreshlyMapped(s1, s, root, path, n)
    ensures var a := State(s1.mem, s1.free - {n});
            && WritesPathOnly(a, s, root, path) && Recursive(a.mem, root, a.free) && Preserves(a.mem, s.mem, a.free)
            && (forall g :: g in a.free && g !in s.free ==> IsTable(s.mem, root, g))
            && (forall g :: IsTable(s.mem, root, g) ==> IsTable(s1.mem, root, g) || (g in a.free && g !in s.free))
            && (forall g :: IsTable(s1.mem, root, g) ==> IsTable(s.mem, root, g))
  {
    hide WritesPathOnly, MapsOnlySlotOf, LinksOnlyPathOf, TouchesTablesOnly, LinksArePlain, LeafIs;
    var a := State(s1.mem, s1.free - {n});
    FewerFree(s1.mem, root, s1.free, a.free);
    SeparatedIsRecursive(a.mem, root, a.free);
    PreservedTables(a.mem, s.mem, root, a.free);
    KeptTranslations(a.mem, s.mem, root, a.free);
    forall g | IsTable(s.mem, root, g)
      ensures IsTable(s1.mem, root, g) || (g in a.free && g !in s.free)
    {
      NewTablesWereFree(a, s, root, path, Link(n), g);
    }
  }

  lemma AreaWritesStep(s0: State, s1: State, s: State, root: Frame, r: seq<seq<Index>>, j: nat, n: Frame)
    requires IsRange(r) && j < |r| && AreaWrites(s0, s1, root, r, j) && s1.free <= s0.free
    requires Separated(s1.mem, root, s1.free) && FreshlyMapped(s1, s, root, r[j], n)
    ensures AreaWrites(s0, s, root, r, j + 1)
  {
    hide Mapped, Separated, Recursive, Preserves, OnPath, IsTable;
    PageWrites(s1, s, root, r[j], n);
    var a := State(s1.mem, s1.free - {n});
    forall g: Frame, i: Index | g in s0.mem && !OnSomePath(s.mem, root, r, j + 1, g, i)
      ensures s.mem[g][i] == if g in s0.free && IsTable(s.mem, root, g) then EMPTY else s0.mem[g][i]
    {
      assert !OnPath(s.mem, root, r[j], g, i);
      if OnSomePath(s1.mem, root, r, j, g, i) {
        PathsStay(s1.mem, s.mem, root, a.free, r, j, g, i);
      }
    }
  }

  // After j of the pages.
  ghost predicate Progress(s0: State, s: State, root: Frame, p: nat, n: nat, j: nat, taken: set<Frame>,
                           added: seq<Frame>, range: seq<seq<Index>>, backing: seq<Frame>)
  {
    && p + n <= PAGE_LIMIT && j <= n
    && Recursive(s0.mem, root, s0.free) && Recursive(s.mem, root, s.free)
    && Area(s0, s, root, PagePaths(p, n), j, taken)
    && InOrder(s0, s, root, PagePaths(p, n), j, taken)
    && Counted(s0, s, p, n, j)
    && Ordered(s0, s, root, PagePaths(p, n), j, taken)
    && Linearly(s0, s, root, PagePaths(p, n), j, added, range, backing)
    && AreaWrites(s0, s, root, PagePaths(p, n), j)
  }

  lemma ProgressStart(s0: State, root: Frame, p: nat, n: nat, range: seq<seq<Index>>, backing: seq<Frame>)
    requires p + n <= PAGE_LIMIT && Separated(s0.mem, root, s0.free) && n + TablesFor(p, n) <= |s0.free|
    ensures Progress(s0, s0, root, p, n, 0, {}, [], range, backing)
  {
    hide InOrder, AreaWrites;
    SeparatedIsRecursive(s0.mem, root, s0.free);
    NoAreaWrites(s0, s0.free, root, PagePaths(p, n), 0);
    InOrderStart(s0, root, PagePaths(p, n));
    assert backing + [] == backing;
    assert TablesFor(p, 0) == 0;
  }

  // With frames for all n pages and their tables, the j-th page finds what it needs.
  lemma EnoughForPage(s0: State, s1: State, root: Frame, p: nat, n: nat, j: nat)
    requires p + n <= PAGE_LIMIT && j < n && Recursive(s1.mem, root, s1.free)
    requires n + TablesFor(p, n) <= |s0.free| <= |s1.free| + j + TablesFor(p, j)
    requires j > 0 ==> Walk(s1.mem, root, PagePaths(p, n)[j - 1]).Page?
    ensures var missing := Missing(s1.mem, root, PagePaths(p, n)[j]);
            missing < |s1.free| && TablesFor(p, j) + missing <= TablesFor(p, j + 1)
  {
    OneMorePage(p, n, j);
    TablesForGrows(p, j + 1, n);
    FewMissing(s1, root, PagePaths(p, n), j);
  }

  lemma EnoughInProgress(s0: State, s1: State, root: Frame, p: nat, n: nat, j: nat, taken: set<Frame>,
                         added: seq<Frame>, range: seq<seq<Index>>, backing: seq<Frame>)
    requires j < n && Progress(s0, s1, root, p, n, j, taken, added, range, backing)
    ensures p + n <= PAGE_LIMIT && Recursive(s1.mem, root, s1.free)
    ensures Missing(s1.mem, root, PagePaths(p, n)[j]) < |s1.free|
  {
    EnoughForPage(s0, s1, root, p, n, j);
  }

  lemma ProgressStep(s0: State, s1: State, s: State, root: Frame, p: nat, n: nat, j: nat, taken: set<Frame>,
                     added: seq<Frame>, range: seq<seq<Index>>, backing: seq<Frame>, f: Frame)
    requires j < n && Progress(s0, s1, root, p, n, j, taken, added, range, backing)
    requires FreshlyMapped(s1, s, root, PagePaths(p, n)[j], f) && forall g :: g in s1.free ==> f <= g
    ensures Progress(s0, s, root, p, n, j + 1, taken + {f}, added + [f], range, backing)
  {
    hide Mapped, Linear, InOrder, AreaWrites;
    var r := PagePaths(p, n);
    AreaWritesStep(s0, s1, s, root, r, j, f);
    InOrderStep(s0, s1, s, root, r, j, taken, f);
    CountStep(s0, s1, s, root, p, n, j, f);
    AreaStep(s0, s1, s, root, r, j, taken, f);
    SeparatedIsRecursive(s.mem, root, s.free);
    OrderedStep(s0, s1, s, root, r, j, taken, f);
    LinearlyStep(s0, s1, s, root, r, j, added, range, backing, f);
  }

  lemma CountStep(s0: State, s1: State, s: State, root: Frame, p: nat, n: nat, j: nat, f: Frame)
    requires p + n <= PAGE_LIMIT && j < n && Recursive(s1.mem, root, s1.free) && Counted(s0, s1, p, n, j)
    requires j > 0 ==> Walk(s1.mem, root, PagePaths(p, n)[j - 1]).Page?
    requires FreshlyMapped(s1, s, root, PagePaths(p, n)[j], f)
    ensures Counted(s0, s, p, n, j + 1)
  {
    EnoughForPage(s0, s1, root, p, n, j);
    OneFrameMore(s1, s, root, PagePaths(p, n)[j], f);
  }

  lemma OneFrameMore(s1: State, s: State, root: Frame, path: seq<Index>, f: Frame)
    requires |path| == 4 && FreshlyMapped(s1, s, root, path, f)
    ensures |s1.free| == |s.free| + 1 + Missing(s1.mem, root, path)
  {
  }

  lemma OrderedStep(s0: State, s1: State, s: State, root: Frame, r: seq<seq<Index>>, j: nat,
                    taken: set<Frame>, f: Frame)
    requires IsRange(r) && j < |r| && Ordered(s0, s1, root, r, j, taken) && s1.free <= s0.free
    requires Separated(s1.mem, root, s1.free)
    requires FreshlyMapped(s1, s, root, r[j], f) && IsLowest(f, s1.free)
    ensures Ordered(s0, s, root, r, j + 1, taken + {f})
  {
    FreshPage(s1, s, root, r[j], f);
    if forall i :: 0 <= i < |r| ==> Walk(s0.mem, root, r[i]).Page? {
      assert Walk(s0.mem, root, r[j]).Page?;
    }
  }

  lemma LinearlyStep(s0: State, s1: State, s: State, root: Frame, r: seq<seq<Index>>, j: nat, added: seq<Frame>,
                     range: seq<seq<Index>>, backing: seq<Frame>, f: Frame)
    requires j < |r| && |r[j]| == 4 && Linearly(s0, s1, root, r, j, added, range, backing)
    requires Separated(s1.mem, root, s1.free) && FreshlyMapped(s1, s, root, r[j], f)
    ensures Linearly(s0, s, root, r, j + 1, added + [f], range, backing)
  {
    hide Mapped, Linear;
    if Continues(s0, root, r, range, backing) {
      var frames := backing + added;
      assert range[|frames|] == r[j];
      LinearStep(s1, s, root, range, frames, backing + (added + [f]), f);
    }
  }

  // ---------------------------------------------------------------------------------------------
  // After the last page

  lemma LinearAfterwards(s0: State, s1: State, s: State, root: Frame, p: nat, n: nat, taken: set<Frame>,
                         added: seq<Frame>, range: seq<seq<Index>>, backing: seq<Frame>)
    requires Progress(s0, s1, root, p, n, n, taken, added, range, backing)
    requires Continues(s0, root, PagePaths(p, n), range, backing)
    requires s.free == s1.free && SameTranslations(s1.mem, s.mem, root)
    ensures |backing + added| <= |range| && Linear(s, root, range, backing + added)
  {
    hide PagePath, Area, Ordered, Counted;
    assert Linearly(s0, s1, root, PagePaths(p, n), n, added, range, backing);
    LinearKept(s1, s.mem, root, range, backing + added);
    assert s == State(s.mem, s1.free);
  }

  lemma AreaKeepsHeader(s0: State, s1: State, root: Frame, p: nat, n: nat, taken: set<Frame>, added: seq<Frame>,
                        range: seq<seq<Index>>, backing: seq<Frame>, b: nat, f: Frame)
    requires Progress(s0, s1, root, p, n, n, taken, added, range, backing)
    requires Behind(s0.mem, root, b, f) && f in s0.mem && f !in s0.free && !IsTable(s0.mem, root, f)
    ensures Behind(s1.mem, root, b, f) && f in s1.mem && !IsTable(s1.mem, root, f) && s1.mem[f] == s0.mem[f]
    ensures Recursive(s1.mem, root, s1.free) && Separated(s1.mem, root, s1.free)
  {
    hide PathOf, PagePath, IsTable;
  }

  lemma AreaKeepsTables(s0: State, s1: State, root: Frame, p: nat, n: nat, taken: set<Frame>, added: seq<Frame>,
                        range: seq<seq<Index>>, backing: seq<Frame>)
    requires Progress(s0, s1, root, p, n, n, taken, added, range, backing)
    ensures KeepsTables(s0.mem, s1.mem, root) && KeepsTranslations(s0.mem, s1.mem, root) && DataKept(s0, s1, root)
    ensures Recursive(s0.mem, root, s0.free) && Recursive(s1.mem, root, s1.free) && Separated(s1.mem, root, s1.free)
    ensures forall i :: 0 <= i < n ==> Walk(s1.mem, root, PagePaths(p, n)[i]).Page?
  {
    hide PathOf, PagePath, Recursive, Separated, Preserves, KeepsTables;
    PreservedTables(s0.mem, s1.mem, root, s0.free);
  }

  lemma AreaTakes(s0: State, s1: State, root: Frame, p: nat, n: nat, taken: set<Frame>, added: seq<Frame>,
                  range: seq<seq<Index>>, backing: seq<Frame>)
    requires Progress(s0, s1, root, p, n, n, taken, added, range, backing)
    ensures TakesLowest(s0.free, s1.free) && |s0.free| == |s1.free| + Before(s0.mem, root, PagePaths(p, n), n)
    ensures Before(s0.mem, root, PagePaths(p, n), n) <= n + TablesFor(p, n)
  {
    hide PathOf, PagePath, Recursive, Separated, Area, Tracked, TakesLowest;
  }

  // Mapping pages that are all mapped takes the n lowest frames in vain.
  lemma InVain(s0: State, s: State, root: Frame, p: nat, n: nat, taken: set<Frame>, added: seq<Frame>)
    requires n > 0 && Progress(s0, s, root, p, n, n, taken, added, [], [])
    requires forall i :: 0 <= i < n ==> Walk(s0.mem, root, PagePaths(p, n)[i]).Page?
    ensures s.mem == s0.mem && Recursive(s.mem, root, s.free) && Separated(s.mem, root, s.free)
    ensures TakesLowest(s0.free, s.free) && |s0.free| == |s.free| + n
  {
    hide PagePath, PathOf, Recursive, Separated, TakesLowest, Tracked, Before;
    HandedWithoutTables(s0, root, PagePaths(p, n), 0);
  }

  // Tables were linked only where the pages p, ..., p + n - 1 lacked them.
  ghost predicate OpensFor(s0: State, s: State, root: Frame, p: nat, n: nat)
  {
    p + n <= PAGE_LIMIT && OpensOnly(s0, s, root, NewSlots(s0.mem, root, PagePaths(p, n), n))
  }

  lemma OpensForOne(s0: State, s: State, root: Frame, b: nat)
    requires b % PAGE_SIZE == 0 && b + PAGE_SIZE <= PAGE_LIMIT * PAGE_SIZE
    requires OpensOnly(s0, s, root, SlotsOf(s0.mem, root, PathOf(b)))
    ensures OpensFor(s0, s, root, b / PAGE_SIZE, 1)
  {
    hide PathOf, PagePath, OpensOnly, SlotsOf;
    var r := PagePaths(b / PAGE_SIZE, 1);
    PathOfPage(b, 0, b / PAGE_SIZE, 1, 0);
    assert NewSlots(s0.mem, root, r, 1) == NewSlots(s0.mem, root, r, 0) + SlotsOf(s0.mem, root, r[0]);
    assert NewSlots(s0.mem, root, r, 1) == SlotsOf(s0.mem, root, PathOf(b));
  }

  // ---------------------------------------------------------------------------------------------
  // What becomes of a frame that an older mapping still shows

  // Told before the pages of r are mapped: afterwards f is neither free nor a page table.
  ghost predicate StaysInUse(s: State, root: Frame, r: seq<seq<Index>>, f: Frame)
    requires IsRange(r)
  {
    !IsTable(s.mem, root, f) && (f in s.free ==> HandedToPage(s, root, r, |r|, f))
  }

  ghost predicate BecomesTable(s: State, root: Frame, r: seq<seq<Index>>, f: Frame)
    requires IsRange(r)
  {
    f in s.free && !HandedToPage(s, root, r, |r|, f) && Rank(s.free, f) < Before(s.mem, root, r, |r|)
  }

  // Told before the pages of r are mapped: one of them will need a slot `cut` of f.
  ghost predicate WillPass(s: State, root: Frame, r: seq<seq<Index>>, f: Frame, cut: set<Index>)
    requires IsRange(r)
  {
    || BecomesTable(s, root, r, f)
    || (f !in s.free && PassedBy(s.mem, root, r, f, cut))
  }

  ghost predicate PassedBy(m: Memory, root: Frame, r: seq<seq<Index>>, f: Frame, cut: set<Index>)
    requires IsRange(r)
  {
    exists i :: 0 <= i < |r| && Passes(m, root, r[i], f, cut)
  }

  lemma FateOfFrame(s0: State, s1: State, root: Frame, p: nat, n: nat, taken: set<Frame>, added: seq<Frame>,
                    range: seq<seq<Index>>, backing: seq<Frame>, f: Frame)
    requires Progress(s0, s1, root, p, n, n, taken, added, range, backing) && f in s0.mem
    ensures var r := PagePaths(p, n);
            && (StaysInUse(s0, root, r, f) <==> f !in s1.free && !IsTable(s1.mem, root, f))
            && (f in s0.free ==> (BecomesTable(s0, root, r, f) <==> IsTable(s1.mem, root, f)))
  {
    hide PathOf, PagePath, InOrder, Area, Counted, Ordered, Linearly, HandedToPage, Before;
    AreaKeepsTables(s0, s1, root, p, n, taken, added, range, backing);
    KeptTranslations(s0.mem, s1.mem, root, s0.free);
    NoTableIsFree(s0, root, f);
    NoTableIsFree(s1, root, f);
    if f in s0.free {
      Fate(s0, s1, root, PagePaths(p, n), n, taken, f);
    }
  }

  lemma NoTableIsFree(s: State, root: Frame, f: Frame)
    requires Recursive(s.mem, root, s.free)
    ensures IsTable(s.mem, root, f) ==> f !in s.free
  {
  }

  // The first page is mapped already, so a new table serves a whole group of pages, the first of which needs
  // its slot zero.
  lemma WillPassIff(s0: State, s1: State, root: Frame, p: nat, n: nat, taken: set<Frame>, added: seq<Frame>,
                    range: seq<seq<Index>>, backing: seq<Frame>, f: Frame, cut: set<Index>)
    requires Progress(s0, s1, root, p, n, n, taken, added, range, backing) && f in s0.mem && n > 0
    requires Walk(s0.mem, root, PagePaths(p, n)[0]).Page? && 0 in cut
    ensures WillPass(s0, root, PagePaths(p, n), f, cut) <==> PassedBy(s1.mem, root, PagePaths(p, n), f, cut)
  {
    hide PathOf, PagePath, Area, Counted, Ordered, Linearly, HandedToPage, Before, Rank, Recursive;
    var r := PagePaths(p, n);
    FateOfFrame(s0, s1, root, p, n, taken, added, range, backing, f);
    if f !in s0.free {
      forall i | 0 <= i < n
        ensures Passes(s1.mem, root, r[i], f, cut) <==> Passes(s0.mem, root, r[i], f, cut)
      {
        PassesAsBefore(s0, s1, root, NewSlots(s0.mem, root, r, n), r[i], f, cut);
      }
    } else if IsTable(s1.mem, root, f) {
      NewTableIsPassed(s0, s1, root, p, n, taken, f, cut);
    } else if PassedBy(s1.mem, root, r, f, cut) {
      var i :| 0 <= i < n && Passes(s1.mem, root, r[i], f, cut);
      PresentOnTheWay(s1.mem, root, s1.free, r[i], f, cut);
    }
  }

  lemma PassesAsBefore(s0: State, s1: State, root: Frame, filled: set<Slot>, path: seq<Index>,
                       f: Frame, cut: set<Index>)
    requires Recursive(s0.mem, root, s0.free) && Tracked(s0, s1, root, filled) && f !in s0.free
    requires |path| == 4 && path[0] != RECURSIVE
    ensures Passes(s1.mem, root, path, f, cut) <==> Passes(s0.mem, root, path, f, cut)
  {
    hide Recursive, Preserves, Stop;
    if Passes(s1.mem, root, path, f, cut) {
      var k := PassesAt(s1.mem, root, path, f, cut);
      assert k > 0 ==> Plain(path[..k]);
      if k > 0 {
        OldTable(s0, s1, root, path[..k]);
      }
      PassesIf(s0.mem, root, path, k, f, cut);
    }
    if Passes(s0.mem, root, path, f, cut) {
      var k := PassesAt(s0.mem, root, path, f, cut);
      if k > 0 {
        assert Plain(path[..k]);
        OldTable(s0, s1, root, path[..k]);
      }
      PassesIf(s1.mem, root, path, k, f, cut);
    }
  }

  lemma NewTableIsPassed(s0: State, s1: State, root: Frame, p: nat, n: nat, taken: set<Frame>,
                         f: Frame, cut: set<Index>)
    requires p + n <= PAGE_LIMIT && n > 0 && InOrder(s0, s1, root, PagePaths(p, n), n, taken)
    requires Recursive(s0.mem, root, s0.free) && Recursive(s1.mem, root, s1.free)
    requires Walk(s0.mem, root, PagePaths(p, n)[0]).Page? && 0 in cut && f in s0.free && IsTable(s1.mem, root, f)
    ensures PassedBy(s1.mem, root, PagePaths(p, n), f, cut)
  {
    hide PathOf, PagePath, InOrder, Recursive;
    var r := PagePaths(p, n);
    var i, k := NewTableServes(s0, s1, root, r, n, taken, f);
    TranslatedPath(s0.mem, root, s0.free, r[0]);
    var j := GroupStart(p, n, i, k);
    PassesIf(s1.mem, root, r[j], k, f, cut);
  }
}
