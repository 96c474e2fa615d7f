/** Ranges of virtual pages: which tables they share, and what mapping them one after another does. */
module PageRange {
  import opened PageTables
  import opened DataPages
  import opened Wrappers

  // ---------------------------------------------------------------------------------------------
  // A range without aliases

  ghost predicate SameTableSamePath(m: Memory, root: Frame, x: seq<Index>, y: seq<Index>)
  {
    Follow(m, root, x).Some? && Follow(m, root, x) == Follow(m, root, y) ==> x == y
  }

  ghost predicate PrefixesApart(m: Memory, root: Frame, x: seq<Index>, y: seq<Index>)
    requires |x| == |y|
  {
    x == [] || (SameTableSamePath(m, root, x, y) && PrefixesApart(m, root, x[..|x| - 1], y[..|y| - 1]))
  }

  // Pages outside the recursive window, each at most once.
  ghost predicate IsRange(r: seq<seq<Index>>)
  {
    && (forall i :: 0 <= i < |r| ==> |r[i]| == 4 && r[i][0] != RECURSIVE)
    && (forall i, j :: 0 <= i < j < |r| ==> r[i] != r[j])
  }

  // Within the range different prefixes lead to different tables.
  ghost predicate Injective(m: Memory, root: Frame, r: seq<seq<Index>>)
    requires IsRange(r)
  {
    forall i, j :: 0 <= i < |r| && 0 <= j < |r| ==> PrefixesApart(m, root, r[i][..3], r[j][..3])
  }

  // A table path after map_page is an old one, or it was opened behind the slots of `path`.
  ghost predicate KeptOrOpened(s0: State, s: State, root: Frame, path: seq<Index>, x: seq<Index>)
    requires |path| >= 3 && 1 <= |x| <= 3
  {
    && Follow(s.mem, root, x).Some?
    && if Follow(s0.mem, root, x).Some?
       then Follow(s.mem, root, x) == Follow(s0.mem, root, x) && Follow(s.mem, root, x).value !in s0.free
       else OpenedBy(s0, s, root, path, x)
  }

  lemma EveryTableKeptOrOpened(s0: State, s: State, root: Frame, path: seq<Index>, e: Entry, x: seq<Index>)
    requires |path| == 4 && path[0] != RECURSIVE && Separated(s0.mem, root, s0.free) && Mapped(s0, s, root, path, e)
    requires 1 <= |x| <= 3 && x[0] != RECURSIVE && Follow(s.mem, root, x).Some?
    ensures KeptOrOpened(s0, s, root, path, x)
  {
    SeparatedIsRecursive(s0.mem, root, s0.free);
    if Follow(s0.mem, root, x).Some? {
      WindowsKept(s0.mem, s.mem, root, s0.free, x);
    }
  }

  // map_page keeps distinct paths apart: a table it adds hangs behind one slot only.
  lemma {:induction false} PathsStayApart(s0: State, s: State, root: Frame, path: seq<Index>, e: Entry,
                                          x: seq<Index>, y: seq<Index>)
    requires |path| == 4 && path[0] != RECURSIVE && Separated(s0.mem, root, s0.free) && Mapped(s0, s, root, path, e)
    requires |x| == |y| <= 3 && (x != [] ==> x[0] != RECURSIVE && y[0] != RECURSIVE)
    requires PrefixesApart(s0.mem, root, x, y)
    ensures PrefixesApart(s.mem, root, x, y)
    decreases |x|
  {
    if x != [] {
      var k := |x|;
      PathsStayApart(s0, s, root, path, e, x[..k - 1], y[..k - 1]);
      if Follow(s.mem, root, x).Some? && Follow(s.mem, root, x) == Follow(s.mem, root, y) {
        EveryTableKeptOrOpened(s0, s, root, path, e, x);
        EveryTableKeptOrOpened(s0, s, root, path, e, y);
        SameTableAfterwards(s0, s, root, path, x, y);
      }
    }
  }

  lemma SameTableAfterwards(s0: State, s: State, root: Frame, path: seq<Index>, x: seq<Index>, y: seq<Index>)
    requires |path| == 4 && 1 <= |x| == |y| <= 3 && Follow(s.mem, root, x) == Follow(s.mem, root, y)
    requires KeptOrOpened(s0, s, root, path, x) && KeptOrOpened(s0, s, root, path, y)
    requires SameTableSamePath(s0.mem, root, x, y)
    requires |x| > 1 ==> SameTableSamePath(s.mem, root, x[..|x| - 1], y[..|y| - 1])
    ensures x == y
  {
    var k := |x|;
    if Follow(s0.mem, root, x).None? {
      assert x == x[..k - 1] + [path[k - 1]] && y == y[..k - 1] + [path[k - 1]];
    }
  }

  lemma InjectiveKept(s0: State, s: State, root: Frame, r: seq<seq<Index>>, path: seq<Index>, e: Entry)
    requires |path| == 4 && path[0] != RECURSIVE && Separated(s0.mem, root, s0.free) && Mapped(s0, s, root, path, e)
    requires IsRange(r) && Injective(s0.mem, root, r)
    ensures Injective(s.mem, root, r)
  {
    forall i, j | 0 <= i < |r| && 0 <= j < |r|
      ensures PrefixesApart(s.mem, root, r[i][..3], r[j][..3])
    {
      PathsStayApart(s0, s, root, path, e, r[i][..3], r[j][..3]);
    }
  }

  // ---------------------------------------------------------------------------------------------
  // A range that is mapped from its start and nowhere else

  // The page at `path` is backed by f, which is in use and not a page table.
  ghost predicate OwnFrame(s: State, root: Frame, path: seq<Index>, f: Frame)
    requires |path| == 4
  {
    Walk(s.mem, root, path) == Page(f, true) && f in s.mem && f !in s.free && !IsTable(s.mem, root, f)
  }

  // The first pages of the range are backed by the given frames, each by one of its own.
  ghost predicate OwnFrames(s: State, root: Frame, r: seq<seq<Index>>, frames: seq<Frame>)
    requires IsRange(r) && |frames| <= |r|
  {
    && (forall i :: 0 <= i < |frames| ==> OwnFrame(s, root, r[i], frames[i]))
    && (forall i, j :: 0 <= i < j < |frames| ==> frames[i] != frames[j])
  }

  ghost predicate Unmapped(m: Memory, root: Frame, r: seq<seq<Index>>, from: nat)
    requires IsRange(r)
  {
    forall i :: from <= i < |r| ==> Walk(m, root, r[i]) == Fault
  }

  // The range is mapped to `frames` as far as those go and unmapped from there on.
  ghost predicate Linear(s: State, root: Frame, r: seq<seq<Index>>, frames: seq<Frame>)
    requires IsRange(r) && |frames| <= |r|
  {
    Injective(s.mem, root, r) && OwnFrames(s, root, r, frames) && Unmapped(s.mem, root, r, |frames|)
  }

  // Mapping a page to the frame n, which was free.
  ghost predicate FreshlyMapped(s0: State, s: State, root: Frame, path: seq<Index>, n: Frame)
    requires |path| == 4
  {
    n in s0.free && Mapped(State(s0.mem, s0.free - {n}), s, root, path, Link(n))
  }

  lemma FreshPage(s0: State, s: State, root: Frame, path: seq<Index>, n: Frame)
    requires |path| == 4 && path[0] != RECURSIVE && Separated(s0.mem, root, s0.free)
        && FreshlyMapped(s0, s, root, path, n)
    ensures Separated(s.mem, root, s.free) && KeepsTranslations(s0.mem, s.mem, root)
    ensures Walk(s.mem, root, path).Page?
    ensures s.free <= s0.free - {n} && !IsTable(s.mem, root, n) && n in s.mem
    ensures Walk(s0.mem, root, path) == Fault ==> OwnFrame(s, root, path, n)
    ensures Walk(s0.mem, root, path).Page? ==> s == State(s0.mem, s0.free - {n})
  {
    FewerFree(s0.mem, root, s0.free, s0.free - {n});
    SeparatedIsRecursive(s0.mem, root, s0.free);
    if IsTable(s.mem, root, n) {
      NewTablesWereFree(State(s0.mem, s0.free - {n}), s, root, path, Link(n), n);
    }
  }

  lemma OwnFrameKept(s0: State, s: State, root: Frame, path: seq<Index>, n: Frame, q: seq<Index>, f: Frame)
    requires |path| == 4 && path[0] != RECURSIVE && Separated(s0.mem, root, s0.free)
        && FreshlyMapped(s0, s, root, path, n)
    requires |q| == 4 && OwnFrame(s0, root, q, f)
    ensures OwnFrame(s, root, q, f) && f != n
  {
    FreshPage(s0, s, root, path, n);
    FewerFree(s0.mem, root, s0.free, s0.free - {n});
    if IsTable(s.mem, root, f) {
      NewTablesWereFree(State(s0.mem, s0.free - {n}), s, root, path, Link(n), f);
    }
  }

  lemma OwnFramesStep(s0: State, s: State, root: Frame, r: seq<seq<Index>>, frames: seq<Frame>, n: Frame)
    requires IsRange(r) && |frames| < |r|
    requires Separated(s0.mem, root, s0.free) && OwnFrames(s0, root, r, frames)
    requires FreshlyMapped(s0, s, root, r[|frames|], n) && Walk(s0.mem, root, r[|frames|]) == Fault
    ensures OwnFrames(s, root, r, frames + [n])
  {
    FreshPage(s0, s, root, r[|frames|], n);
    forall i | 0 <= i < |frames|
      ensures OwnFrame(s, root, r[i], frames[i]) && frames[i] != n
    {
      OwnFrameKept(s0, s, root, r[|frames|], n, r[i], frames[i]);
    }
    OneMoreFrame(s, root, r, frames, n);
  }

  lemma OneMoreFrame(s: State, root: Frame, r: seq<seq<Index>>, frames: seq<Frame>, n: Frame)
    requires IsRange(r) && |frames| < |r| && OwnFrame(s, root, r[|frames|], n)
    requires forall i :: 0 <= i < |frames| ==> OwnFrame(s, root, r[i], frames[i]) && frames[i] != n
    requires forall i, j :: 0 <= i < j < |frames| ==> frames[i] != frames[j]
    ensures OwnFrames(s, root, r, frames + [n])
  {
  }

  // Mapping the next page of the range to a free frame extends the mapped part by exactly that page.
  lemma LinearStep(s0: State, s: State, root: Frame, r: seq<seq<Index>>, frames: seq<Frame>,
                   frames': seq<Frame>, n: Frame)
    requires IsRange(r) && |frames| < |r| && frames' == frames + [n]
    requires Separated(s0.mem, root, s0.free) && Linear(s0, root, r, frames)
    requires FreshlyMapped(s0, s, root, r[|frames|], n)
    ensures Linear(s, root, r, frames')
  {
    var s1 := State(s0.mem, s0.free - {n});
    FewerFree(s0.mem, root, s0.free, s1.free);
    InjectiveKept(s1, s, root, r, r[|frames|], Link(n));
    OwnFramesStep(s0, s, root, r, frames, n);
    UnmappedStep(s1, s, root, r, |frames|, Link(n));
  }

  lemma UnmappedStep(s0: State, s: State, root: Frame, r: seq<seq<Index>>, k: nat, e: Entry)
    requires IsRange(r) && k < |r| && Injective(s.mem, root, r)
    requires Separated(s0.mem, root, s0.free) && Mapped(s0, s, root, r[k], e)
    requires Unmapped(s0.mem, root, r, k)
    ensures Unmapped(s.mem, root, r, k + 1)
  {
    forall i | k + 1 <= i < |r|
      ensures Walk(s.mem, root, r[i]) == Fault
    {
      assert PrefixesApart(s.mem, root, r[i][..3], r[k][..3]);
      OtherLeafStaysAbsent(s0.mem, s.mem, root, r[k], r[i]);
    }
  }

  lemma OtherLeafStaysAbsent(m0: Memory, m: Memory, root: Frame, path: seq<Index>, q: seq<Index>)
    requires |path| == 4 && MapsOnlySlotOf(m0, m, root, path) && Follow(m, root, path[..3]).Some?
    requires |q| == 4 && q[0] != RECURSIVE && q != path && Walk(m0, root, q) == Fault
    requires SameTableSamePath(m, root, q[..3], path[..3])
    ensures Walk(m, root, q) == Fault
  {
    assert q == q[..3] + [q[3]] && path == path[..3] + [path[3]];
  }

  lemma {:induction false} ApartKept(m: Memory, m': Memory, root: Frame, x: seq<Index>, y: seq<Index>)
    requires SameTranslations(m, m', root) && |x| == |y| <= 3 && PrefixesApart(m, root, x, y)
    ensures PrefixesApart(m', root, x, y)
    decreases |x|
  {
    if x != [] {
      ApartKept(m, m', root, x[..|x| - 1], y[..|y| - 1]);
    }
  }

  // A store to a data frame leaves a linear range linear.
  lemma LinearKept(s: State, m': Memory, root: Frame, r: seq<seq<Index>>, frames: seq<Frame>)
    requires IsRange(r) && |frames| <= |r| && Linear(s, root, r, frames) && SameTranslations(s.mem, m', root)
    ensures Linear(State(m', s.free), root, r, frames)
  {
    forall i, j | 0 <= i < |r| && 0 <= j < |r|
      ensures PrefixesApart(m', root, r[i][..3], r[j][..3])
    {
      ApartKept(s.mem, m', root, r[i][..3], r[j][..3]);
    }
    forall i | 0 <= i < |frames|
      ensures OwnFrame(State(m', s.free), root, r[i], frames[i])
    {
      SameTables(s.mem, m', root, frames[i]);
    }
  }

  // ---------------------------------------------------------------------------------------------
  // Mapping a range page by page (vmm_allocate_area)

  // Frames in use that are not tables keep their words and their role.
  ghost predicate DataKept(s0: State, s: State, root: Frame)
  {
    && s.mem.Keys == s0.mem.Keys && s.free <= s0.free
    && forall f :: f in s0.mem && f !in s0.free && !IsTable(s0.mem, root, f) ==>
        s.mem[f] == s0.mem[f] && !IsTable(s.mem, root, f)
  }

  // The first j pages of r translate, j frames were taken for them, and every other frame that was
  // taken is a page table.
  ghost predicate Area(s0: State, s: State, root: Frame, r: seq<seq<Index>>, j: nat, taken: set<Frame>)
    requires IsRange(r) && j <= |r|
  {
    && Separated(s.mem, root, s.free)
    && KeepsTranslations(s0.mem, s.mem, root)
    && DataKept(s0, s, root)
    && (forall i :: 0 <= i < j ==> Walk(s.mem, root, r[i]).Page?)
    && taken <= s0.free - s.free && |taken| == j
    && (forall f :: f in taken ==> !IsTable(s.mem, root, f))
    && (forall f :: f in s0.free && f !in s.free && f !in taken ==> IsTable(s.mem, root, f))
  }

  lemma FreshDataKept(s0: State, s: State, root: Frame, path: seq<Index>, n: Frame)
    requires |path| == 4 && path[0] != RECURSIVE && Separated(s0.mem, root, s0.free)
        && FreshlyMapped(s0, s, root, path, n)
    ensures DataKept(s0, s, root)
    ensures forall f :: f in s0.free && f !in s.free && f != n ==> IsTable(s.mem, root, f)
    ensures forall f :: f !in s0.free && !IsTable(s0.mem, root, f) ==> !IsTable(s.mem, root, f)
  {
    FewerFree(s0.mem, root, s0.free, s0.free - {n});
    forall f | f !in s0.free && !IsTable(s0.mem, root, f)
      ensures !IsTable(s.mem, root, f)
    {
      if IsTable(s.mem, root, f) {
        NewTablesWereFree(State(s0.mem, s0.free - {n}), s, root, path, Link(n), f);
      }
    }
  }

  lemma AreaStep(s0: State, s1: State, s: State, root: Frame, r: seq<seq<Index>>, j: nat, taken: set<Frame>, n: Frame)
    requires IsRange(r) && j < |r| && Area(s0, s1, root, r, j, taken)
    requires FreshlyMapped(s1, s, root, r[j], n)
    ensures Area(s0, s, root, r, j + 1, taken + {n})
  {
    FreshPage(s1, s, root, r[j], n);
    FreshDataKept(s1, s, root, r[j], n);
    AreaData(s0, s1, s, root);
    AreaFrames(s0, s1, s, root, taken, n);
    AreaPages(s0.mem, s1.mem, s.mem, root, r, j);
  }

  lemma AreaPages(m0: Memory, m1: Memory, m: Memory, root: Frame, r: seq<seq<Index>>, j: nat)
    requires IsRange(r) && j < |r|
    requires KeepsTranslations(m0, m1, root) && KeepsTranslations(m1, m, root)
    requires (forall i :: 0 <= i < j ==> Walk(m1, root, r[i]).Page?) && Walk(m, root, r[j]).Page?
    ensures KeepsTranslations(m0, m, root)
    ensures forall i :: 0 <= i < j + 1 ==> Walk(m, root, r[i]).Page?
  {
    forall i | 0 <= i < j
      ensures Walk(m, root, r[i]).Page?
    {
      assert Walk(m, root, r[i]) == Walk(m1, root, r[i]);
    }
  }

  lemma AreaData(s0: State, s1: State, s: State, root: Frame)
    requires DataKept(s0, s1, root) && DataKept(s1, s, root)
    ensures DataKept(s0, s, root)
  {
  }

  lemma AreaFrames(s0: State, s1: State, s: State, root: Frame, taken: set<Frame>, n: Frame)
    requires Separated(s1.mem, root, s1.free) && Separated(s.mem, root, s.free)
    requires KeepsTranslations(s1.mem, s.mem, root)
    requires taken <= s0.free - s1.free && s1.free <= s0.free && s.free <= s1.free - {n} && n in s1.free
    requires forall f :: f in taken ==> !IsTable(s1.mem, root, f)
    requires forall f :: f in s0.free && f !in s1.free && f !in taken ==> IsTable(s1.mem, root, f)
    requires forall f :: f in s1.free && f !in s.free && f != n ==> IsTable(s.mem, root, f)
    requires forall f :: f !in s1.free && !IsTable(s1.mem, root, f) ==> !IsTable(s.mem, root, f)
    requires !IsTable(s.mem, root, n)
    ensures taken + {n} <= s0.free - s.free && |taken + {n}| == |taken| + 1
    ensures forall f :: f in taken + {n} ==> !IsTable(s.mem, root, f)
    ensures forall f :: f in s0.free && f !in s.free && f !in taken + {n} ==> IsTable(s.mem, root, f)
  {
    SeparatedIsRecursive(s1.mem, root, s1.free);
    SeparatedIsRecursive(s.mem, root, s.free);
    forall f | f in s0.free && f !in s.free && f !in taken + {n}
      ensures IsTable(s.mem, root, f)
    {
      if f !in s1.free {
        var p: seq<Index> :| |p| <= 3 && Follow(s1.mem, root, p) == Some(f);
        TablesKept(s1.mem, s.mem, root, s1.free, s.free, p);
      }
    }
  }

  // How many tables the j-th page can need beyond those of the page before it.
  function NewPrefixes(r: seq<seq<Index>>, j: nat): nat
    requires j < |r| && forall i :: 0 <= i < |r| ==> |r[i]| == 4
  {
    if j == 0 || r[j][..1] != r[j - 1][..1] then 3
    else if r[j][..2] != r[j - 1][..2] then 2
    else if r[j][..3] != r[j - 1][..3] then 1
    else 0
  }

  lemma FewMissing(s: State, root: Frame, r: seq<seq<Index>>, j: nat)
    requires IsRange(r) && j < |r| && Recursive(s.mem, root, s.free)
    requires j > 0 ==> Walk(s.mem, root, r[j - 1]).Page?
    ensures Missing(s.mem, root, r[j]) <= NewPrefixes(r, j)
  {
    if j > 0 {
      TranslatedPath(s.mem, root, s.free, r[j - 1]);
    }
  }
}
