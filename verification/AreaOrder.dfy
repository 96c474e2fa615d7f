/** In which order vmm_allocate_area hands out frames: which go to pages, which become tables, which stay free. */
module AreaOrder {
  import opened PageTables
  import opened DataPages
  import opened PageRange
  import opened Wrappers

  // A slot that no link has been stored in yet, and the way on from it: the table, and the indices that are left.
  type Slot = (Frame, seq<Index>)

  // Where following p from table t gets stuck; nothing is left of p if it does not.
  function Stop(m: Memory, t: Frame, p: seq<Index>): (r: Slot)
    ensures |r.1| <= |p|
    decreases |p|
  {
    if p != [] && t in m && IsLink(m[t][p[0]]) then Stop(m, m[t][p[0]].frame, p[1..]) else (t, p)
  }

  lemma {:induction false} StopIs(m: Memory, t: Frame, p: seq<Index>)
    ensures var r := Stop(m, t, p);
            && p == p[..|p| - |r.1|] + r.1 && Follow(m, t, p[..|p| - |r.1|]) == Some(r.0)
            && Follow(m, t, p) == if r.1 == [] then Some(r.0) else None
    decreases |p|
  {
    if p != [] && t in m && IsLink(m[t][p[0]]) {
      var r := Stop(m, t, p);
      StopIs(m, m[t][p[0]].frame, p[1..]);
      assert p[..|p| - |r.1|][1..] == p[1..][..|p| - 1 - |r.1|];
    }
  }

  // Once stuck, a longer path is stuck at the same slot.
  lemma {:induction false} StopMore(m: Memory, t: Frame, p: seq<Index>, x: Index)
    requires Stop(m, t, p).1 != []
    ensures Stop(m, t, p + [x]) == (Stop(m, t, p).0, Stop(m, t, p).1 + [x])
    decreases |p|
  {
    if p != [] && t in m && IsLink(m[t][p[0]]) {
      assert (p + [x])[1..] == p[1..] + [x];
      StopMore(m, m[t][p[0]].frame, p[1..], x);
    }
  }

  lemma {:induction false} StopHere(m: Memory, t: Frame, p: seq<Index>, x: Index)
    requires Follow(m, t, p).Some? && Follow(m, t, p + [x]).None?
    ensures Stop(m, t, p + [x]) == (Follow(m, t, p).value, [x])
    decreases |p|
  {
    if p == [] {
      assert p + [x] == [x];
    } else {
      assert (p + [x])[1..] == p[1..] + [x];
      StopHere(m, m[t][p[0]].frame, p[1..], x);
    }
  }

  // A path to a table, not through the recursive slot.
  predicate Plain(q: seq<Index>) {
    1 <= |q| <= 3 && q[0] != RECURSIVE
  }

  // The slots that a page still needs links in.
  ghost function SlotsOf(m: Memory, root: Frame, path: seq<Index>): set<Slot>
    requires |path| == 4
  {
    set k | 1 <= k <= 3 && Follow(m, root, path[..k]).None? :: Stop(m, root, path[..k])
  }

  // The slots that the first j pages of a range need: one table will be created for each.
  ghost function NewSlots(m: Memory, root: Frame, r: seq<seq<Index>>, j: nat): set<Slot>
    requires IsRange(r) && j <= |r|
  {
    if j == 0 then {} else NewSlots(m, root, r, j - 1) + SlotsOf(m, root, r[j - 1])
  }

  // From s0 to s exactly the paths through the slots `filled` became followable, each slot on a table of its own.
  ghost predicate Tracked(s0: State, s: State, root: Frame, filled: set<Slot>)
  {
    && Preserves(s0.mem, s.mem, s0.free) && s.free <= s0.free
    && (forall q: seq<Index> :: Plain(q) ==>
          (Follow(s.mem, root, q).Some? <==> Follow(s0.mem, root, q).Some? || Stop(s0.mem, root, q) in filled))
    && (forall q: seq<Index> :: Plain(q) && Follow(s0.mem, root, q).None? && Follow(s.mem, root, q).Some? ==>
          Follow(s.mem, root, q).value in s0.free)
    && (forall q: seq<Index>, q': seq<Index> :: Plain(q) && Plain(q') && SameNewTable(s0, s, root, q, q') ==>
          Stop(s0.mem, root, q) == Stop(s0.mem, root, q'))
  }

  ghost predicate SameNewTable(s0: State, s: State, root: Frame, q: seq<Index>, q': seq<Index>)
  {
    && Follow(s0.mem, root, q).None? && Follow(s0.mem, root, q').None?
    && Follow(s.mem, root, q).Some? && Follow(s.mem, root, q) == Follow(s.mem, root, q')
  }

  lemma TrackedStart(s: State, root: Frame)
    ensures Tracked(s, s, root, {})
  {
  }

  // Two paths that are stuck at the same slot lead to the same table once that slot is filled.
  lemma SameStopSameTable(m: Memory, m': Memory, root: Frame, free: set<Frame>, q: seq<Index>, q': seq<Index>)
    requires Recursive(m, root, free) && Preserves(m, m', free) && |q| <= 3 && |q'| <= 3
    requires Stop(m, root, q) == Stop(m, root, q')
    ensures Follow(m', root, q) == Follow(m', root, q')
  {
    hide Recursive, Preserves, Stop;
    FollowFromStop(m, m', root, free, q);
    FollowFromStop(m, m', root, free, q');
  }

  lemma FollowFromStop(m: Memory, m': Memory, root: Frame, free: set<Frame>, q: seq<Index>)
    requires Recursive(m, root, free) && Preserves(m, m', free) && |q| <= 3
    ensures Follow(m', root, q) == Follow(m', Stop(m, root, q).0, Stop(m, root, q).1)
  {
    hide Recursive, Preserves, Stop;
    var r := Stop(m, root, q);
    StopIs(m, root, q);
    var u := q[..|q| - |r.1|];
    assert Follow(m, root, []) == Some(root);
    PreservedFollow(m, m', root, free, [], u);
    FollowConcat(m', root, u, r.1);
  }

  // ---------------------------------------------------------------------------------------------
  // One page more

  // What the paths of s1 are in s, after one more page was mapped with the frame n.
  lemma KeptOrNew(s1: State, s: State, root: Frame, x: seq<Index>, n: Frame, q: seq<Index>)
    requires |x| == 4 && x[0] != RECURSIVE && Separated(s1.mem, root, s1.free) && FreshlyMapped(s1, s, root, x, n)
    requires Plain(q) && Follow(s.mem, root, q).Some?
    ensures if Follow(s1.mem, root, q).Some?
            then Follow(s.mem, root, q) == Follow(s1.mem, root, q) && Follow(s.mem, root, q).value !in s1.free
            else OpenedBy(s1, s, root, x, q)
  {
    FewerFree(s1.mem, root, s1.free, s1.free - {n});
    SeparatedIsRecursive(s1.mem, root, s1.free);
    EveryTableKeptOrOpened(State(s1.mem, s1.free - {n}), s, root, x, Link(n), q);
    if Follow(s1.mem, root, q).Some? {
      assert Follow(s1.mem, root, q).value !in s1.free;
    }
  }

  lemma KeptFollows(s1: State, s: State, root: Frame, x: seq<Index>, n: Frame, q: seq<Index>)
    requires |x| == 4 && Separated(s1.mem, root, s1.free) && FreshlyMapped(s1, s, root, x, n)
    requires |q| <= 3 && Follow(s1.mem, root, q).Some?
    ensures Follow(s.mem, root, q) == Follow(s1.mem, root, q)
  {
    FewerFree(s1.mem, root, s1.free, s1.free - {n});
    SeparatedIsRecursive(s1.mem, root, s1.free);
    assert Follow(s1.mem, root, []) == Some(root);
    PreservedFollow(s1.mem, s.mem, root, s1.free - {n}, [], q);
  }

  // Followable paths have followable prefixes.
  lemma PrefixFollows(m: Memory, root: Frame, q: seq<Index>, k: nat)
    requires Follow(m, root, q).Some? && k <= |q|
    ensures Follow(m, root, q[..k]).Some?
  {
    assert q == q[..k] + q[k..];
    FollowConcat(m, root, q[..k], q[k..]);
  }

  // A path that the page at x made followable was stuck where x itself was.
  lemma {:induction false} NewPathStops(s0: State, s1: State, s: State, root: Frame, filled: set<Slot>, x: seq<Index>,
                                        n: Frame, q: seq<Index>)
    requires |x| == 4 && x[0] != RECURSIVE && Recursive(s0.mem, root, s0.free) && Separated(s1.mem, root, s1.free)
    requires Tracked(s0, s1, root, filled) && FreshlyMapped(s1, s, root, x, n)
    requires Plain(q) && Follow(s1.mem, root, q).None? && Follow(s.mem, root, q).Some?
    ensures Stop(s0.mem, root, q) == Stop(s0.mem, root, x[..|q|]) && Follow(s0.mem, root, x[..|q|]).None?
    ensures Follow(s.mem, root, q).value in s1.free && Follow(s.mem, root, q) == Follow(s.mem, root, x[..|q|])
    decreases |q|, 0
  {
    hide Mapped, Recursive, Separated, Stop;
    var l := |q|;
    var u, v, c := q[..l - 1], x[..l - 1], q[l - 1];
    KeptOrNew(s1, s, root, x, n, q);
    assert q == u + [c] && x[..l] == v + [c];
    FollowConcat(s.mem, root, u, [c]);
    FollowConcat(s.mem, root, v, [c]);
    OldPathIsOld(s0, s1, root, filled, q);
    if l > 1 {
      ParentStops(s0, s1, s, root, filled, x, n, u);
    }
    OneMoreIndex(s0, root, u, v, c);
  }

  // What was followable in s0 is followable in s1.
  lemma OldPathIsOld(s0: State, s1: State, root: Frame, filled: set<Slot>, q: seq<Index>)
    requires Tracked(s0, s1, root, filled) && Plain(q) && Follow(s1.mem, root, q).None?
    ensures Follow(s0.mem, root, q).None?
  {
  }

  // Two paths that are at the same table, or stuck at the same slot, are stuck at the same slot one index on.
  lemma OneMoreIndex(s0: State, root: Frame, u: seq<Index>, v: seq<Index>, c: Index)
    requires Follow(s0.mem, root, u + [c]).None?
    requires if Follow(s0.mem, root, u).Some? then Follow(s0.mem, root, v) == Follow(s0.mem, root, u)
             else Stop(s0.mem, root, u) == Stop(s0.mem, root, v)
    ensures Stop(s0.mem, root, u + [c]) == Stop(s0.mem, root, v + [c]) && Follow(s0.mem, root, v + [c]).None?
  {
    hide Stop;
    StopIs(s0.mem, root, u);
    StopIs(s0.mem, root, v);
    StopIs(s0.mem, root, v + [c]);
    if Follow(s0.mem, root, u).Some? {
      FollowConcat(s0.mem, root, u, [c]);
      FollowConcat(s0.mem, root, v, [c]);
      StopHere(s0.mem, root, u, c);
      StopHere(s0.mem, root, v, c);
    } else {
      StopMore(s0.mem, root, u, c);
      StopMore(s0.mem, root, v, c);
    }
  }

  // The same for the parent of such a path, which may be older.
  lemma {:induction false} ParentStops(s0: State, s1: State, s: State, root: Frame, filled: set<Slot>, x: seq<Index>,
                                       n: Frame, u: seq<Index>)
    requires |x| == 4 && x[0] != RECURSIVE && Recursive(s0.mem, root, s0.free) && Separated(s1.mem, root, s1.free)
    requires Tracked(s0, s1, root, filled) && FreshlyMapped(s1, s, root, x, n)
    requires Plain(u) && |u| <= 2 && Follow(s.mem, root, u).Some?
    requires Follow(s.mem, root, u) == Follow(s.mem, root, x[..|u|])
    ensures var v := x[..|u|];
            if Follow(s0.mem, root, u).Some? then Follow(s0.mem, root, v) == Follow(s0.mem, root, u)
            else Stop(s0.mem, root, u) == Stop(s0.mem, root, v)
    decreases |u|, 1
  {
    hide Mapped, Recursive, Separated, Stop;
    var v := x[..|u|];
    KeptOrNew(s1, s, root, x, n, u);
    KeptOrNew(s1, s, root, x, n, v);
    if Follow(s1.mem, root, u).None? {
      NewPathStops(s0, s1, s, root, filled, x, n, u);
      OldPathIsOld(s0, s1, root, filled, u);
    } else {
      BothOld(s0, s1, root, filled, u, v);
    }
  }

  lemma BothOld(s0: State, s1: State, root: Frame, filled: set<Slot>, u: seq<Index>, v: seq<Index>)
    requires Recursive(s0.mem, root, s0.free) && Tracked(s0, s1, root, filled) && Plain(u) && Plain(v)
    requires Follow(s1.mem, root, u).Some? && Follow(s1.mem, root, u) == Follow(s1.mem, root, v)
    ensures if Follow(s0.mem, root, u).Some? then Follow(s0.mem, root, v) == Follow(s0.mem, root, u)
            else Stop(s0.mem, root, u) == Stop(s0.mem, root, v)
  {
    hide Recursive, Preserves, Stop;
    OldTable(s0, s1, root, u);
    OldTable(s0, s1, root, v);
  }

  lemma OldTable(s0: State, s1: State, root: Frame, u: seq<Index>)
    requires Recursive(s0.mem, root, s0.free) && Preserves(s0.mem, s1.mem, s0.free) && Plain(u)
    ensures Follow(s0.mem, root, u).Some? ==>
              Follow(s1.mem, root, u) == Follow(s0.mem, root, u) && Follow(s0.mem, root, u).value !in s0.free
  {
    assert Follow(s0.mem, root, []) == Some(root);
    if Follow(s0.mem, root, u).Some? {
      PreservedFollow(s0.mem, s1.mem, root, s0.free, [], u);
    }
  }

  lemma StatesStep(s0: State, s1: State, s: State, root: Frame, x: seq<Index>, n: Frame)
    requires |x| == 4 && x[0] != RECURSIVE && Separated(s1.mem, root, s1.free) && FreshlyMapped(s1, s, root, x, n)
    requires Preserves(s0.mem, s1.mem, s0.free) && s1.free <= s0.free
    ensures Preserves(s0.mem, s.mem, s0.free) && s.free <= s0.free
  {
  }

  lemma PathStep(s0: State, s1: State, s: State, root: Frame, filled: set<Slot>, x: seq<Index>, n: Frame, q: seq<Index>)
    requires |x| == 4 && x[0] != RECURSIVE && Recursive(s0.mem, root, s0.free) && Separated(s1.mem, root, s1.free)
    requires Tracked(s0, s1, root, filled) && FreshlyMapped(s1, s, root, x, n) && Plain(q)
    requires Preserves(s0.mem, s.mem, s0.free)
    ensures Follow(s.mem, root, q).Some?
            <==> Follow(s0.mem, root, q).Some? || Stop(s0.mem, root, q) in filled + SlotsOf(s0.mem, root, x)
    ensures Follow(s0.mem, root, q).None? && Follow(s.mem, root, q).Some? ==> Follow(s.mem, root, q).value in s0.free
  {
    hide Mapped, Recursive, Separated, Stop;
    if Follow(s1.mem, root, q).Some? {
      KeptFollows(s1, s, root, x, n, q);
    } else if Follow(s.mem, root, q).Some? {
      NewPathStops(s0, s1, s, root, filled, x, n, q);
    } else if Stop(s0.mem, root, q) in SlotsOf(s0.mem, root, x) {
      var k :| 1 <= k <= 3 && Stop(s0.mem, root, x[..k]) == Stop(s0.mem, root, q);
      SameStopSameTable(s0.mem, s.mem, root, s0.free, q, x[..k]);
      FreshPath(s1, s, root, x, n, k);
    }
  }

  lemma FreshPath(s1: State, s: State, root: Frame, x: seq<Index>, n: Frame, k: nat)
    requires |x| == 4 && FreshlyMapped(s1, s, root, x, n) && k <= 3
    ensures Follow(s.mem, root, x[..k]).Some?
  {
    PrefixFollows(s.mem, root, x[..3], k);
    assert x[..3][..k] == x[..k];
  }

  lemma PairStep(s0: State, s1: State, s: State, root: Frame, filled: set<Slot>, x: seq<Index>, n: Frame,
                 q: seq<Index>, q': seq<Index>)
    requires |x| == 4 && x[0] != RECURSIVE && Recursive(s0.mem, root, s0.free) && Separated(s1.mem, root, s1.free)
    requires Tracked(s0, s1, root, filled) && FreshlyMapped(s1, s, root, x, n)
    requires Plain(q) && Plain(q') && SameNewTable(s0, s, root, q, q')
    ensures Stop(s0.mem, root, q) == Stop(s0.mem, root, q')
  {
    hide Mapped, Recursive, Separated, Stop;
    KeptOrNew(s1, s, root, x, n, q);
    KeptOrNew(s1, s, root, x, n, q');
    if Follow(s1.mem, root, q).None? {
      NewPathStops(s0, s1, s, root, filled, x, n, q);
      NewPathStops(s0, s1, s, root, filled, x, n, q');
      FreshPage(s1, s, root, x, n);
      SameLevel(s.mem, root, s.free, q, q');
    }
  }

  // After one more page exactly its slots are filled in addition.
  lemma TrackedStep(s0: State, s1: State, s: State, root: Frame, filled: set<Slot>, x: seq<Index>, n: Frame)
    requires |x| == 4 && x[0] != RECURSIVE && Recursive(s0.mem, root, s0.free) && Separated(s1.mem, root, s1.free)
    requires Tracked(s0, s1, root, filled) && FreshlyMapped(s1, s, root, x, n)
    ensures Tracked(s0, s, root, filled + SlotsOf(s0.mem, root, x))
  {
    hide Mapped, Recursive, Separated, Stop, SlotsOf, SameNewTable;
    StatesStep(s0, s1, s, root, x, n);
    forall q: seq<Index> | Plain(q)
      ensures Follow(s.mem, root, q).Some?
              <==> Follow(s0.mem, root, q).Some? || Stop(s0.mem, root, q) in filled + SlotsOf(s0.mem, root, x)
      ensures Follow(s0.mem, root, q).None? && Follow(s.mem, root, q).Some? ==> Follow(s.mem, root, q).value in s0.free
    {
      PathStep(s0, s1, s, root, filled, x, n, q);
    }
    forall q: seq<Index>, q': seq<Index> | Plain(q) && Plain(q') && SameNewTable(s0, s, root, q, q')
      ensures Stop(s0.mem, root, q) == Stop(s0.mem, root, q')
    {
      PairStep(s0, s1, s, root, filled, x, n, q, q');
    }
  }

  // ---------------------------------------------------------------------------------------------
  // Counting

  // One page adds as many slots as it misses tables.
  lemma SlotsCount(s0: State, s1: State, root: Frame, filled: set<Slot>, x: seq<Index>)
    requires |x| == 4 && x[0] != RECURSIVE && Tracked(s0, s1, root, filled)
    ensures |filled + SlotsOf(s0.mem, root, x)| == |filled| + Missing(s1.mem, root, x)
  {
    hide Stop, SlotsOf, Tracked, Follow;
    SlotsInOrder(s0.mem, root, x);
    SlotsAre(s0.mem, root, x);
    SlotIsFilled(s0, s1, root, filled, x, 1);
    SlotIsFilled(s0, s1, root, filled, x, 2);
    SlotIsFilled(s0, s1, root, filled, x, 3);
    PrefixesInOrder(s1.mem, root, x);
    AddedSlots(filled, SlotAt(s0.mem, root, x, 1), SlotAt(s0.mem, root, x, 2), SlotAt(s0.mem, root, x, 3),
               Follow(s0.mem, root, x[..1]).None?, Follow(s0.mem, root, x[..2]).None?,
               Follow(s0.mem, root, x[..3]).None?, Missing(s1.mem, root, x));
  }

  // Of up to three elements, each present only if `has` says so, the last `more` are new.
  lemma AddedSlots<T>(filled: set<T>, e1: T, e2: T, e3: T, has1: bool, has2: bool, has3: bool, more: nat)
    requires more <= 3 && (more >= 3 ==> has1 && e1 !in filled) && (more >= 2 ==> has2 && e2 !in filled)
    requires (more >= 1 ==> has3 && e3 !in filled) && (has1 ==> has2 && e1 != e2 && e1 != e3)
    requires has2 ==> has3 && e2 != e3
    requires (has1 && more < 3 ==> e1 in filled) && (has2 && more < 2 ==> e2 in filled)
    requires has3 && more < 1 ==> e3 in filled
    ensures |filled + (Single(has1, e1) + Single(has2, e2) + Single(has3, e3))| == |filled| + more
  {
    OneMore(filled, has1, e1);
    OneMore(filled + Single(has1, e1), has2, e2);
    OneMore(filled + Single(has1, e1) + Single(has2, e2), has3, e3);
    Regroup(filled, Single(has1, e1), Single(has2, e2), Single(has3, e3));
  }

  lemma Regroup<T>(a: set<T>, b: set<T>, c: set<T>, d: set<T>)
    ensures a + (b + c + d) == a + b + c + d
  {
  }

  function Single<T>(has: bool, e: T): set<T> {
    if has then {e} else {}
  }

  lemma OneMore<T>(s: set<T>, has: bool, e: T)
    ensures |s + Single(has, e)| == |s| + if has && e !in s then 1 else 0
  {
    if !has || e in s {
      assert s + Single(has, e) == s;
    }
  }

  function SlotAt(m: Memory, root: Frame, x: seq<Index>, k: nat): Slot
    requires k <= |x|
  {
    Stop(m, root, x[..k])
  }

  lemma SlotsAre(m: Memory, root: Frame, x: seq<Index>)
    requires |x| == 4
    ensures SlotsOf(m, root, x) == Single(Follow(m, root, x[..1]).None?, SlotAt(m, root, x, 1))
                                 + Single(Follow(m, root, x[..2]).None?, SlotAt(m, root, x, 2))
                                 + Single(Follow(m, root, x[..3]).None?, SlotAt(m, root, x, 3))
  {
  }

  lemma SlotIsFilled(s0: State, s1: State, root: Frame, filled: set<Slot>, x: seq<Index>, k: nat)
    requires |x| == 4 && x[0] != RECURSIVE && Tracked(s0, s1, root, filled) && 1 <= k <= 3
    ensures Follow(s1.mem, root, x[..k]).None? ==>
              Follow(s0.mem, root, x[..k]).None? && SlotAt(s0.mem, root, x, k) !in filled
    ensures Follow(s1.mem, root, x[..k]).Some? && Follow(s0.mem, root, x[..k]).None? ==>
              SlotAt(s0.mem, root, x, k) in filled
  {
    hide Stop;
    assert Plain(x[..k]);
  }

  // The slots of one page differ in how much is left of the path.
  lemma SlotsInOrder(m: Memory, root: Frame, x: seq<Index>)
    requires |x| == 4
    ensures Follow(m, root, x[..1]).None? ==>
              |SlotAt(m, root, x, 2).1| == |SlotAt(m, root, x, 1).1| + 1 && Follow(m, root, x[..2]).None?
    ensures Follow(m, root, x[..2]).None? ==>
              |SlotAt(m, root, x, 3).1| == |SlotAt(m, root, x, 2).1| + 1 && Follow(m, root, x[..3]).None?
  {
    hide Stop;
    assert x[..2] == x[..1] + [x[1]] && x[..3] == x[..2] + [x[2]];
    StopIs(m, root, x[..1]);
    StopIs(m, root, x[..2]);
    StopIs(m, root, x[..3]);
    if Follow(m, root, x[..1]).None? {
      StopMore(m, root, x[..1], x[1]);
    }
    if Follow(m, root, x[..2]).None? {
      StopMore(m, root, x[..2], x[2]);
    }
  }

  lemma PrefixesInOrder(m: Memory, root: Frame, x: seq<Index>)
    requires |x| == 4
    ensures Follow(m, root, x[..2]).Some? ==> Follow(m, root, x[..1]).Some?
    ensures Follow(m, root, x[..3]).Some? ==> Follow(m, root, x[..2]).Some?
  {
    if Follow(m, root, x[..2]).Some? {
      PrefixFollows(m, root, x[..2], 1);
      assert x[..2][..1] == x[..1];
    }
    if Follow(m, root, x[..3]).Some? {
      PrefixFollows(m, root, x[..3], 2);
      assert x[..3][..2] == x[..2];
    }
  }

  // ---------------------------------------------------------------------------------------------
  // Ranks

  // The number of free frames below f.
  ghost function Rank(free: set<Frame>, f: Frame): nat {
    |set g | g in free && g < f|
  }

  lemma RankOrder(free: set<Frame>, f: Frame, g: Frame)
    requires f in free && f < g
    ensures Rank(free, f) < Rank(free, g)
  {
    var a, b := set h | h in free && h < f, set h | h in free && h < g;
    Fewer(a + {f}, b);
  }

  lemma Fewer(a: set<Frame>, b: set<Frame>)
    requires a <= b
    ensures |a| <= |b|
  {
    assert b == a + (b - a);
  }

  // The frames that were taken, lowest first, are those of the lowest ranks.
  lemma TakenByRank(before: set<Frame>, after: set<Frame>, f: Frame)
    requires TakesLowest(before, after) && f in before
    ensures f in after <==> |before| - |after| <= Rank(before, f)
  {
    var taken, below := before - after, set g | g in before && g < f;
    assert before == taken + after;
    if f in after {
      Fewer(taken, below);
    } else {
      assert below <= taken;
      Fewer(below + {f}, taken);
    }
  }

  // The lowest frame that is left has as many below it as were taken.
  lemma NextRank(before: set<Frame>, after: set<Frame>, n: Frame)
    requires TakesLowest(before, after) && IsLowest(n, after)
    ensures Rank(before, n) == |before| - |after|
  {
    var taken := before - after;
    assert before == taken + after;
    assert taken == set g | g in before && g < n;
  }

  // ---------------------------------------------------------------------------------------------
  // The order of the frames

  // How many frames are handed out before page j gets its own: one for each page before it, and one for
  // each slot that these pages need.
  ghost function Before(m: Memory, root: Frame, r: seq<seq<Index>>, j: nat): nat
    requires IsRange(r) && j <= |r|
  {
    j + |NewSlots(m, root, r, j)|
  }

  // The frame goes to one of the first n pages. This can be told from the free frames and the tables before
  // the first of them is mapped.
  ghost predicate HandedToPage(s: State, root: Frame, r: seq<seq<Index>>, n: nat, f: Frame)
    requires IsRange(r) && n <= |r|
  {
    exists j :: 0 <= j < n && IsTurn(s, root, r, j, f)
  }

  ghost predicate IsTurn(s: State, root: Frame, r: seq<seq<Index>>, j: nat, f: Frame)
    requires IsRange(r) && j <= |r|
  {
    Rank(s.free, f) == Before(s.mem, root, r, j)
  }

  // After j pages: tables for the slots they needed, the lowest frames taken, `taken` those for the pages.
  ghost predicate InOrder(s0: State, s: State, root: Frame, r: seq<seq<Index>>, j: nat, taken: set<Frame>)
    requires IsRange(r) && j <= |r|
  {
    && Tracked(s0, s, root, NewSlots(s0.mem, root, r, j))
    && TakesLowest(s0.free, s.free) && |s0.free| == |s.free| + Before(s0.mem, root, r, j)
    && taken <= s0.free && forall f :: f in s0.free ==> (f in taken <==> HandedToPage(s0, root, r, j, f))
  }

  lemma InOrderStart(s: State, root: Frame, r: seq<seq<Index>>)
    requires IsRange(r)
    ensures InOrder(s, s, root, r, 0, {})
  {
    TrackedStart(s, root);
  }

  lemma InOrderStep(s0: State, s1: State, s: State, root: Frame, r: seq<seq<Index>>, j: nat,
                    taken: set<Frame>, n: Frame)
    requires IsRange(r) && j < |r| && Recursive(s0.mem, root, s0.free) && Separated(s1.mem, root, s1.free)
    requires InOrder(s0, s1, root, r, j, taken) && FreshlyMapped(s1, s, root, r[j], n) && IsLowest(n, s1.free)
    ensures InOrder(s0, s, root, r, j + 1, taken + {n})
  {
    hide Mapped, Recursive, Separated, Tracked, SlotsOf, TakesLowest, Rank, IsLowest;
    TrackedStep(s0, s1, s, root, NewSlots(s0.mem, root, r, j), r[j], n);
    SlotsCount(s0, s1, root, NewSlots(s0.mem, root, r, j), r[j]);
    FramesStep(s0.free, s1, s, root, r[j], n);
    NextRank(s0.free, s1.free, n);
    forall f | f in s0.free
      ensures f in taken + {n} <==> HandedToPage(s0, root, r, j + 1, f)
    {
      OneTurnMore(s0, root, r, j, n, f);
    }
  }

  lemma FramesStep(free0: set<Frame>, s1: State, s: State, root: Frame, x: seq<Index>, n: Frame)
    requires |x| == 4 && FreshlyMapped(s1, s, root, x, n) && IsLowest(n, s1.free) && TakesLowest(free0, s1.free)
    ensures TakesLowest(free0, s.free) && |s1.free| == |s.free| + 1 + Missing(s1.mem, root, x) && n in free0
  {
    LowestCompose(free0, s1.free, s1.free - {n});
    LowestCompose(free0, s1.free - {n}, s.free);
  }

  lemma OneTurnMore(s: State, root: Frame, r: seq<seq<Index>>, j: nat, n: Frame, f: Frame)
    requires IsRange(r) && j < |r| && f in s.free && n in s.free && IsTurn(s, root, r, j, n)
    ensures HandedToPage(s, root, r, j + 1, f) <==> HandedToPage(s, root, r, j, f) || f == n
  {
    if f < n {
      RankOrder(s.free, f, n);
    } else if n < f {
      RankOrder(s.free, n, f);
    }
    if HandedToPage(s, root, r, j, f) {
      var i :| 0 <= i < j && IsTurn(s, root, r, i, f);
      assert 0 <= i < j + 1;
    }
    if f == n {
      assert IsTurn(s, root, r, j, f);
    }
  }

  // Where everything is mapped no table is needed, and n frames are taken in vain.
  lemma NothingNew(m: Memory, root: Frame, free: set<Frame>, r: seq<seq<Index>>, j: nat)
    requires Recursive(m, root, free) && IsRange(r) && j <= |r| && forall i :: 0 <= i < j ==> Walk(m, root, r[i]).Page?
    ensures NewSlots(m, root, r, j) == {}
    decreases j
  {
    hide Recursive;
    if j > 0 {
      TranslatedPath(m, root, free, r[j - 1]);
      NothingNew(m, root, free, r, j - 1);
    }
  }

  lemma HandedWithoutTables(s: State, root: Frame, r: seq<seq<Index>>, f: Frame)
    requires Recursive(s.mem, root, s.free) && IsRange(r) && forall i :: 0 <= i < |r| ==> Walk(s.mem, root, r[i]).Page?
    ensures Before(s.mem, root, r, |r|) == |r| && (HandedToPage(s, root, r, |r|, f) <==> Rank(s.free, f) < |r|)
  {
    hide Recursive, NewSlots, Rank;
    forall j | 0 <= j <= |r|
      ensures Before(s.mem, root, r, j) == j
    {
      NothingNew(s.mem, root, s.free, r, j);
    }
    if Rank(s.free, f) < |r| {
      assert IsTurn(s, root, r, Rank(s.free, f), f);
    }
  }

  // A table that came out of the free frames lies on the way of one of the pages.
  lemma NewTableServes(s0: State, s: State, root: Frame, r: seq<seq<Index>>, n: nat, taken: set<Frame>, f: Frame)
    returns (i: nat, k: nat)
    requires IsRange(r) && n <= |r| && InOrder(s0, s, root, r, n, taken) && Recursive(s0.mem, root, s0.free)
    requires Recursive(s.mem, root, s.free) && f in s0.free && IsTable(s.mem, root, f)
    ensures i < n && 1 <= k <= 3 && Follow(s0.mem, root, r[i][..k]).None? && Follow(s.mem, root, r[i][..k]) == Some(f)
  {
    hide Recursive, Preserves, Stop, NewSlots, TakesLowest, HandedToPage;
    var p: seq<Index> :| |p| <= 3 && Follow(s.mem, root, p) == Some(f);
    RootSlot(s.mem, root, s.free);
    RootIsNotFree(s0.mem, root, s0.free);
    FollowStrip(s.mem, root, p);
    var q := Strip(p);
    assert Plain(q);
    OldTable(s0, s, root, q);
    i, k := SlotOfPage(s0.mem, root, r, n, Stop(s0.mem, root, q));
    SameStopSameTable(s0.mem, s.mem, root, s0.free, q, r[i][..k]);
  }

  lemma RootIsNotFree(m: Memory, root: Frame, free: set<Frame>)
    requires Recursive(m, root, free)
    ensures root !in free
  {
    assert Follow(m, root, []) == Some(root);
  }

  lemma SlotOfPage(m: Memory, root: Frame, r: seq<seq<Index>>, n: nat, slot: Slot) returns (i: nat, k: nat)
    requires IsRange(r) && n <= |r| && slot in NewSlots(m, root, r, n)
    ensures i < n && 1 <= k <= 3 && Follow(m, root, r[i][..k]).None? && Stop(m, root, r[i][..k]) == slot
  {
    hide Stop;
    if slot in SlotsOf(m, root, r[n - 1]) {
      i := n - 1;
      k :| 1 <= k <= 3 && Follow(m, root, r[i][..k]).None? && Stop(m, root, r[i][..k]) == slot;
    } else {
      i, k := SlotOfPage(m, root, r, n - 1, slot);
    }
  }

  // Every table that s has and s0 lacks was a free frame.
  ghost predicate TablesBorn(s0: State, s: State, root: Frame)
  {
    forall q: seq<Index> :: Plain(q) && Follow(s0.mem, root, q).None? && Follow(s.mem, root, q).Some? ==>
      Follow(s.mem, root, q).value in s0.free && Follow(s.mem, root, q).value !in s.free
  }

  lemma BornTwice(s0: State, s1: State, s: State, root: Frame)
    requires TablesBorn(s0, s1, root) && TablesBorn(s1, s, root) && s.free <= s1.free <= s0.free
    requires Recursive(s1.mem, root, s1.free) && Recursive(s.mem, root, s.free)
    requires KeepsTranslations(s1.mem, s.mem, root)
    ensures TablesBorn(s0, s, root)
  {
    hide Recursive, KeepsTranslations;
    forall q: seq<Index> | Plain(q) && Follow(s0.mem, root, q).None? && Follow(s.mem, root, q).Some?
      ensures Follow(s.mem, root, q).value in s0.free && Follow(s.mem, root, q).value !in s.free
    {
      if Follow(s1.mem, root, q).Some? {
        TablesKept(s1.mem, s.mem, root, s1.free, s.free, q);
      }
    }
  }

  lemma BornByMapping(s1: State, s: State, root: Frame, x: seq<Index>, n: Frame)
    requires |x| == 4 && x[0] != RECURSIVE && Separated(s1.mem, root, s1.free) && FreshlyMapped(s1, s, root, x, n)
    ensures TablesBorn(s1, s, root)
  {
    hide Separated, FreshlyMapped;
    forall q: seq<Index> | Plain(q) && Follow(s1.mem, root, q).None? && Follow(s.mem, root, q).Some?
      ensures Follow(s.mem, root, q).value in s1.free && Follow(s.mem, root, q).value !in s.free
    {
      KeptOrNew(s1, s, root, x, n, q);
    }
  }

  lemma BornAsWell(s0: State, s1: State, s: State, root: Frame)
    requires TablesBorn(s0, s1, root) && SameTranslations(s1.mem, s.mem, root) && s.free == s1.free
    ensures TablesBorn(s0, s, root)
  {
  }

  // The paths that s can follow and s0 cannot were stuck at one of these slots.
  ghost predicate OpensOnly(s0: State, s: State, root: Frame, filled: set<Slot>)
  {
    forall q: seq<Index> :: Plain(q) && Follow(s0.mem, root, q).None? && Follow(s.mem, root, q).Some? ==>
      Stop(s0.mem, root, q) in filled
  }

  lemma OpensByMapping(s1: State, s: State, root: Frame, x: seq<Index>, n: Frame)
    requires |x| == 4 && x[0] != RECURSIVE && Separated(s1.mem, root, s1.free) && FreshlyMapped(s1, s, root, x, n)
    ensures OpensOnly(s1, s, root, SlotsOf(s1.mem, root, x))
  {
    hide Separated, FreshlyMapped, Stop, SlotsOf;
    SeparatedIsRecursive(s1.mem, root, s1.free);
    TrackedStart(s1, root);
    TrackedStep(s1, s1, s, root, {}, x, n);
  }

  lemma OpensAsWell(s0: State, s1: State, s: State, root: Frame, filled: set<Slot>)
    requires OpensOnly(s0, s1, root, filled) && SameTranslations(s1.mem, s.mem, root)
    ensures OpensOnly(s0, s, root, filled)
  {
  }

  // A path that a range opens ends in an index that leads one of its pages from table to table.
  lemma OpenedByPage(s0: State, s: State, root: Frame, r: seq<seq<Index>>, n: nat, q: seq<Index>)
    returns (i: nat, k: nat)
    requires IsRange(r) && n <= |r| && OpensOnly(s0, s, root, NewSlots(s0.mem, root, r, n))
    requires Plain(q) && Follow(s0.mem, root, q).None? && Follow(s.mem, root, q).Some?
    ensures i < n && k <= 2 && q[|q| - 1] == r[i][k]
  {
    hide Stop, NewSlots;
    i, k := SlotOfPage(s0.mem, root, r, n, Stop(s0.mem, root, q));
    StopIs(s0.mem, root, q);
    StopIs(s0.mem, root, r[i][..k]);
    assert q[|q| - 1] == r[i][..k][k - 1];
    k := k - 1;
  }

  // The tables created are as many as the slots filled.
  lemma TablesCreated(s0: State, s: State, root: Frame, r: seq<seq<Index>>, n: nat, taken: set<Frame>)
    requires IsRange(r) && n <= |r| && InOrder(s0, s, root, r, n, taken) && Area(s0, s, root, r, n, taken)
    ensures |set f | f in s0.free && f !in s.free && IsTable(s.mem, root, f)| == |NewSlots(s0.mem, root, r, n)|
  {
    hide Tracked, NewSlots, IsTable;
    var tables := set f | f in s0.free && f !in s.free && IsTable(s.mem, root, f);
    assert s0.free == s.free + (tables + taken);
    assert tables !! taken && s.free !! (tables + taken);
  }

  // What becomes of a free frame while n pages are mapped.
  lemma Fate(s0: State, s: State, root: Frame, r: seq<seq<Index>>, n: nat, taken: set<Frame>, f: Frame)
    requires IsRange(r) && n <= |r| && InOrder(s0, s, root, r, n, taken) && Area(s0, s, root, r, n, taken)
    requires f in s0.free
    ensures f in s.free <==> Before(s0.mem, root, r, n) <= Rank(s0.free, f)
    ensures f in s.free || IsTable(s.mem, root, f) <==> !HandedToPage(s0, root, r, n, f)
  {
    TakenByRank(s0.free, s.free, f);
  }
}
