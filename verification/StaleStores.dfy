/** Stores of absent entries through data mappings: what becomes of the tables and translations they may hit. */
module StaleStores {
  import opened PageTables
  import opened DataPages
  import opened Wrappers

  // No present entry of a table changes.
  ghost predicate KeepsTables(m: Memory, m': Memory, root: Frame)
  {
    && m'.Keys == m.Keys
    && forall t: Frame, i: Index :: t in m && IsTable(m, root, t) && Present(m[t][i]) ==> m'[t][i] == m[t][i]
  }

  lemma {:induction false} KeptFollow(m: Memory, m': Memory, root: Frame, free: set<Frame>,
                                      q: seq<Index>, p: seq<Index>)
    requires Recursive(m, root, free) && KeepsTables(m, m', root)
    requires |q| + |p| <= 3 && Follow(m, root, q).Some?
    requires Follow(m, Follow(m, root, q).value, p).Some?
    ensures Follow(m', Follow(m, root, q).value, p) == Follow(m, Follow(m, root, q).value, p)
    decreases |p|
  {
    var s := Follow(m, root, q).value;
    if p != [] {
      assert IsTable(m, root, s);
      LinkBits(m[s][p[0]]);
      FollowSnoc(m, root, q, p[0]);
      KeptFollow(m, m', root, free, q + [p[0]], p[1..]);
    }
  }

  lemma {:induction false} KeptWalk(m: Memory, m': Memory, root: Frame, free: set<Frame>, q: seq<Index>, p: seq<Index>)
    requires Recursive(m, root, free) && KeepsTables(m, m', root)
    requires |q| + |p| == 4 && |p| >= 1 && Follow(m, root, q).Some?
    requires Walk(m, Follow(m, root, q).value, p).Page?
    ensures Walk(m', Follow(m, root, q).value, p) == Walk(m, Follow(m, root, q).value, p)
    decreases |p|
  {
    var s := Follow(m, root, q).value;
    assert IsTable(m, root, s);
    if |p| > 1 {
      FollowSnoc(m, root, q, p[0]);
      KeptWalk(m, m', root, free, q + [p[0]], p[1..]);
    }
  }

  lemma KeptTranslations(m: Memory, m': Memory, root: Frame, free: set<Frame>)
    requires Recursive(m, root, free) && KeepsTables(m, m', root)
    ensures KeepsTranslations(m, m', root)
    ensures forall p: seq<Index> :: |p| <= 3 && Follow(m, root, p).Some? ==> Follow(m', root, p) == Follow(m, root, p)
    ensures forall t :: IsTable(m, root, t) ==> IsTable(m', root, t)
  {
    forall path: seq<Index> | |path| == 4 && Walk(m, root, path).Page?
      ensures Walk(m', root, path) == Walk(m, root, path)
    {
      KeptWalk(m, m', root, free, [], path);
    }
    forall p: seq<Index> | |p| <= 3 && Follow(m, root, p).Some?
      ensures Follow(m', root, p) == Follow(m, root, p)
    {
      KeptFollow(m, m', root, free, [], p);
    }
  }

  // Filling absent entries and frames that were free keeps the tables.
  lemma PreservedTables(m: Memory, m': Memory, root: Frame, free: set<Frame>)
    requires Recursive(m, root, free) && Preserves(m, m', free)
    ensures KeepsTables(m, m', root)
  {
  }

  // The frame can take an absent entry in slot i without any table of m losing one.
  ghost predicate Harmless(m: Memory, root: Frame, f: Frame, i: Index)
  {
    f in m && !(IsTable(m, root, f) && Present(m[f][i]))
  }

  lemma HarmlessStore(m0: Memory, m: Memory, root: Frame, f: Frame, i: Index, e: Entry)
    requires KeepsTables(m0, m, root) && Harmless(m0, root, f, i)
    ensures KeepsTables(m0, SetEntry(m, f, i, e), root)
  {
  }

  // Taking entries away keeps the levels apart.
  lemma AbsentStore(m: Memory, root: Frame, free: set<Frame>, f: Frame, i: Index, e: Entry)
    requires Separated(m, root, free) && f in m && !Present(e) && i != RECURSIVE
    ensures Separated(SetEntry(m, f, i, e), root, free) && Recursive(SetEntry(m, f, i, e), root, free)
  {
    var m' := SetEntry(m, f, i, e);
    var level: map<Frame, nat> :| LevelledOutside(m, root, level, free);
    assert LevelledOutside(m', root, level, free);
    SeparatedIsRecursive(m', root, free);
  }

  // ---------------------------------------------------------------------------------------------
  // Losing entries

  // The way from table s along p leads through one of the slots `cut` of frame f.
  predicate Passes(m: Memory, s: Frame, p: seq<Index>, f: Frame, cut: set<Index>)
    decreases |p|
  {
    && p != []
    && ((s == f && p[0] in cut) || (s in m && IsLink(m[s][p[0]]) && Passes(m, m[s][p[0]].frame, p[1..], f, cut)))
  }

  // In m' the slots `cut` of f are absent, and the tables of m are otherwise as they were.
  ghost predicate Cut(m: Memory, m': Memory, root: Frame, f: Frame, cut: set<Index>)
  {
    && m'.Keys == m.Keys
    && forall t: Frame, i: Index :: t in m && IsTable(m, root, t) ==> CutSlot(m, m', t, i, f, cut)
  }

  predicate CutSlot(m: Memory, m': Memory, t: Frame, i: Index, f: Frame, cut: set<Index>)
    requires t in m && t in m'
  {
    if t == f && i in cut then !Present(m'[t][i]) else m'[t][i] == m[t][i]
  }

  // A walk through a cut slot faults; every other one ends where it did.
  lemma {:induction false} CutWalk(m: Memory, m': Memory, root: Frame, free: set<Frame>, f: Frame, cut: set<Index>,
                                   q: seq<Index>, p: seq<Index>)
    requires Recursive(m, root, free) && Cut(m, m', root, f, cut)
    requires |q| + |p| == 4 && |p| >= 1 && Follow(m, root, q).Some?
    ensures var s := Follow(m, root, q).value;
            Walk(m', s, p) == if Passes(m, s, p, f, cut) then Fault else Walk(m, s, p)
    decreases |p|
  {
    var s := Follow(m, root, q).value;
    assert CutSlot(m, m', s, p[0], f, cut);
    LinkBits(m[s][p[0]]);
    if |p| > 1 && Present(m[s][p[0]]) {
      FollowSnoc(m, root, q, p[0]);
      CutWalk(m, m', root, free, f, cut, q + [p[0]], p[1..]);
    }
  }

  // Beside the slots `cut` of f the tables of m are as they were.
  ghost predicate Beside(m: Memory, m': Memory, root: Frame, f: Frame, cut: set<Index>)
  {
    && m'.Keys == m.Keys
    && forall t: Frame, i: Index :: t in m && IsTable(m, root, t) ==> BesideSlot(m, m', t, i, f, cut)
  }

  predicate BesideSlot(m: Memory, m': Memory, t: Frame, i: Index, f: Frame, cut: set<Index>)
    requires t in m && t in m'
  {
    (t == f && i in cut) || m'[t][i] == m[t][i]
  }

  lemma BesideItself(m: Memory, root: Frame, f: Frame, cut: set<Index>)
    ensures Beside(m, m, root, f, cut)
  {
  }

  // A store into one of these slots, or into a frame that is no table.
  lemma BesideStore(m0: Memory, m: Memory, root: Frame, f: Frame, cut: set<Index>, g: Frame, i: Index, e: Entry)
    requires Beside(m0, m, root, f, cut) && g in m0 && i in cut && (g == f || !IsTable(m0, root, g))
    ensures Beside(m0, SetEntry(m, g, i, e), root, f, cut)
  {
    hide IsTable;
    forall t: Frame, j: Index | t in m0 && IsTable(m0, root, t)
      ensures BesideSlot(m0, SetEntry(m, g, i, e), t, j, f, cut)
    {
      assert BesideSlot(m0, m, t, j, f, cut);
    }
  }

  // A walk that avoids these slots ends where it did.
  lemma {:induction false} BesideWalk(m: Memory, m': Memory, root: Frame, free: set<Frame>, f: Frame, cut: set<Index>,
                                      q: seq<Index>, p: seq<Index>)
    requires Recursive(m, root, free) && Beside(m, m', root, f, cut)
    requires |q| + |p| == 4 && |p| >= 1 && Follow(m, root, q).Some?
    requires !Passes(m, Follow(m, root, q).value, p, f, cut)
    ensures Walk(m', Follow(m, root, q).value, p) == Walk(m, Follow(m, root, q).value, p)
    decreases |p|
  {
    var s := Follow(m, root, q).value;
    assert BesideSlot(m, m', s, p[0], f, cut);
    LinkBits(m[s][p[0]]);
    if |p| > 1 && Present(m[s][p[0]]) {
      FollowSnoc(m, root, q, p[0]);
      BesideWalk(m, m', root, free, f, cut, q + [p[0]], p[1..]);
    }
  }

  // Paths to f itself and beside the cut slots stay.
  lemma {:induction false} CutFollow(m: Memory, m': Memory, root: Frame, free: set<Frame>, f: Frame, cut: set<Index>,
                                     q: seq<Index>, p: seq<Index>)
    requires Recursive(m, root, free) && Cut(m, m', root, f, cut)
    requires |q| + |p| <= 3 && Follow(m, root, q).Some?
    ensures var s := Follow(m, root, q).value;
            Follow(m', s, p) == if Passes(m, s, p, f, cut) then None else Follow(m, s, p)
    decreases |p|
  {
    var s := Follow(m, root, q).value;
    if p != [] {
      assert CutSlot(m, m', s, p[0], f, cut);
      LinkBits(m[s][p[0]]);
      LinkBits(m'[s][p[0]]);
      if IsLink(m[s][p[0]]) {
        FollowSnoc(m, root, q, p[0]);
        CutFollow(m, m', root, free, f, cut, q + [p[0]], p[1..]);
      }
    }
  }

  // A way that reaches f and goes on through a cut slot passes it.
  lemma {:induction false} ThroughSlot(m: Memory, s: Frame, p: seq<Index>, i: Index, f: Frame, cut: set<Index>)
    requires Follow(m, s, p) == Some(f) && i in cut
    ensures Passes(m, s, p + [i], f, cut)
    decreases |p|
  {
    if p != [] {
      assert (p + [i])[1..] == p[1..] + [i];
      ThroughSlot(m, m[s][p[0]].frame, p[1..], i, f, cut);
    } else {
      assert p + [i] == [i];
    }
  }

  lemma {:induction false} PassesIf(m: Memory, s: Frame, p: seq<Index>, k: nat, f: Frame, cut: set<Index>)
    requires k < |p| && Follow(m, s, p[..k]) == Some(f) && p[k] in cut
    ensures Passes(m, s, p, f, cut)
    decreases |p|
  {
    if k > 0 {
      assert p[..k][1..] == p[1..][..k - 1];
      PassesIf(m, m[s][p[0]].frame, p[1..], k - 1, f, cut);
    }
  }

  lemma {:induction false} PassesAt(m: Memory, s: Frame, p: seq<Index>, f: Frame, cut: set<Index>) returns (k: nat)
    requires Passes(m, s, p, f, cut)
    ensures k < |p| && Follow(m, s, p[..k]) == Some(f) && p[k] in cut
    decreases |p|
  {
    if s == f && p[0] in cut {
      k := 0;
    } else {
      k := PassesAt(m, m[s][p[0]].frame, p[1..], f, cut);
      k := k + 1;
      assert p[..k][1..] == p[1..][..k - 1];
    }
  }

  // No path outside the recursive window leads through the table it ends at.
  lemma NotThroughItself(m: Memory, root: Frame, free: set<Frame>, p: seq<Index>, f: Frame, cut: set<Index>)
    requires Separated(m, root, free) && |p| <= 3 && (p != [] ==> p[0] != RECURSIVE) && Follow(m, root, p) == Some(f)
    ensures !Passes(m, root, p, f, cut)
  {
    hide Separated;
    if Passes(m, root, p, f, cut) {
      var k := PassesAt(m, root, p, f, cut);
      SameLevel(m, root, free, p[..k], p);
    }
  }

  // A table stays one when slots of it are cut.
  lemma StillATable(m: Memory, m': Memory, root: Frame, free: set<Frame>, f: Frame, cut: set<Index>)
    requires Separated(m, root, free) && Recursive(m, root, free) && Cut(m, m', root, f, cut) && IsTable(m, root, f)
    ensures IsTable(m', root, f)
  {
    hide Separated, Recursive, Cut;
    var p: seq<Index> :| |p| <= 3 && Follow(m, root, p) == Some(f);
    RootSlot(m, root, free);
    FollowStrip(m, root, p);
    var q := Strip(p);
    assert Follow(m, root, []) == Some(root);
    NotThroughItself(m, root, free, q, f, cut);
    CutFollow(m, m', root, free, f, cut, [], q);
  }

  // A page whose way leads through a slot of f finds it present, and f is a table.
  lemma PresentOnTheWay(m: Memory, root: Frame, free: set<Frame>, path: seq<Index>, f: Frame, cut: set<Index>)
    requires Recursive(m, root, free) && |path| == 4 && Passes(m, root, path, f, cut)
    ensures IsTable(m, root, f)
    ensures Walk(m, root, path).Page? ==> f in m && exists i :: i in cut && Present(m[f][i])
  {
    hide Recursive;
    var k := PassesAt(m, root, path, f, cut);
    if Walk(m, root, path).Page? {
      TranslatedPath(m, root, free, path);
      assert path[..0] == [];
      assert path[k] in cut && Present(m[f][path[k]]);
    }
  }

  // The exact condition: translations survive the loss of these slots if and only if f is no table or the
  // slots were absent.
  lemma CutKeepsTranslationsIff(m: Memory, m': Memory, root: Frame, free: set<Frame>, f: Frame, cut: set<Index>)
    requires Separated(m, root, free) && f in m && Cut(m, m', root, f, cut) && RECURSIVE !in cut
    ensures KeepsTranslations(m, m', root) <==> forall i :: i in cut ==> Harmless(m, root, f, i)
  {
    SeparatedIsRecursive(m, root, free);
    if forall i :: i in cut ==> Harmless(m, root, f, i) {
      forall t: Frame, i: Index | t in m && IsTable(m, root, t) && Present(m[t][i])
        ensures m'[t][i] == m[t][i]
      {
        assert CutSlot(m, m', t, i, f, cut);
      }
      KeptTranslations(m, m', root, free);
    } else {
      var i :| i in cut && !Harmless(m, root, f, i);
      var p: seq<Index> :| |p| <= 3 && Follow(m, root, p) == Some(f);
      SlotIsATranslation(m, root, free, f, p, i);
      var w := seq(3 - |p|, _ => RECURSIVE) + p + [i];
      CutWalk(m, m', root, free, f, cut, [], w);
    }
  }

  // The word in slot i of a table appears as a page of the recursive window.
  lemma SlotIsATranslation(m: Memory, root: Frame, free: set<Frame>, f: Frame, p: seq<Index>, i: Index)
    requires Recursive(m, root, free) && |p| <= 3 && Follow(m, root, p) == Some(f) && f in m && Present(m[f][i])
    ensures var w := seq(3 - |p|, _ => RECURSIVE) + p + [i];
            Walk(m, root, w).Page? && forall cut: set<Index> :: i in cut ==> Passes(m, root, w, f, cut)
  {
    var u := seq(3 - |p|, _ => RECURSIVE) + p;
    var w := u + [i];
    FollowRecursive(m, root, 3 - |p|, p);
    assert w[..3] == u && w[3] == i;
    WalkIsFollow(m, root, free, w);
    forall cut: set<Index> | i in cut
      ensures Passes(m, root, w, f, cut)
    {
      ThroughSlot(m, root, u, i, f, cut);
    }
  }

  // One store of an absent entry.
  lemma StoreKeepsTranslationsIff(m: Memory, root: Frame, free: set<Frame>, f: Frame, i: Index, e: Entry)
    requires Separated(m, root, free) && f in m && !Present(e) && i != RECURSIVE
    ensures KeepsTranslations(m, SetEntry(m, f, i, e), root) <==> Harmless(m, root, f, i)
  {
    CutKeepsTranslationsIff(m, SetEntry(m, f, i, e), root, free, f, {i});
  }

  // ---------------------------------------------------------------------------------------------
  // Ways that are mapped already

  lemma MappedWay(m: Memory, root: Frame, free: set<Frame>, path: seq<Index>, k: nat)
    requires Recursive(m, root, free) && |path| == 4 && Walk(m, root, path).Page? && k <= 3
    ensures Follow(m, root, path[..k]).Some?
  {
    hide Recursive;
    TranslatedPath(m, root, free, path);
    assert path[..0] == [];
  }

  // Adding entries does not change which slots a mapped page leads through.
  lemma MappedPassesKept(m: Memory, m': Memory, root: Frame, free: set<Frame>, path: seq<Index>,
                         f: Frame, cut: set<Index>)
    requires Recursive(m, root, free) && KeepsTables(m, m', root) && |path| == 4 && Walk(m, root, path).Page?
    ensures Passes(m', root, path, f, cut) <==> Passes(m, root, path, f, cut)
  {
    hide Recursive, KeepsTables;
    KeptTranslations(m, m', root, free);
    if Passes(m', root, path, f, cut) {
      var k := PassesAt(m', root, path, f, cut);
      MappedWay(m, root, free, path, k);
      PassesIf(m, root, path, k, f, cut);
    }
    if Passes(m, root, path, f, cut) {
      var k := PassesAt(m, root, path, f, cut);
      PassesIf(m', root, path, k, f, cut);
    }
  }

  // A page of m that shows a slot of f, while f is a table, is lost with that slot, whatever was added before.
  lemma LostWithItsSlot(m0: Memory, m: Memory, m': Memory, root: Frame, free0: set<Frame>, free: set<Frame>, f: Frame,
                        cut: set<Index>, i: Index)
    requires Recursive(m0, root, free0) && Recursive(m, root, free) && KeepsTables(m0, m, root)
    requires IsTable(m0, root, f) && f in m0 && i in cut && Present(m0[f][i]) && Cut(m, m', root, f, cut)
    ensures !KeepsTranslations(m0, m', root)
  {
    hide Recursive, KeepsTables, Cut;
    var p: seq<Index> :| |p| <= 3 && Follow(m0, root, p) == Some(f);
    SlotIsATranslation(m0, root, free0, f, p, i);
    var w := seq(3 - |p|, _ => RECURSIVE) + p + [i];
    MappedPassesKept(m0, m, root, free0, w, f, cut);
    assert Follow(m, root, []) == Some(root);
    CutWalk(m, m', root, free, f, cut, [], w);
  }
}
