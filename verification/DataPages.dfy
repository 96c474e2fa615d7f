/** Frames that are not page tables: stores to them disturb no translation, and what map_page leaves of them. */
module DataPages {
  import opened PageTables
  import opened Wrappers

  // A path without its leading trips through the recursive slot.
  function Strip(p: seq<Index>): (q: seq<Index>)
    ensures |q| <= |p| && (q == [] || q[0] != RECURSIVE)
  {
    if p != [] && p[0] == RECURSIVE then Strip(p[1..]) else p
  }

  lemma RootSlot(m: Memory, root: Frame, free: set<Frame>)
    requires Recursive(m, root, free)
    ensures root in m && IsLink(m[root][RECURSIVE]) && m[root][RECURSIVE].frame == root
  {
  }

  lemma {:induction false} FollowStrip(m: Memory, root: Frame, p: seq<Index>)
    requires root in m && IsLink(m[root][RECURSIVE]) && m[root][RECURSIVE].frame == root
    ensures Follow(m, root, Strip(p)) == Follow(m, root, p)
    decreases |p|
  {
    if p != [] && p[0] == RECURSIVE {
      FollowStrip(m, root, p[1..]);
    }
  }

  lemma {:induction false} DataStoreFollow(m: Memory, root: Frame, f: Frame, i: Index, e: Entry,
                                           q: seq<Index>, p: seq<Index>)
    requires f in m && !IsTable(m, root, f) && |q| + |p| <= 4 && Follow(m, root, q).Some?
    ensures Follow(SetEntry(m, f, i, e), Follow(m, root, q).value, p) == Follow(m, Follow(m, root, q).value, p)
    decreases |p|
  {
    var s := Follow(m, root, q).value;
    if p != [] {
      assert IsTable(m, root, s);
      if s in m && IsLink(m[s][p[0]]) {
        FollowSnoc(m, root, q, p[0]);
        DataStoreFollow(m, root, f, i, e, q + [p[0]], p[1..]);
      }
    }
  }

  lemma {:induction false} DataStoreWalk(m: Memory, root: Frame, free: set<Frame>, f: Frame, i: Index, e: Entry,
                                         q: seq<Index>, p: seq<Index>)
    requires Recursive(m, root, free) && f in m && !IsTable(m, root, f)
    requires |q| + |p| == 4 && |p| >= 1 && Follow(m, root, q).Some?
    ensures Walk(SetEntry(m, f, i, e), Follow(m, root, q).value, p) == Walk(m, Follow(m, root, q).value, p)
    decreases |p|
  {
    var s := Follow(m, root, q).value;
    assert IsTable(m, root, s);
    if |p| > 1 && Present(m[s][p[0]]) {
      FollowSnoc(m, root, q, p[0]);
      DataStoreWalk(m, root, free, f, i, e, q + [p[0]], p[1..]);
    }
  }

  // A level map only needs the tables that the root reaches.
  lemma ReachableLevels(m: Memory, root: Frame, level: map<Frame, nat>) returns (level': map<Frame, nat>)
    requires Levelled(m, root, level) && IsLink(m[root][RECURSIVE]) && m[root][RECURSIVE].frame == root
    ensures Levelled(m, root, level')
    ensures forall t :: t in level' ==> t in level && IsTable(m, root, t)
  {
    level' := map t | t in level && IsTable(m, root, t) :: level[t];
    assert Follow(m, root, []) == Some(root);
    forall t: Frame, i: Index | t in level' && level'[t] >= 2 && Present(m[t][i]) && !(t == root && i == RECURSIVE)
      ensures IsLink(m[t][i]) && m[t][i].frame in level' && level'[m[t][i].frame] == level'[t] - 1
    {
      var p: seq<Index> :| |p| <= 3 && Follow(m, root, p) == Some(t);
      FollowStrip(m, root, p);
      LevelOfPath(m, root, level, Strip(p));
      FollowSnoc(m, root, Strip(p), i);
      assert Follow(m, root, Strip(p) + [i]) == Some(m[t][i].frame);
    }
  }

  ghost predicate SameTranslations(m: Memory, m': Memory, root: Frame)
  {
    && m'.Keys == m.Keys
    && (forall path: seq<Index> :: |path| == 4 ==> Walk(m', root, path) == Walk(m, root, path))
    && (forall q: seq<Index> :: |q| <= 3 ==> Follow(m', root, q) == Follow(m, root, q))
  }

  lemma SameTables(m: Memory, m': Memory, root: Frame, f: Frame)
    requires SameTranslations(m, m', root)
    ensures IsTable(m', root, f) <==> IsTable(m, root, f)
  {
    if IsTable(m', root, f) {
      var p: seq<Index> :| |p| <= 3 && Follow(m', root, p) == Some(f);
      assert Follow(m, root, p) == Some(f);
    }
    if IsTable(m, root, f) {
      var p: seq<Index> :| |p| <= 3 && Follow(m, root, p) == Some(f);
      assert Follow(m', root, p) == Some(f);
    }
  }

  // A store to a frame that is not a table changes no translation and keeps the invariant.
  lemma DataStore(m: Memory, root: Frame, free: set<Frame>, f: Frame, i: Index, e: Entry)
    requires Separated(m, root, free) && f in m && !IsTable(m, root, f)
    ensures Separated(SetEntry(m, f, i, e), root, free) && Recursive(SetEntry(m, f, i, e), root, free)
    ensures SameTranslations(m, SetEntry(m, f, i, e), root)
  {
    var m' := SetEntry(m, f, i, e);
    SeparatedIsRecursive(m, root, free);
    forall path: seq<Index> | |path| == 4
      ensures Walk(m', root, path) == Walk(m, root, path)
    {
      DataStoreWalk(m, root, free, f, i, e, [], path);
    }
    forall q: seq<Index> | |q| <= 3
      ensures Follow(m', root, q) == Follow(m, root, q)
    {
      DataStoreFollow(m, root, f, i, e, [], q);
    }
    var level: map<Frame, nat> :| LevelledOutside(m, root, level, free);
    var level' := ReachableLevels(m, root, level);
    assert Follow(m, root, []) == Some(root);
    assert IsTable(m, root, root);
    assert LevelledOutside(m', root, level', free);
    SeparatedIsRecursive(m', root, free);
  }

  // Releasing a frame that is not a table leaves the tables as they are.
  lemma MoreFree(m: Memory, root: Frame, free: set<Frame>, f: Frame)
    requires Separated(m, root, free) && f in m && !IsTable(m, root, f)
    ensures Separated(m, root, free + {f}) && Recursive(m, root, free + {f})
  {
    var level: map<Frame, nat> :| LevelledOutside(m, root, level, free);
    var level' := ReachableLevels(m, root, level);
    assert LevelledOutside(m, root, level', free + {f});
    SeparatedIsRecursive(m, root, free + {f});
  }

  // Every table that map_page adds was a free frame that it took.
  lemma NewTablesWereFree(s0: State, s: State, root: Frame, path: seq<Index>, e: Entry, f: Frame)
    requires |path| == 4 && path[0] != RECURSIVE && Separated(s0.mem, root, s0.free) && Mapped(s0, s, root, path, e)
    requires IsTable(s.mem, root, f)
    ensures IsTable(s0.mem, root, f) || (f in s0.free && f !in s.free)
  {
    var p: seq<Index> :| |p| <= 3 && Follow(s.mem, root, p) == Some(f);
    FollowStrip(s.mem, root, p);
    var q := Strip(p);
    SeparatedIsRecursive(s0.mem, root, s0.free);
    if q == [] {
      assert Follow(s0.mem, root, []) == Some(root);
    } else if Follow(s0.mem, root, q).Some? {
      WindowsKept(s0.mem, s.mem, root, s0.free, q);
    }
  }

  // A translation kept through the recursive window is a table kept.
  lemma WindowsKept(m: Memory, m': Memory, root: Frame, free: set<Frame>, q: seq<Index>)
    requires Recursive(m, root, free) && KeepsTranslations(m, m', root)
    requires |q| <= 3 && Follow(m, root, q).Some? && Follow(m', root, q).Some?
    requires root in m' && IsLink(m'[root][RECURSIVE]) && m'[root][RECURSIVE].frame == root
    ensures Follow(m', root, q) == Follow(m, root, q)
  {
    WindowShowsTable(m, root, q);
    WindowShowsTable(m', root, q);
  }

  // A table stays a table, at the same path, when all translations are kept.
  lemma TablesKept(m: Memory, m': Memory, root: Frame, free: set<Frame>, free': set<Frame>, p: seq<Index>)
    requires Recursive(m, root, free) && Recursive(m', root, free') && KeepsTranslations(m, m', root)
    requires |p| <= 3 && Follow(m, root, p).Some?
    ensures Follow(m', root, p) == Follow(m, root, p)
  {
    if p != [] {
      var w, k := Window(p), |p| - 1;
      WindowShowsTable(m, root, p);
      WalkIsFollow(m', root, free', w);
      assert w[..3] == seq(4 - |p|, _ => RECURSIVE) + p[..k] && w[3] == p[k] && p == p[..k] + [p[k]];
      FollowRecursive(m', root, 4 - |p|, p[..k]);
      FollowSnoc(m', root, p[..k], p[k]);
    }
  }
}
