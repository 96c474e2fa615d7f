/** Four-level page tables as values: the hardware walk, the recursive slot and what keeps them consistent. */
module PageTables {
  import opened Wrappers

  const ENTRIES := 512
  const PT_PRESENT_BIT: bv8 := 1
  const PT_RW_BIT: bv8 := 2
  const PT_HUGE_BIT: bv8 := 0x80
  const RECURSIVE: Index := 510

  type Index = i: int | 0 <= i < ENTRIES
  type Frame = nat

  // An 8-byte table entry: its low byte and the 4 KiB frame it points at.
  datatype Entry = Entry(flags: bv8, frame: Frame)

  const EMPTY := Entry(0, 0)

  type Table = t: seq<Entry> | |t| == ENTRIES witness seq(ENTRIES, _ => EMPTY)

  function EmptyTable(): (t: Table)
    ensures forall i: Index :: t[i] == EMPTY
  {
    seq(ENTRIES, _ => EMPTY)
  }

  // Physical memory: the 512 words of every frame of RAM.
  type Memory = map<Frame, Table>

  predicate Present(e: Entry) {
    e.flags & PT_PRESENT_BIT != 0
  }

  predicate Writable(e: Entry) {
    e.flags & PT_RW_BIT != 0
  }

  predicate Huge(e: Entry) {
    e.flags & PT_HUGE_BIT != 0
  }

  // A present, writable pointer to a next-level table.
  predicate IsLink(e: Entry) {
    e.flags & (PT_PRESENT_BIT | PT_RW_BIT | PT_HUGE_BIT) == PT_PRESENT_BIT | PT_RW_BIT
  }

  function Link(f: Frame): (e: Entry)
    ensures IsLink(e) && Present(e) && Writable(e) && !Huge(e)
  {
    Entry(PT_RW_BIT | PT_PRESENT_BIT, f)
  }

  lemma LinkBits(e: Entry)
    ensures IsLink(e) <==> Present(e) && Writable(e) && !Huge(e)
  {
  }

  // The bits of the low byte: 0 present, 1 writable, 7 page size. A link has the first two and no other.
  lemma FlagBits(e: Entry)
    ensures Present(e) <==> (e.flags >> 0) & 1 == 1
    ensures Writable(e) <==> (e.flags >> 1) & 1 == 1
    ensures Huge(e) <==> (e.flags >> 7) & 1 == 1
    ensures Link(e.frame).flags == 3 && Link(e.frame).frame == e.frame
  {
  }

  // ---------------------------------------------------------------------------------------------
  // The hardware walk (Intel SDM volume 3A, section 4.5)

  datatype Translation = Fault | Page(frame: Frame, writable: bool)

  // |path| is the number of levels still to go: 4 at the root table. An entry with the page-size bit
  // ends the walk early at levels 3 and 2, and is a reserved-bit fault at level 4.
  function Walk(m: Memory, table: Frame, path: seq<Index>): (t: Translation)
    requires 1 <= |path| <= 4
    decreases |path|
  {
    if table !in m || !Present(m[table][path[0]]) then Fault
    else
      var e := m[table][path[0]];
      if |path| == 1 then Page(e.frame, Writable(e))
      else if Huge(e) then
        if |path| == 4 then Fault
        else Page(e.frame + Offset(path[1..]), Writable(e))
      else
        match Walk(m, e.frame, path[1..])
        case Fault => Fault
        case Page(f, w) => Page(f, w && Writable(e))
  }

  // The frame offset that the unused indices select inside a large page.
  function Offset(path: seq<Index>): nat {
    if path == [] then 0 else Offset(path[..|path| - 1]) * ENTRIES + path[|path| - 1]
  }

  // The table reached from `table` by following links only.
  function Follow(m: Memory, table: Frame, path: seq<Index>): (f: Option<Frame>)
    decreases |path|
  {
    if path == [] then Some(table)
    else if table in m && IsLink(m[table][path[0]]) then Follow(m, m[table][path[0]].frame, path[1..])
    else None
  }

  lemma {:induction false} FollowConcat(m: Memory, table: Frame, p: seq<Index>, q: seq<Index>)
    ensures Follow(m, table, p + q)
            == match Follow(m, table, p) case None => None case Some(f) => Follow(m, f, q)
    decreases |p|
  {
    if p == [] {
      assert p + q == q;
    } else {
      assert (p + q)[1..] == p[1..] + q;
      if table in m && IsLink(m[table][p[0]]) {
        FollowConcat(m, m[table][p[0]].frame, p[1..], q);
      }
    }
  }

  lemma {:induction false} WalkAfterFollow(m: Memory, table: Frame, p: seq<Index>, q: seq<Index>)
    requires 1 <= |q| && |p| + |q| <= 4
    requires Follow(m, table, p).Some?
    ensures Walk(m, table, p + q) == Walk(m, Follow(m, table, p).value, q)
    decreases |p|
  {
    if p == [] {
      assert p + q == q;
    } else {
      assert (p + q)[1..] == p[1..] + q;
      WalkAfterFollow(m, m[table][p[0]].frame, p[1..], q);
    }
  }

  lemma {:induction false} LinksTranslate(m: Memory, table: Frame, p: seq<Index>)
    requires 1 <= |p| <= 4 && Follow(m, table, p).Some?
    ensures Walk(m, table, p) == Page(Follow(m, table, p).value, true)
    decreases |p|
  {
    if |p| > 1 {
      LinksTranslate(m, m[table][p[0]].frame, p[1..]);
    } else {
      assert p[1..] == [];
    }
  }

  // ---------------------------------------------------------------------------------------------
  // The state that map_page relies on

  // Slot 510 of the root points at the root; every table that the root reaches is backed by RAM and in
  // use; and above the last level every present entry is a plain link. Tables may be shared.
  ghost predicate Recursive(m: Memory, root: Frame, free: set<Frame>)
  {
    && root in m && IsLink(m[root][RECURSIVE]) && m[root][RECURSIVE].frame == root
    && free <= m.Keys
    && (forall p: seq<Index> :: |p| <= 3 && Follow(m, root, p).Some? ==>
          Follow(m, root, p).value in m && Follow(m, root, p).value !in free)
    && (forall p: seq<Index>, i: Index ::
          |p| <= 2 && Follow(m, root, p).Some? && Present(m[Follow(m, root, p).value][i]) ==>
            IsLink(m[Follow(m, root, p).value][i]))
  }

  // The virtual page through which the table behind `prefix` appears.
  function Window(prefix: seq<Index>): (path: seq<Index>)
    requires |prefix| <= 3
    ensures |path| == 4
  {
    seq(4 - |prefix|, _ => RECURSIVE) + prefix
  }

  lemma {:induction false} FollowRecursive(m: Memory, root: Frame, n: nat, p: seq<Index>)
    requires root in m && IsLink(m[root][RECURSIVE]) && m[root][RECURSIVE].frame == root
    ensures Follow(m, root, seq(n, _ => RECURSIVE) + p) == Follow(m, root, p)
    decreases n
  {
    var path := seq(n, _ => RECURSIVE) + p;
    if n == 0 {
      assert path == p;
    } else {
      assert path[1..] == seq(n - 1, _ => RECURSIVE) + p;
      FollowRecursive(m, root, n - 1, p);
    }
  }

  // Each recursive address resolves to the physical table of its level.
  lemma WindowShowsTable(m: Memory, root: Frame, prefix: seq<Index>)
    requires root in m && IsLink(m[root][RECURSIVE]) && m[root][RECURSIVE].frame == root
    requires |prefix| <= 3 && Follow(m, root, prefix).Some?
    ensures Walk(m, root, Window(prefix)) == Page(Follow(m, root, prefix).value, true)
  {
    FollowRecursive(m, root, 4 - |prefix|, prefix);
    LinksTranslate(m, root, Window(prefix));
  }

  // One more level: the next table exists exactly when the entry is present.
  lemma FollowSnoc(m: Memory, root: Frame, prefix: seq<Index>, i: Index)
    requires Follow(m, root, prefix).Some?
    ensures var t := Follow(m, root, prefix).value;
            Follow(m, root, prefix + [i])
            == if t in m && IsLink(m[t][i]) then Some(m[t][i].frame) else None
  {
    FollowConcat(m, root, prefix, [i]);
    var t := Follow(m, root, prefix).value;
    assert [i][1..] == [];
  }

  // Under the invariant the hardware walk is: follow three links, then read the leaf.
  lemma WalkIsFollow(m: Memory, root: Frame, free: set<Frame>, path: seq<Index>)
    requires Recursive(m, root, free) && |path| == 4
    ensures Walk(m, root, path)
            == match Follow(m, root, path[..3])
               case None => Fault
               case Some(t) =>
                 if Present(m[t][path[3]]) then Page(m[t][path[3]].frame, Writable(m[t][path[3]])) else Fault
  {
    WalkIsFollowFrom(m, root, free, [], path);
    FollowConcat(m, root, [], path[..3]);
  }

  // A translated path, one entry at a time.
  lemma TranslatedPath(m: Memory, root: Frame, free: set<Frame>, path: seq<Index>)
    requires Recursive(m, root, free) && |path| == 4 && Walk(m, root, path).Page?
    ensures Follow(m, root, path[..1]).Some? && Follow(m, root, path[..2]).Some? && Follow(m, root, path[..3]).Some?
    ensures var t1, t2, t3 := Follow(m, root, path[..1]).value, Follow(m, root, path[..2]).value,
        Follow(m, root, path[..3]).value;
            && t1 in m && t2 in m && t3 in m
            && Present(m[root][path[0]]) && m[root][path[0]].frame == t1
            && Present(m[t1][path[1]]) && m[t1][path[1]].frame == t2
            && Present(m[t2][path[2]]) && m[t2][path[2]].frame == t3
            && Present(m[t3][path[3]]) && m[t3][path[3]].frame == Walk(m, root, path).frame
  {
    WalkIsFollow(m, root, free, path);
    assert path[..3][..2] == path[..2] && path[..2][..1] == path[..1] && path[..1][..0] == [];
    LastLink(m, root, path[..3], 2);
    LastLink(m, root, path[..2], 1);
    LastLink(m, root, path[..1], 0);
  }

  lemma LastLink(m: Memory, root: Frame, p: seq<Index>, k: nat)
    requires |p| == k + 1 && Follow(m, root, p).Some?
    ensures Follow(m, root, p[..k]).Some?
    ensures var t := Follow(m, root, p[..k]).value;
            t in m && IsLink(m[t][p[k]]) && Present(m[t][p[k]]) && Follow(m, root, p) == Some(m[t][p[k]].frame)
  {
    assert p == p[..k] + [p[k]];
    FollowConcat(m, root, p[..k], [p[k]]);
    FollowSnoc(m, root, p[..k], p[k]);
    LinkBits(m[Follow(m, root, p[..k]).value][p[k]]);
  }

  lemma {:induction false} WalkIsFollowFrom(m: Memory, root: Frame, free: set<Frame>, q: seq<Index>, p: seq<Index>)
    requires Recursive(m, root, free) && |q| + |p| == 4 && |p| >= 1 && Follow(m, root, q).Some?
    ensures Walk(m, Follow(m, root, q).value, p)
            == match Follow(m, Follow(m, root, q).value, p[..|p| - 1])
               case None => Fault
               case Some(t) =>
                 if t in m && Present(m[t][p[|p| - 1]])
                 then Page(m[t][p[|p| - 1]].frame, Writable(m[t][p[|p| - 1]])) else Fault
    decreases |p|
  {
    var s := Follow(m, root, q).value;
    if |p| > 1 && Present(m[s][p[0]]) {
      FollowSnoc(m, root, q, p[0]);
      WalkIsFollowFrom(m, root, free, q + [p[0]], p[1..]);
      assert p[..|p| - 1][1..] == p[1..][..|p| - 2];
    }
  }

  // Taking a free frame for something other than a table disturbs nothing.
  lemma FewerFree(m: Memory, root: Frame, free: set<Frame>, free': set<Frame>)
    requires free' <= free
    ensures Recursive(m, root, free) ==> Recursive(m, root, free')
    ensures Separated(m, root, free) ==> Separated(m, root, free')
  {
    if Separated(m, root, free) {
      var level: map<Frame, nat> :| LevelledOutside(m, root, level, free);
      assert LevelledOutside(m, root, level, free');
    }
  }

  // ---------------------------------------------------------------------------------------------
  // Adding entries

  // No present entry of a frame in use changes.
  ghost predicate Preserves(m: Memory, m': Memory, free: set<Frame>)
  {
    && m'.Keys == m.Keys
    && forall f: Frame, i: Index :: f in m && f !in free && Present(m[f][i]) ==> m'[f][i] == m[f][i]
  }

  // Every translation of m is a translation of m'.
  ghost predicate KeepsTranslations(m: Memory, m': Memory, root: Frame)
  {
    forall path: seq<Index> :: |path| == 4 && Walk(m, root, path).Page? ==> Walk(m', root, path) == Walk(m, root, path)
  }

  lemma {:induction false} PreservedWalk(m: Memory, m': Memory, root: Frame, free: set<Frame>,
                                         q: seq<Index>, p: seq<Index>)
    requires Recursive(m, root, free) && Preserves(m, m', free)
    requires |q| + |p| == 4 && |p| >= 1 && Follow(m, root, q).Some?
    requires Walk(m, Follow(m, root, q).value, p).Page?
    ensures Walk(m', Follow(m, root, q).value, p) == Walk(m, Follow(m, root, q).value, p)
    decreases |p|
  {
    var s := Follow(m, root, q).value;
    assert m'[s][p[0]] == m[s][p[0]];
    if |p| > 1 {
      FollowSnoc(m, root, q, p[0]);
      PreservedWalk(m, m', root, free, q + [p[0]], p[1..]);
    }
  }

  lemma PreservedTranslations(m: Memory, m': Memory, root: Frame, free: set<Frame>)
    requires Recursive(m, root, free) && Preserves(m, m', free)
    ensures KeepsTranslations(m, m', root)
  {
    forall path: seq<Index> | |path| == 4 && Walk(m, root, path).Page?
      ensures Walk(m', root, path) == Walk(m, root, path)
    {
      PreservedWalk(m, m', root, free, [], path);
    }
  }

  lemma {:induction false} PreservedFollow(m: Memory, m': Memory, root: Frame, free: set<Frame>,
                                           q: seq<Index>, p: seq<Index>)
    requires Recursive(m, root, free) && Preserves(m, m', free)
    requires |q| + |p| <= 3 && Follow(m, root, q).Some?
    requires Follow(m, Follow(m, root, q).value, p).Some?
    ensures Follow(m', Follow(m, root, q).value, p) == Follow(m, Follow(m, root, q).value, p)
    decreases |p|
  {
    var s := Follow(m, root, q).value;
    if p != [] {
      LinkBits(m[s][p[0]]);
      assert m'[s][p[0]] == m[s][p[0]];
      FollowSnoc(m, root, q, p[0]);
      PreservedFollow(m, m', root, free, q + [p[0]], p[1..]);
    }
  }

  // Point slot i of table t at the frame n and clear n.
  function Install(m: Memory, t: Frame, i: Index, n: Frame): Memory
    requires t in m
  {
    m[t := m[t][i := Link(n)]][n := EmptyTable()]
  }

  // Installing a free frame at an absent slot makes that frame reachable and nothing else.
  lemma {:induction false} InstallFollow(m: Memory, root: Frame, free: set<Frame>, t: Frame, i: Index, n: Frame,
                                         q: seq<Index>, p: seq<Index>)
    requires Recursive(m, root, free) && n in free && t in m && t !in free && !Present(m[t][i])
    requires |q| + |p| <= 3 && Follow(m, root, q).Some?
    ensures var s := Follow(m, root, q).value; var m' := Install(m, t, i, n);
            || Follow(m', s, p) == Follow(m, s, p)
            || (Follow(m, s, p) == None && Follow(m', s, p) == Some(n))
    decreases |p|
  {
    var s := Follow(m, root, q).value;
    var m' := Install(m, t, i, n);
    if p != [] {
      LinkBits(m[s][p[0]]);
      if s == t && p[0] == i {
        assert m'[s][p[0]] == Link(n);
        assert Follow(m', n, p[1..]) == if p[1..] == [] then Some(n) else None;
      } else {
        assert m'[s][p[0]] == m[s][p[0]];
        if IsLink(m[s][p[0]]) {
          FollowSnoc(m, root, q, p[0]);
          InstallFollow(m, root, free, t, i, n, q + [p[0]], p[1..]);
        }
      }
    }
  }

  lemma InstallPreserves(m: Memory, free: set<Frame>, t: Frame, i: Index, n: Frame)
    requires n in free && n in m && t in m && t !in free && !Present(m[t][i])
    ensures Preserves(m, Install(m, t, i, n), free)
  {
  }

  lemma InstallKeepsRecursive(m: Memory, root: Frame, free: set<Frame>, prefix: seq<Index>, i: Index, n: Frame)
    requires Recursive(m, root, free) && n in free && |prefix| <= 2
    requires Follow(m, root, prefix).Some? && !Present(m[Follow(m, root, prefix).value][i])
    ensures var m' := Install(m, Follow(m, root, prefix).value, i, n);
            && Recursive(m', root, free - {n})
            && Follow(m', root, prefix + [i]) == Some(n)
  {
    var t := Follow(m, root, prefix).value;
    var m' := Install(m, t, i, n);
    InstallPreserves(m, free, t, i, n);
    forall p: seq<Index> | |p| <= 3 && Follow(m', root, p).Some?
      ensures Follow(m', root, p).value == n || Follow(m, root, p) == Follow(m', root, p)
      ensures Follow(m', root, p).value in m' && Follow(m', root, p).value !in free - {n}
    {
      InstallFollow(m, root, free, t, i, n, [], p);
    }
    forall p: seq<Index>, j: Index | |p| <= 2 && Follow(m', root, p).Some? && Present(m'[Follow(m', root, p).value][j])
      ensures IsLink(m'[Follow(m', root, p).value][j])
    {
    }
    LinkBits(m[root][RECURSIVE]);
    PreservedFollow(m, m', root, free, [], prefix);
    FollowSnoc(m', root, prefix, i);
  }

  // ---------------------------------------------------------------------------------------------
  // Levels

  // Every table has one level, and a present entry above level 1 leads one level down. The one
  // exception is the recursive slot.
  ghost predicate Levelled(m: Memory, root: Frame, level: map<Frame, nat>)
  {
    && root in level
    && (forall t :: t in level ==> t in m && 1 <= level[t] <= 4 && (level[t] == 4 <==> t == root))
    && (forall t: Frame, i: Index ::
          t in level && level[t] >= 2 && Present(m[t][i]) && !(t == root && i == RECURSIVE) ==>
            IsLink(m[t][i]) && m[t][i].frame in level && level[m[t][i].frame] == level[t] - 1)
  }

  ghost predicate LevelledOutside(m: Memory, root: Frame, level: map<Frame, nat>, free: set<Frame>)
  {
    Levelled(m, root, level) && forall t :: t in level ==> t !in free
  }

  // No table serves two levels apart from the recursive slot, and no table is free.
  ghost predicate Separated(m: Memory, root: Frame, free: set<Frame>)
  {
    && root in m && IsLink(m[root][RECURSIVE]) && m[root][RECURSIVE].frame == root
    && free <= m.Keys
    && exists level: map<Frame, nat> :: LevelledOutside(m, root, level, free)
  }

  lemma {:induction false} LevelBelow(m: Memory, root: Frame, level: map<Frame, nat>, t: Frame, p: seq<Index>)
    requires Levelled(m, root, level) && t in level && t != root && |p| < level[t]
    requires Follow(m, t, p).Some?
    ensures Follow(m, t, p).value in level && level[Follow(m, t, p).value] == level[t] - |p|
    decreases |p|
  {
    if p != [] {
      LinkBits(m[t][p[0]]);
      LevelBelow(m, root, level, m[t][p[0]].frame, p[1..]);
    }
  }

  lemma {:induction false} LevelOfPath(m: Memory, root: Frame, level: map<Frame, nat>, p: seq<Index>)
    requires Levelled(m, root, level) && m[root][RECURSIVE].frame == root && |p| <= 3 && Follow(m, root, p).Some?
    ensures Follow(m, root, p).value in level && level[Follow(m, root, p).value] >= 4 - |p|
    ensures p == [] || p[0] != RECURSIVE ==> level[Follow(m, root, p).value] == 4 - |p|
    decreases |p|
  {
    if p != [] {
      LinkBits(m[root][p[0]]);
      if p[0] == RECURSIVE {
        LevelOfPath(m, root, level, p[1..]);
      } else {
        LevelBelow(m, root, level, m[root][p[0]].frame, p[1..]);
      }
    }
  }

  lemma SeparatedIsRecursive(m: Memory, root: Frame, free: set<Frame>)
    requires Separated(m, root, free)
    ensures Recursive(m, root, free)
  {
    var level: map<Frame, nat> :| LevelledOutside(m, root, level, free);
    forall p: seq<Index> | |p| <= 3 && Follow(m, root, p).Some?
      ensures Follow(m, root, p).value in level && level[Follow(m, root, p).value] >= 4 - |p|
    {
      LevelOfPath(m, root, level, p);
    }
  }

  lemma InstallKeepsSeparated(m: Memory, root: Frame, free: set<Frame>, prefix: seq<Index>, i: Index, n: Frame)
    requires Separated(m, root, free) && n in free && |prefix| <= 2
    requires Follow(m, root, prefix).Some? && Follow(m, root, prefix).value in m
    requires !Present(m[Follow(m, root, prefix).value][i])
    ensures Separated(Install(m, Follow(m, root, prefix).value, i, n), root, free - {n})
  {
    var t := Follow(m, root, prefix).value;
    var m' := Install(m, t, i, n);
    var level: map<Frame, nat> :| LevelledOutside(m, root, level, free);
    LevelOfPath(m, root, level, prefix);
    LinkBits(m[root][RECURSIVE]);
    var level' := level[n := level[t] - 1];
    assert LevelledOutside(m', root, level', free - {n});
  }

  // ---------------------------------------------------------------------------------------------
  // Writing a leaf

  function SetEntry(m: Memory, t: Frame, i: Index, e: Entry): Memory
    requires t in m
  {
    m[t := m[t][i := e]]
  }

  // The table that holds the leaf of `path`, when all links to it exist.
  ghost predicate LeafAbsent(m: Memory, root: Frame, path: seq<Index>, t: Frame)
  {
    |path| == 4 && Follow(m, root, path[..3]) == Some(t) && t in m && !Present(m[t][path[3]])
  }

  lemma LeafPreserves(m: Memory, free: set<Frame>, t: Frame, i: Index, e: Entry)
    requires t in m && !Present(m[t][i])
    ensures Preserves(m, SetEntry(m, t, i, e), free)
  {
  }

  lemma LeafTranslates(m: Memory, root: Frame, free: set<Frame>, path: seq<Index>, t: Frame, e: Entry)
    requires Recursive(m, root, free) && LeafAbsent(m, root, path, t)
    ensures Walk(m, root, path) == Fault
    ensures Walk(SetEntry(m, t, path[3], e), root, path) == if Present(e) then Page(e.frame, Writable(e)) else Fault
    ensures Follow(SetEntry(m, t, path[3], e), root, path[..3]) == Some(t)
  {
    var m' := SetEntry(m, t, path[3], e);
    WalkIsFollow(m, root, free, path);
    LeafPreserves(m, free, t, path[3], e);
    PreservedFollow(m, m', root, free, [], path[..3]);
    WalkAfterFollow(m', root, path[..3], [path[3]]);
    assert path == path[..3] + [path[3]];
  }

  lemma LeafKeepsSeparated(m: Memory, root: Frame, free: set<Frame>, path: seq<Index>, t: Frame, e: Entry)
    requires Separated(m, root, free) && LeafAbsent(m, root, path, t)
    requires path[0] != RECURSIVE || !Present(e)
    ensures Separated(SetEntry(m, t, path[3], e), root, free)
  {
    var m' := SetEntry(m, t, path[3], e);
    var level: map<Frame, nat> :| LevelledOutside(m, root, level, free);
    LevelOfPath(m, root, level, path[..3]);
    LinkBits(m[root][RECURSIVE]);
    assert LevelledOutside(m', root, level, free);
  }

  // ---------------------------------------------------------------------------------------------
  // Nothing else becomes mapped

  lemma InstallMapsNothing(m: Memory, root: Frame, free: set<Frame>, prefix: seq<Index>, i: Index,
                           n: Frame, q: seq<Index>)
    requires Separated(m, root, free) && Recursive(m, root, free) && n in free && |prefix| <= 2
    requires Follow(m, root, prefix).Some? && !Present(m[Follow(m, root, prefix).value][i])
    requires |q| == 4 && q[0] != RECURSIVE
    requires Walk(Install(m, Follow(m, root, prefix).value, i, n), root, q).Page?
    ensures Walk(m, root, q).Page?
  {
    var t := Follow(m, root, prefix).value;
    var m' := Install(m, t, i, n);
    InstallKeepsRecursive(m, root, free, prefix, i, n);
    WalkIsFollow(m', root, free - {n}, q);
    WalkIsFollow(m, root, free, q);
    InstallFollow(m, root, free, t, i, n, [], q[..3]);
    var level: map<Frame, nat> :| LevelledOutside(m, root, level, free);
    LevelOfPath(m, root, level, prefix);
    if Follow(m, root, q[..3]).Some? {
      LevelOfPath(m, root, level, q[..3]);
    }
  }

  lemma LeafMapsOneSlot(m: Memory, root: Frame, free: set<Frame>, path: seq<Index>, t: Frame, e: Entry, q: seq<Index>)
    requires Separated(m, root, free) && Recursive(m, root, free) && LeafAbsent(m, root, path, t)
    requires path[0] != RECURSIVE && |q| == 4 && q[0] != RECURSIVE
    requires Walk(m, root, q) == Fault && Walk(SetEntry(m, t, path[3], e), root, q).Page?
    ensures Follow(SetEntry(m, t, path[3], e), root, q[..3]) == Some(t) && q[3] == path[3]
  {
    var m' := SetEntry(m, t, path[3], e);
    LeafKeepsSeparated(m, root, free, path, t, e);
    SeparatedIsRecursive(m', root, free);
    WalkIsFollow(m, root, free, q);
    WalkIsFollow(m', root, free, q);
    var level: map<Frame, nat> :| LevelledOutside(m, root, level, free);
    LevelOfPath(m, root, level, path[..3]);
    LeafChangesNoLink(m, root, level, t, path[3], e, root, q[..3]);
  }

  lemma {:induction false} LeafChangesNoLink(m: Memory, root: Frame, level: map<Frame, nat>, t: Frame, i: Index,
                                             e: Entry, s: Frame, p: seq<Index>)
    requires Levelled(m, root, level) && t in level && level[t] == 1
    requires s in level && |p| < level[s] && (s == root && p != [] ==> p[0] != RECURSIVE)
    ensures Follow(SetEntry(m, t, i, e), s, p) == Follow(m, s, p)
    decreases |p|
  {
    if p != [] {
      var m' := SetEntry(m, t, i, e);
      LinkBits(m[s][p[0]]);
      assert m'[s] == m[s];
      if IsLink(m[s][p[0]]) {
        LeafChangesNoLink(m, root, level, t, i, e, m[s][p[0]].frame, p[1..]);
      }
    }
  }

  // ---------------------------------------------------------------------------------------------
  // Frame accounting

  // How many of the three intermediate tables of `path` do not exist yet.
  function Missing(m: Memory, root: Frame, path: seq<Index>): (n: nat)
    requires |path| == 4
    ensures n <= 3
  {
    if Follow(m, root, path[..1]).None? then 3
    else if Follow(m, root, path[..2]).None? then 2
    else if Follow(m, root, path[..3]).None? then 1
    else 0
  }

  // ---------------------------------------------------------------------------------------------
  // One level of map_page: create the table behind prefix + [e] unless it exists

  datatype State = State(mem: Memory, free: set<Frame>)

  ghost predicate Ensured(a: State, b: State, root: Frame, prefix: seq<Index>, e: Index, n: Frame)
  {
    match Follow(a.mem, root, prefix)
    case None => false
    case Some(t) =>
      if Follow(a.mem, root, prefix + [e]).Some? then b == a
      else && IsLowest(n, a.free) && t in a.mem && !Present(a.mem[t][e])
           && b == State(Install(a.mem, t, e, n), a.free - {n})
  }

  ghost predicate IsLowest(n: Frame, free: set<Frame>)
  {
    n in free && forall g :: g in free ==> n <= g
  }

  // The frames taken lie below all that are left.
  ghost predicate TakesLowest(before: set<Frame>, after: set<Frame>)
  {
    after <= before && forall g, h :: g in before && g !in after && h in after ==> g < h
  }

  lemma LowestCompose(a: set<Frame>, b: set<Frame>, c: set<Frame>)
    requires TakesLowest(a, b) && TakesLowest(b, c)
    ensures TakesLowest(a, c)
  {
    forall g, h | g in a && g !in c && h in c
      ensures g < h
    {
      if g in b {
        assert g < h;
      } else {
        assert h in b;
      }
    }
  }

  // A table that the root reaches.
  ghost predicate IsTable(m: Memory, root: Frame, f: Frame)
  {
    exists p: seq<Index> :: |p| <= 3 && Follow(m, root, p) == Some(f)
  }

  // Only words of page tables and of frames that were free may differ.
  ghost predicate TouchesTablesOnly(a: State, m': Memory, root: Frame)
  {
    && m'.Keys == a.mem.Keys
    && forall f :: f in a.mem && f !in a.free && !IsTable(a.mem, root, f) ==> m'[f] == a.mem[f]
  }

  // Every frame that went from free to used is a page table now.
  ghost predicate TakenAreTables(a: State, b: State, root: Frame)
  {
    forall f :: f in a.free && f !in b.free ==> IsTable(b.mem, root, f)
  }

  // Outside the recursive window nothing becomes mapped.
  ghost predicate MapsNothing(m: Memory, m': Memory, root: Frame)
  {
    forall q: seq<Index> :: |q| == 4 && q[0] != RECURSIVE && Walk(m', root, q).Page? ==> Walk(m, root, q).Page?
  }

  lemma EnsuredKeeps(a: State, b: State, root: Frame, prefix: seq<Index>, e: Index, n: Frame)
    requires Recursive(a.mem, root, a.free) && |prefix| <= 2 && Ensured(a, b, root, prefix, e, n)
    ensures Recursive(b.mem, root, b.free) && Preserves(a.mem, b.mem, a.free)
    ensures Follow(b.mem, root, prefix + [e]).Some?
    ensures Separated(a.mem, root, a.free) ==> Separated(b.mem, root, b.free) && MapsNothing(a.mem, b.mem, root)
  {
    if Follow(a.mem, root, prefix + [e]).None? {
      var t := Follow(a.mem, root, prefix).value;
      InstallPreserves(a.mem, a.free, t, e, n);
      InstallKeepsRecursive(a.mem, root, a.free, prefix, e, n);
      if Separated(a.mem, root, a.free) {
        InstallKeepsSeparated(a.mem, root, a.free, prefix, e, n);
        forall q: seq<Index> | |q| == 4 && q[0] != RECURSIVE && Walk(b.mem, root, q).Page?
          ensures Walk(a.mem, root, q).Page?
        {
          InstallMapsNothing(a.mem, root, a.free, prefix, e, n, q);
        }
      }
    }
  }

  // Any path outside the window that a step from a to b opened ends in a frame that was free, behind the
  // same slot as `path` itself.
  ghost predicate LinksOnlyPathOf(a: State, b: State, root: Frame, path: seq<Index>)
    requires |path| >= 3
  {
    forall q: seq<Index> ::
      1 <= |q| <= 3 && q[0] != RECURSIVE && Follow(a.mem, root, q).None? && Follow(b.mem, root, q).Some? ==>
        OpenedBy(a, b, root, path, q)
  }

  ghost predicate OpenedBy(a: State, b: State, root: Frame, path: seq<Index>, q: seq<Index>)
    requires |path| >= 3 && 1 <= |q| <= 3
  {
    && Follow(b.mem, root, q).Some? && Follow(b.mem, root, q).value in a.free && Follow(b.mem, root, q).value !in b.free
    && Follow(b.mem, root, q[..|q| - 1]).Some?
    && Follow(b.mem, root, q[..|q| - 1]) == Follow(b.mem, root, path[..|q| - 1])
    && q[|q| - 1] == path[|q| - 1]
  }

  lemma InstallOpens(a: State, root: Frame, path: seq<Index>, k: nat, n: Frame, q: seq<Index>)
    requires |path| == 4 && k <= 2 && Separated(a.mem, root, a.free) && Recursive(a.mem, root, a.free) && n in a.free
    requires Follow(a.mem, root, path[..k]).Some? && !Present(a.mem[Follow(a.mem, root, path[..k]).value][path[k]])
    requires path[0] != RECURSIVE && 1 <= |q| <= 3 && q[0] != RECURSIVE
    requires var b := State(Install(a.mem, Follow(a.mem, root, path[..k]).value, path[k], n), a.free - {n});
             Follow(a.mem, root, q).None? && Follow(b.mem, root, q).Some?
    ensures var b := State(Install(a.mem, Follow(a.mem, root, path[..k]).value, path[k], n), a.free - {n});
            OpenedBy(a, b, root, path, q)
  {
    hide Separated, Preserves;
    var t, i := Follow(a.mem, root, path[..k]).value, path[k];
    var m' := Install(a.mem, t, i, n);
    var parent, x := q[..|q| - 1], q[|q| - 1];
    InstallFollow(a.mem, root, a.free, t, i, n, [], q);
    InstallPreserves(a.mem, a.free, t, i, n);
    assert q == parent + [x];
    FollowConcat(m', root, parent, [x]);
    InstallFollow(a.mem, root, a.free, t, i, n, [], parent);
    var s := Follow(m', root, parent).value;
    FollowSnoc(m', root, parent, x);
    assert s != n;
    FollowSnoc(a.mem, root, parent, x);
    assert s == t && x == i;
    SameLevel(a.mem, root, a.free, parent, path[..k]);
    PreservedFollow(a.mem, m', root, a.free, [], path[..k]);
  }

  // Two paths outside the window that reach the same table are equally long.
  lemma SameLevel(m: Memory, root: Frame, free: set<Frame>, p: seq<Index>, q: seq<Index>)
    requires Separated(m, root, free) && |p| <= 3 && |q| <= 3
    requires p == [] || p[0] != RECURSIVE
    requires q == [] || q[0] != RECURSIVE
    requires Follow(m, root, p).Some? && Follow(m, root, p) == Follow(m, root, q)
    ensures |p| == |q|
  {
    var level: map<Frame, nat> :| LevelledOutside(m, root, level, free);
    LevelOfPath(m, root, level, p);
    LevelOfPath(m, root, level, q);
  }

  lemma EnsuredOpens(a: State, b: State, root: Frame, path: seq<Index>, k: nat, n: Frame)
    requires |path| == 4 && k <= 2 && path[0] != RECURSIVE
    requires Separated(a.mem, root, a.free) && Recursive(a.mem, root, a.free)
    requires Ensured(a, b, root, path[..k], path[k], n)
    ensures LinksOnlyPathOf(a, b, root, path)
  {
    forall q: seq<Index> | 1 <= |q| <= 3 && q[0] != RECURSIVE && Follow(a.mem, root, q).None?
        && Follow(b.mem, root, q).Some?
      ensures OpenedBy(a, b, root, path, q)
    {
      InstallOpens(a, root, path, k, n, q);
    }
  }

  lemma OpensCompose(a: State, b: State, c: State, root: Frame, path: seq<Index>)
    requires |path| == 4 && Recursive(b.mem, root, b.free) && Preserves(b.mem, c.mem, b.free)
    requires b.free <= a.free && c.free <= b.free
    requires LinksOnlyPathOf(a, b, root, path) && LinksOnlyPathOf(b, c, root, path)
    ensures LinksOnlyPathOf(a, c, root, path)
  {
    forall q: seq<Index> | 1 <= |q| <= 3 && q[0] != RECURSIVE && Follow(a.mem, root, q).None?
        && Follow(c.mem, root, q).Some?
      ensures OpenedBy(a, c, root, path, q)
    {
      if Follow(b.mem, root, q).Some? {
        PreservedFollow(b.mem, c.mem, root, b.free, [], q);
        PreservedFollow(b.mem, c.mem, root, b.free, [], q[..|q| - 1]);
        PreservedFollow(b.mem, c.mem, root, b.free, [], path[..|q| - 1]);
      }
    }
  }

  // A table that was just created is empty.
  lemma EnsuredIsEmpty(a: State, b: State, root: Frame, prefix: seq<Index>, e: Index, n: Frame, x: Index)
    requires Recursive(a.mem, root, a.free) && |prefix| <= 2 && Ensured(a, b, root, prefix, e, n)
    requires Follow(a.mem, root, prefix + [e]).None?
    ensures Follow(b.mem, root, prefix + [e] + [x]) == None
  {
    InstallKeepsRecursive(a.mem, root, a.free, prefix, e, n);
    FollowSnoc(b.mem, root, prefix + [e], x);
  }

  lemma EnsuredTouches(a: State, b: State, root: Frame, prefix: seq<Index>, e: Index, n: Frame, f: Frame)
    requires Recursive(a.mem, root, a.free) && |prefix| <= 2 && Ensured(a, b, root, prefix, e, n)
    requires f in a.mem && f !in a.free && !IsTable(a.mem, root, f)
    ensures b.mem[f] == a.mem[f] && f !in b.free && !IsTable(b.mem, root, f)
  {
    var t := Follow(a.mem, root, prefix).value;
    assert IsTable(a.mem, root, t);
    if Follow(a.mem, root, prefix + [e]).None? && IsTable(b.mem, root, f) {
      var p: seq<Index> :| |p| <= 3 && Follow(b.mem, root, p) == Some(f);
      InstallFollow(a.mem, root, a.free, t, e, n, [], p);
    }
  }

  // Three levels in a row.
  ghost predicate EnsuredPath(s0: State, s1: State, s2: State, s3: State, root: Frame, path: seq<Index>, n: seq<Frame>)
  {
    && |path| == 4 && |n| == 3
    && Ensured(s0, s1, root, [], path[0], n[0])
    && Ensured(s1, s2, root, path[..1], path[1], n[1])
    && Ensured(s2, s3, root, path[..2], path[2], n[2])
  }

  lemma EnsuredPathKeeps(s0: State, s1: State, s2: State, s3: State, root: Frame, path: seq<Index>, n: seq<Frame>)
    requires Recursive(s0.mem, root, s0.free) && EnsuredPath(s0, s1, s2, s3, root, path, n)
    ensures Recursive(s3.mem, root, s3.free) && Preserves(s0.mem, s3.mem, s0.free) && s3.free <= s0.free
    ensures Follow(s3.mem, root, path[..3]).Some?
    ensures Separated(s0.mem, root, s0.free) ==> Separated(s3.mem, root, s3.free) && MapsNothing(s0.mem, s3.mem, root)
  {
    hide Recursive, Separated;
    assert [] + [path[0]] == path[..1] && path[..1] + [path[1]] == path[..2] && path[..2] + [path[2]] == path[..3];
    EnsuredKeeps(s0, s1, root, [], path[0], n[0]);
    EnsuredKeeps(s1, s2, root, path[..1], path[1], n[1]);
    EnsuredKeeps(s2, s3, root, path[..2], path[2], n[2]);
  }

  lemma EnsuredPathTouches(s0: State, s1: State, s2: State, s3: State, root: Frame, path: seq<Index>, n: seq<Frame>)
    requires Recursive(s0.mem, root, s0.free) && EnsuredPath(s0, s1, s2, s3, root, path, n)
    ensures forall f :: f in s0.mem && f !in s0.free && !IsTable(s0.mem, root, f) ==>
              s3.mem[f] == s0.mem[f] && !IsTable(s3.mem, root, f)
  {
    EnsuredKeeps(s0, s1, root, [], path[0], n[0]);
    EnsuredKeeps(s1, s2, root, path[..1], path[1], n[1]);
    forall f | f in s0.mem && f !in s0.free && !IsTable(s0.mem, root, f)
      ensures s3.mem[f] == s0.mem[f] && !IsTable(s3.mem, root, f)
    {
      EnsuredTouches(s0, s1, root, [], path[0], n[0], f);
      EnsuredTouches(s1, s2, root, path[..1], path[1], n[1], f);
      EnsuredTouches(s2, s3, root, path[..2], path[2], n[2], f);
    }
  }

  lemma EnsuredTakes(a: State, b: State, root: Frame, prefix: seq<Index>, e: Index, n: Frame)
    requires Recursive(a.mem, root, a.free) && |prefix| <= 2 && Ensured(a, b, root, prefix, e, n)
    ensures TakenAreTables(a, b, root)
  {
    if Follow(a.mem, root, prefix + [e]).None? {
      InstallKeepsRecursive(a.mem, root, a.free, prefix, e, n);
      assert Follow(b.mem, root, prefix + [e]) == Some(n);
    }
  }

  lemma TakenCompose(a: State, b: State, c: State, root: Frame)
    requires Recursive(b.mem, root, b.free) && Preserves(b.mem, c.mem, b.free)
    requires TakenAreTables(a, b, root) && TakenAreTables(b, c, root)
    ensures TakenAreTables(a, c, root)
  {
    forall f | f in a.free && f !in c.free
      ensures IsTable(c.mem, root, f)
    {
      if f !in b.free {
        var p: seq<Index> :| |p| <= 3 && Follow(b.mem, root, p) == Some(f);
        PreservedFollow(b.mem, c.mem, root, b.free, [], p);
      }
    }
  }

  lemma EnsuredPathTakes(s0: State, s1: State, s2: State, s3: State, s: State, root: Frame,
                         path: seq<Index>, n: seq<Frame>)
    requires Recursive(s0.mem, root, s0.free) && EnsuredPath(s0, s1, s2, s3, root, path, n)
    requires Preserves(s3.mem, s.mem, s3.free) && s.free == s3.free
    ensures TakenAreTables(s0, s, root)
  {
    EnsuredKeeps(s0, s1, root, [], path[0], n[0]);
    EnsuredKeeps(s1, s2, root, path[..1], path[1], n[1]);
    EnsuredKeeps(s2, s3, root, path[..2], path[2], n[2]);
    EnsuredTakes(s0, s1, root, [], path[0], n[0]);
    EnsuredTakes(s1, s2, root, path[..1], path[1], n[1]);
    EnsuredTakes(s2, s3, root, path[..2], path[2], n[2]);
    TakenCompose(s0, s1, s2, root);
    TakenCompose(s0, s2, s3, root);
    TakenCompose(s0, s3, s, root);
  }

  lemma EnsuredLowest(a: State, b: State, root: Frame, prefix: seq<Index>, e: Index, n: Frame)
    requires Ensured(a, b, root, prefix, e, n)
    ensures TakesLowest(a.free, b.free)
  {
  }

  lemma EnsuredPathLowest(s0: State, s1: State, s2: State, s3: State, root: Frame, path: seq<Index>, n: seq<Frame>)
    requires EnsuredPath(s0, s1, s2, s3, root, path, n)
    ensures TakesLowest(s0.free, s3.free)
  {
    EnsuredLowest(s0, s1, root, [], path[0], n[0]);
    EnsuredLowest(s1, s2, root, path[..1], path[1], n[1]);
    EnsuredLowest(s2, s3, root, path[..2], path[2], n[2]);
    LowestCompose(s0.free, s1.free, s2.free);
    LowestCompose(s0.free, s2.free, s3.free);
  }

  // With as many free frames as missing levels, each level that is still missing finds one.
  lemma EnoughForSecond(s0: State, s1: State, root: Frame, path: seq<Index>, n: Frame)
    requires |path| == 4 && Ensured(s0, s1, root, [], path[0], n) && Missing(s0.mem, root, path) <= |s0.free|
    requires Follow(s1.mem, root, path[..2]).None?
    ensures |s1.free| >= 2
  {
    assert [] + [path[0]] == path[..1];
  }

  lemma EnoughForThird(s0: State, s1: State, s2: State, root: Frame, path: seq<Index>, n: seq<Frame>)
    requires |path| == 4 && |n| == 3 && Missing(s0.mem, root, path) <= |s0.free|
    requires Ensured(s0, s1, root, [], path[0], n[0]) && Ensured(s1, s2, root, path[..1], path[1], n[1])
    requires Follow(s2.mem, root, path[..3]).None?
    ensures s2.free != {}
  {
    assert [] + [path[0]] == path[..1] && path[..1] + [path[1]] == path[..2];
    if Follow(s1.mem, root, path[..2]).None? {
      EnoughForSecond(s0, s1, root, path, n[0]);
    }
  }

  lemma EnsuredPathOpens(s0: State, s1: State, s2: State, s3: State, root: Frame, path: seq<Index>, n: seq<Frame>)
    requires Recursive(s0.mem, root, s0.free) && Separated(s0.mem, root, s0.free) && path != [] && path[0] != RECURSIVE
    requires EnsuredPath(s0, s1, s2, s3, root, path, n)
    ensures LinksOnlyPathOf(s0, s3, root, path)
  {
    hide Recursive, Separated, LinksOnlyPathOf, Preserves, MapsNothing;
    EnsuredKeeps(s0, s1, root, [], path[0], n[0]);
    EnsuredKeeps(s1, s2, root, path[..1], path[1], n[1]);
    EnsuredKeeps(s2, s3, root, path[..2], path[2], n[2]);
    EnsuredOpens(s0, s1, root, path, 0, n[0]);
    EnsuredOpens(s1, s2, root, path, 1, n[1]);
    EnsuredOpens(s2, s3, root, path, 2, n[2]);
    OpensCompose(s0, s1, s2, root, path);
    OpensCompose(s0, s2, s3, root, path);
  }

  // map_page takes one frame for every missing level.
  lemma EnsuredPathCounts(s0: State, s1: State, s2: State, s3: State, root: Frame, path: seq<Index>, n: seq<Frame>)
    requires Recursive(s0.mem, root, s0.free) && EnsuredPath(s0, s1, s2, s3, root, path, n)
    ensures |s0.free| == |s3.free| + Missing(s0.mem, root, path)
  {
    assert [] + [path[0]] == path[..1] && path[..1] + [path[1]] == path[..2] && path[..2] + [path[2]] == path[..3];
    EnsuredKeeps(s0, s1, root, [], path[0], n[0]);
    EnsuredKeeps(s1, s2, root, path[..1], path[1], n[1]);
    if Follow(s0.mem, root, path[..1]).None? {
      EnsuredIsEmpty(s0, s1, root, [], path[0], n[0], path[1]);
    }
    if Follow(s1.mem, root, path[..2]).None? {
      EnsuredIsEmpty(s1, s2, root, path[..1], path[1], n[1], path[2]);
    }
  }

  // ---------------------------------------------------------------------------------------------
  // Which words map_page writes

  // The way along `path` leads through slot i of g.
  ghost predicate OnPath(m: Memory, root: Frame, path: seq<Index>, g: Frame, i: Index)
    requires |path| == 4
  {
    exists k :: 0 <= k <= 3 && Follow(m, root, path[..k]) == Some(g) && path[k] == i
  }

  // Off the path new tables are clear, and every other word is as it was.
  ghost predicate WritesPathOnly(a: State, b: State, root: Frame, path: seq<Index>)
    requires |path| == 4
  {
    && b.mem.Keys == a.mem.Keys
    && forall g: Frame, i: Index :: g in a.mem && !OnPath(b.mem, root, path, g, i) ==>
         b.mem[g][i] == if g in a.free && g !in b.free then EMPTY else a.mem[g][i]
  }

  // The k-th table on the way is linked with PRESENT and RW, if it is new.
  ghost predicate LinkIsPlain(a: State, b: State, root: Frame, path: seq<Index>, k: nat)
    requires |path| == 4 && k <= 2
  {
    Follow(a.mem, root, path[..k + 1]).None? && Follow(b.mem, root, path[..k + 1]).Some? ==>
      && Follow(b.mem, root, path[..k]).Some? && Follow(b.mem, root, path[..k]).value in b.mem
      && b.mem[Follow(b.mem, root, path[..k]).value][path[k]] == Link(Follow(b.mem, root, path[..k + 1]).value)
  }

  ghost predicate LinksArePlain(a: State, b: State, root: Frame, path: seq<Index>)
    requires |path| == 4
  {
    LinkIsPlain(a, b, root, path, 0) && LinkIsPlain(a, b, root, path, 1) && LinkIsPlain(a, b, root, path, 2)
  }

  lemma NothingWritten(s: State, root: Frame, path: seq<Index>)
    requires |path| == 4
    ensures WritesPathOnly(s, s, root, path) && LinksArePlain(s, s, root, path)
  {
  }

  lemma EnsuredWrites(a: State, b: State, root: Frame, path: seq<Index>, k: nat, n: Frame)
    requires |path| == 4 && k <= 2 && Recursive(a.mem, root, a.free) && Ensured(a, b, root, path[..k], path[k], n)
    ensures WritesPathOnly(a, b, root, path) && LinkIsPlain(a, b, root, path, k)
    ensures forall j: nat :: j <= 2 && j != k ==> LinkIsPlain(a, b, root, path, j)
  {
    assert path[..k] + [path[k]] == path[..k + 1];
    if Follow(a.mem, root, path[..k + 1]).None? {
      var t := Follow(a.mem, root, path[..k]).value;
      InstallPreserves(a.mem, a.free, t, path[k], n);
      PreservedFollow(a.mem, b.mem, root, a.free, [], path[..k]);
      InstallKeepsRecursive(a.mem, root, a.free, path[..k], path[k], n);
      hide Recursive;
      forall j: nat | j <= 2 && j != k
        ensures LinkIsPlain(a, b, root, path, j)
      {
        InstallOnlyLinks(a, root, path, k, j, n);
      }
    }
  }

  // The new table is empty, so no longer path can be followed; shorter ones could be before.
  lemma InstallOnlyLinks(a: State, root: Frame, path: seq<Index>, k: nat, j: nat, n: Frame)
    requires |path| == 4 && k <= 2 && j <= 2 && j != k && Recursive(a.mem, root, a.free) && n in a.free
    requires Follow(a.mem, root, path[..k]).Some? && Follow(a.mem, root, path[..k]).value in a.mem
    requires !Present(a.mem[Follow(a.mem, root, path[..k]).value][path[k]])
    ensures var b := State(Install(a.mem, Follow(a.mem, root, path[..k]).value, path[k], n), a.free - {n});
            LinkIsPlain(a, b, root, path, j)
  {
    hide Recursive;
    var m' := Install(a.mem, Follow(a.mem, root, path[..k]).value, path[k], n);
    if j < k {
      assert path[..k] == path[..j + 1] + path[j + 1..k];
      FollowConcat(a.mem, root, path[..j + 1], path[j + 1..k]);
    } else {
      InstallKeepsRecursive(a.mem, root, a.free, path[..k], path[k], n);
      assert path[..k] + [path[k]] == path[..k + 1];
      assert path[..j + 1] == path[..k + 1] + path[k + 1..j + 1];
      FollowConcat(m', root, path[..k + 1], path[k + 1..j + 1]);
    }
  }

  lemma WritesCompose(a: State, b: State, c: State, root: Frame, path: seq<Index>)
    requires |path| == 4 && Recursive(b.mem, root, b.free) && Preserves(b.mem, c.mem, b.free)
    requires c.free <= b.free <= a.free && WritesPathOnly(a, b, root, path) && WritesPathOnly(b, c, root, path)
    ensures WritesPathOnly(a, c, root, path)
  {
    hide Recursive, Preserves;
    forall g: Frame, i: Index | g in a.mem && !OnPath(c.mem, root, path, g, i)
      ensures !OnPath(b.mem, root, path, g, i)
    {
      if OnPath(b.mem, root, path, g, i) {
        var k :| 0 <= k <= 3 && Follow(b.mem, root, path[..k]) == Some(g) && path[k] == i;
        assert Follow(b.mem, root, []) == Some(root);
        PreservedFollow(b.mem, c.mem, root, b.free, [], path[..k]);
      }
    }
  }

  lemma LinksCompose(a: State, b: State, c: State, root: Frame, path: seq<Index>, k: nat)
    requires |path| == 4 && k <= 2 && Recursive(b.mem, root, b.free) && Preserves(b.mem, c.mem, b.free)
    requires LinkIsPlain(a, b, root, path, k) && LinkIsPlain(b, c, root, path, k)
    ensures LinkIsPlain(a, c, root, path, k)
  {
    assert Follow(b.mem, root, []) == Some(root);
    if Follow(a.mem, root, path[..k + 1]).None? && Follow(b.mem, root, path[..k + 1]).Some? {
      PreservedFollow(b.mem, c.mem, root, b.free, [], path[..k + 1]);
      PreservedFollow(b.mem, c.mem, root, b.free, [], path[..k]);
    }
  }

  lemma AllCompose(a: State, b: State, c: State, root: Frame, path: seq<Index>)
    requires |path| == 4 && Recursive(b.mem, root, b.free) && Preserves(b.mem, c.mem, b.free)
    requires c.free <= b.free <= a.free && WritesPathOnly(a, b, root, path) && WritesPathOnly(b, c, root, path)
    requires LinksArePlain(a, b, root, path) && LinksArePlain(b, c, root, path)
    ensures WritesPathOnly(a, c, root, path) && LinksArePlain(a, c, root, path)
  {
    hide Recursive, Preserves, WritesPathOnly, LinkIsPlain;
    WritesCompose(a, b, c, root, path);
    LinksCompose(a, b, c, root, path, 0);
    LinksCompose(a, b, c, root, path, 1);
    LinksCompose(a, b, c, root, path, 2);
  }

  lemma EnsuredPathWrites(s0: State, s1: State, s2: State, s3: State, root: Frame, path: seq<Index>, n: seq<Frame>)
    requires Recursive(s0.mem, root, s0.free) && EnsuredPath(s0, s1, s2, s3, root, path, n)
    ensures WritesPathOnly(s0, s3, root, path) && LinksArePlain(s0, s3, root, path)
  {
    hide Recursive, Preserves, WritesPathOnly, LinkIsPlain;
    assert path[..0] == [];
    EnsuredKeeps(s0, s1, root, [], path[0], n[0]);
    EnsuredKeeps(s1, s2, root, path[..1], path[1], n[1]);
    EnsuredKeeps(s2, s3, root, path[..2], path[2], n[2]);
    EnsuredWrites(s0, s1, root, path, 0, n[0]);
    EnsuredWrites(s1, s2, root, path, 1, n[1]);
    EnsuredWrites(s2, s3, root, path, 2, n[2]);
    AllCompose(s0, s1, s2, root, path);
    AllCompose(s0, s2, s3, root, path);
  }

  // The leaf is one slot on the path more.
  lemma LeafWrites(s0: State, s1: State, s2: State, s3: State, root: Frame, path: seq<Index>, n: seq<Frame>,
                   t: Frame, e: Entry)
    requires Recursive(s0.mem, root, s0.free) && EnsuredPath(s0, s1, s2, s3, root, path, n)
    requires LeafAbsent(s3.mem, root, path, t)
    ensures var s := State(SetEntry(s3.mem, t, path[3], e), s3.free);
            && WritesPathOnly(s0, s, root, path) && LinksArePlain(s0, s, root, path)
            && LeafIs(s.mem, root, path, e)
  {
    hide Recursive, EnsuredPath, LinkIsPlain, Preserves;
    var s := State(SetEntry(s3.mem, t, path[3], e), s3.free);
    EnsuredPathKeeps(s0, s1, s2, s3, root, path, n);
    EnsuredPathWrites(s0, s1, s2, s3, root, path, n);
    LeafTranslates(s3.mem, root, s3.free, path, t, e);
    LeafPreserves(s3.mem, s3.free, t, path[3], e);
    assert WritesPathOnly(s3, s, root, path) by {
      assert OnPath(s.mem, root, path, t, path[3]);
    }
    LeafLinks(s3, s, root, path);
    AllCompose(s0, s3, s, root, path);
  }

  // With all tables there no link is new.
  lemma LeafLinks(s3: State, s: State, root: Frame, path: seq<Index>)
    requires |path| == 4 && Follow(s3.mem, root, path[..3]).Some?
    ensures LinksArePlain(s3, s, root, path)
  {
    assert path[..3] == path[..1] + path[1..3] && path[..3] == path[..2] + path[2..3];
    FollowConcat(s3.mem, root, path[..1], path[1..3]);
    FollowConcat(s3.mem, root, path[..2], path[2..3]);
  }

  ghost predicate LeafIs(m: Memory, root: Frame, path: seq<Index>, e: Entry)
    requires |path| == 4
  {
    var t := Follow(m, root, path[..3]);
    t.Some? && t.value in m && m[t.value][path[3]] == e
  }

  // ---------------------------------------------------------------------------------------------
  // The whole of map_page

  // What map_page promises about the memory s0 it started from and the memory and free frames it leaves.
  ghost predicate Mapped(s0: State, s: State, root: Frame, path: seq<Index>, e: Entry)
    requires |path| == 4
  {
    // every older translation survives, the recursive window included
    && KeepsTranslations(s0.mem, s.mem, root)
    // an unmapped page gets exactly the given entry; a mapped one keeps everything as it was
    && (Walk(s0.mem, root, path).Page? ==> s == s0)
    && (Walk(s0.mem, root, path) == Fault ==>
          Walk(s.mem, root, path) == if Present(e) then Page(e.frame, Writable(e)) else Fault)
    && Follow(s.mem, root, path[..3]).Some?
    // one frame per missing level, the lowest ones
    && s.free <= s0.free && |s0.free| == |s.free| + Missing(s0.mem, root, path) && TakesLowest(s0.free, s.free)
    && Preserves(s0.mem, s.mem, s0.free)
    && TakenAreTables(s0, s, root)
    && TouchesTablesOnly(s0, s.mem, root)
    // word by word: new links have PRESENT and RW, the leaf is the entry given, and nothing else changes but that new
    // tables are cleared
    && WritesPathOnly(s0, s, root, path) && LinksArePlain(s0, s, root, path)
    && (Walk(s0.mem, root, path) == Fault ==> LeafIs(s.mem, root, path, e))
    // the invariant survives, and nothing outside the window becomes mapped except through v's own leaf slot
    && (Separated(s0.mem, root, s0.free) && path[0] != RECURSIVE ==>
          && Separated(s.mem, root, s.free)
          && MapsOnlySlotOf(s0.mem, s.mem, root, path)
          && LinksOnlyPathOf(s0, s, root, path))
  }

  ghost predicate MapsOnlySlotOf(m: Memory, m': Memory, root: Frame, path: seq<Index>)
    requires |path| == 4
  {
    forall q: seq<Index> :: |q| == 4 && q[0] != RECURSIVE && Walk(m, root, q) == Fault && Walk(m', root, q).Page? ==>
      Follow(m', root, q[..3]) == Follow(m', root, path[..3]) && q[3] == path[3]
  }

  lemma MappedByLeaf(s0: State, s1: State, s2: State, s3: State, root: Frame, path: seq<Index>, n: seq<Frame>,
                     t: Frame, e: Entry)
    requires Recursive(s0.mem, root, s0.free) && EnsuredPath(s0, s1, s2, s3, root, path, n)
    requires LeafAbsent(s3.mem, root, path, t)
    ensures Mapped(s0, State(SetEntry(s3.mem, t, path[3], e), s3.free), root, path, e)
  {
    hide Recursive, Separated, EnsuredPath, Preserves, SetEntry, KeepsTranslations, TakesLowest, TakenAreTables;
    hide TouchesTablesOnly, MapsOnlySlotOf, LinksOnlyPathOf, Walk, Follow, IsTable, LeafAbsent;
    hide WritesPathOnly, LinksArePlain, LeafIs;
    LeafLength(s3.mem, root, path, t);
    LeafGivesPage(s0, s1, s2, s3, root, path, n, t, e);
    LeafTakesFrames(s0, s1, s2, s3, root, path, n, t, e);
    LeafTouches(s0, s1, s2, s3, root, path, n, t, e);
    LeafWrites(s0, s1, s2, s3, root, path, n, t, e);
    if Separated(s0.mem, root, s0.free) && path[0] != RECURSIVE {
      LeafSeparates(s0, s1, s2, s3, root, path, n, t, e);
    }
  }

  lemma LeafLength(m: Memory, root: Frame, path: seq<Index>, t: Frame)
    requires LeafAbsent(m, root, path, t)
    ensures |path| == 4 && t in m && Follow(m, root, path[..3]) == Some(t)
  {
  }

  // The new page, and the older ones.
  lemma LeafGivesPage(s0: State, s1: State, s2: State, s3: State, root: Frame, path: seq<Index>, n: seq<Frame>,
                      t: Frame, e: Entry)
    requires Recursive(s0.mem, root, s0.free) && EnsuredPath(s0, s1, s2, s3, root, path, n)
    requires LeafAbsent(s3.mem, root, path, t)
    ensures var m' := SetEntry(s3.mem, t, path[3], e);
            && KeepsTranslations(s0.mem, m', root) && Preserves(s0.mem, m', s0.free)
            && Walk(s0.mem, root, path) == Fault && Follow(m', root, path[..3]) == Some(t)
            && Walk(m', root, path) == if Present(e) then Page(e.frame, Writable(e)) else Fault
  {
    var m' := SetEntry(s3.mem, t, path[3], e);
    EnsuredPathKeeps(s0, s1, s2, s3, root, path, n);
    LeafPreserves(s3.mem, s0.free, t, path[3], e);
    PreservedTwice(s0.mem, s3.mem, m', s0.free);
    hide Preserves, EnsuredPath, Recursive;
    PreservedTranslations(s0.mem, m', root, s0.free);
    PreservedTranslations(s0.mem, s3.mem, root, s0.free);
    LeafTranslates(s3.mem, root, s3.free, path, t, e);
  }

  lemma PreservedTwice(m: Memory, m1: Memory, m2: Memory, free: set<Frame>)
    requires Preserves(m, m1, free) && Preserves(m1, m2, free)
    ensures Preserves(m, m2, free)
  {
  }

  lemma LeafTakesFrames(s0: State, s1: State, s2: State, s3: State, root: Frame, path: seq<Index>, n: seq<Frame>,
                        t: Frame, e: Entry)
    requires Recursive(s0.mem, root, s0.free) && EnsuredPath(s0, s1, s2, s3, root, path, n)
    requires LeafAbsent(s3.mem, root, path, t)
    ensures s3.free <= s0.free && |s0.free| == |s3.free| + Missing(s0.mem, root, path) && TakesLowest(s0.free, s3.free)
    ensures TakenAreTables(s0, State(SetEntry(s3.mem, t, path[3], e), s3.free), root)
  {
    hide Recursive, EnsuredPath, Preserves, TakenAreTables;
    EnsuredPathCounts(s0, s1, s2, s3, root, path, n);
    EnsuredPathLowest(s0, s1, s2, s3, root, path, n);
    LeafPreserves(s3.mem, s3.free, t, path[3], e);
    EnsuredPathTakes(s0, s1, s2, s3, State(SetEntry(s3.mem, t, path[3], e), s3.free), root, path, n);
  }

  lemma LeafTouches(s0: State, s1: State, s2: State, s3: State, root: Frame, path: seq<Index>, n: seq<Frame>,
                    t: Frame, e: Entry)
    requires Recursive(s0.mem, root, s0.free) && EnsuredPath(s0, s1, s2, s3, root, path, n)
    requires LeafAbsent(s3.mem, root, path, t)
    ensures TouchesTablesOnly(s0, SetEntry(s3.mem, t, path[3], e), root)
  {
    EnsuredPathKeys(s0, s1, s2, s3, root, path, n);
    hide Recursive, EnsuredPath;
    EnsuredPathTouches(s0, s1, s2, s3, root, path, n);
    assert IsTable(s3.mem, root, t);
  }

  lemma EnsuredPathKeys(s0: State, s1: State, s2: State, s3: State, root: Frame, path: seq<Index>, n: seq<Frame>)
    requires Recursive(s0.mem, root, s0.free) && EnsuredPath(s0, s1, s2, s3, root, path, n)
    ensures s3.mem.Keys == s0.mem.Keys
  {
    hide Recursive, EnsuredPath;
    EnsuredPathKeeps(s0, s1, s2, s3, root, path, n);
  }

  lemma LeafSeparates(s0: State, s1: State, s2: State, s3: State, root: Frame, path: seq<Index>, n: seq<Frame>,
                      t: Frame, e: Entry)
    requires Recursive(s0.mem, root, s0.free) && EnsuredPath(s0, s1, s2, s3, root, path, n)
    requires LeafAbsent(s3.mem, root, path, t) && Separated(s0.mem, root, s0.free) && path[0] != RECURSIVE
    ensures var s := State(SetEntry(s3.mem, t, path[3], e), s3.free);
            && Separated(s.mem, root, s.free) && MapsOnlySlotOf(s0.mem, s.mem, root, path)
            && LinksOnlyPathOf(s0, s, root, path)
  {
    hide Recursive, Separated, EnsuredPath, MapsOnlySlotOf, LinksOnlyPathOf, Preserves;
    EnsuredPathKeeps(s0, s1, s2, s3, root, path, n);
    LeafTranslates(s3.mem, root, s3.free, path, t, e);
    LeafKeepsSeparated(s3.mem, root, s3.free, path, t, e);
    LeafMapsOnlySlot(s0, s3, root, path, t, e);
    EnsuredPathOpens(s0, s1, s2, s3, root, path, n);
    LeafOpensNothing(s0, s3, root, path, t, e);
  }

  lemma LeafKeepsFollow(m: Memory, root: Frame, free: set<Frame>, path: seq<Index>, t: Frame, e: Entry, q: seq<Index>)
    requires Separated(m, root, free) && LeafAbsent(m, root, path, t) && path[0] != RECURSIVE
    requires |q| <= 3 && (q != [] ==> q[0] != RECURSIVE)
    ensures Follow(SetEntry(m, t, path[3], e), root, q) == Follow(m, root, q)
  {
    var level: map<Frame, nat> :| LevelledOutside(m, root, level, free);
    LevelOfPath(m, root, level, path[..3]);
    LeafChangesNoLink(m, root, level, t, path[3], e, root, q);
  }

  lemma LeafOpensNothing(s0: State, s3: State, root: Frame, path: seq<Index>, t: Frame, e: Entry)
    requires Separated(s3.mem, root, s3.free) && LeafAbsent(s3.mem, root, path, t) && path[0] != RECURSIVE
    requires LinksOnlyPathOf(s0, s3, root, path)
    ensures LinksOnlyPathOf(s0, State(SetEntry(s3.mem, t, path[3], e), s3.free), root, path)
  {
    var s := State(SetEntry(s3.mem, t, path[3], e), s3.free);
    forall q: seq<Index> | 1 <= |q| <= 3 && q[0] != RECURSIVE && Follow(s0.mem, root, q).None?
        && Follow(s.mem, root, q).Some?
      ensures OpenedBy(s0, s, root, path, q)
    {
      LeafKeepsFollow(s3.mem, root, s3.free, path, t, e, q);
      LeafKeepsFollow(s3.mem, root, s3.free, path, t, e, q[..|q| - 1]);
      LeafKeepsFollow(s3.mem, root, s3.free, path, t, e, path[..|q| - 1]);
    }
  }

  lemma LeafMapsOnlySlot(s0: State, s3: State, root: Frame, path: seq<Index>, t: Frame, e: Entry)
    requires Separated(s3.mem, root, s3.free) && Recursive(s3.mem, root, s3.free) && MapsNothing(s0.mem, s3.mem, root)
    requires LeafAbsent(s3.mem, root, path, t) && path[0] != RECURSIVE
    requires Follow(SetEntry(s3.mem, t, path[3], e), root, path[..3]) == Some(t)
    ensures MapsOnlySlotOf(s0.mem, SetEntry(s3.mem, t, path[3], e), root, path)
  {
    var m' := SetEntry(s3.mem, t, path[3], e);
    forall q: seq<Index> | |q| == 4 && q[0] != RECURSIVE && Walk(s0.mem, root, q) == Fault && Walk(m', root, q).Page?
      ensures Follow(m', root, q[..3]) == Follow(m', root, path[..3]) && q[3] == path[3]
    {
      LeafMapsOneSlot(s3.mem, root, s3.free, path, t, e, q);
    }
  }

  // A leaf that is present afterwards was there from the start: a new table would be empty.
  lemma MappedAlready(s0: State, s1: State, s2: State, s3: State, root: Frame, path: seq<Index>, n: seq<Frame>,
                      t: Frame, e: Entry)
    requires Recursive(s0.mem, root, s0.free) && EnsuredPath(s0, s1, s2, s3, root, path, n)
    requires Follow(s3.mem, root, path[..3]) == Some(t) && t in s3.mem && Present(s3.mem[t][path[3]])
    ensures Mapped(s0, s3, root, path, e)
  {
    assert [] + [path[0]] == path[..1] && path[..1] + [path[1]] == path[..2] && path[..2] + [path[2]] == path[..3];
    EnsuredKeeps(s0, s1, root, [], path[0], n[0]);
    EnsuredKeeps(s1, s2, root, path[..1], path[1], n[1]);
    EnsuredKeeps(s2, s3, root, path[..2], path[2], n[2]);
    if Follow(s0.mem, root, path[..1]).None? {
      EnsuredIsEmpty(s0, s1, root, [], path[0], n[0], path[1]);
    }
    if Follow(s1.mem, root, path[..2]).None? {
      EnsuredIsEmpty(s1, s2, root, path[..1], path[1], n[1], path[2]);
    }
    if Follow(s2.mem, root, path[..3]).None? {
      InstallKeepsRecursive(s2.mem, root, s2.free, path[..2], path[2], n[2]);
    }
    assert s3 == s0;
    NothingWritten(s0, root, path);
    WalkIsFollow(s0.mem, root, s0.free, path);
  }

  lemma MappedByPathAndLeaf(s0: State, s1: State, s2: State, s3: State, s: State, root: Frame, path: seq<Index>,
                            n: seq<Frame>, e: Entry)
    requires Recursive(s0.mem, root, s0.free) && EnsuredPath(s0, s1, s2, s3, root, path, n)
    requires Follow(s3.mem, root, path[..3]).Some? && Follow(s3.mem, root, path[..3]).value in s3.mem
    requires var t := Follow(s3.mem, root, path[..3]).value;
             s == if Present(s3.mem[t][path[3]]) then s3 else State(SetEntry(s3.mem, t, path[3], e), s3.free)
    ensures Mapped(s0, s, root, path, e)
  {
    var t := Follow(s3.mem, root, path[..3]).value;
    if Present(s3.mem[t][path[3]]) {
      MappedAlready(s0, s1, s2, s3, root, path, n, t, e);
    } else {
      MappedByLeaf(s0, s1, s2, s3, root, path, n, t, e);
    }
  }
}
