/** src/mem/paging.c: reading and editing the page tables through the recursive slot. */
module Paging {
  import opened PageTables
  import opened Bitmap
  import opened Wrappers

  const SIGN_EXTENSION: nat := 0xFFFF_0000_0000_0000
  const PT_NOT_MAPPED := 0
  const PT_IS_MAPPED := 1
  const WORD := 8

  // ---------------------------------------------------------------------------------------------
  // Index arithmetic of include/mem/paging.h. A shift right of an unsigned value is a division, a mask
  // of low bits a remainder, and an `or` of disjoint bit fields a sum.

  function EntriesToAddress(pml4: Index, pdpr: Index, pd: Index, pt: Index): nat {
    pml4 * 0x80_0000_0000 + pdpr * 0x4000_0000 + pd * 0x20_0000 + pt * 0x1000
  }

  function Pml4Entry(address: nat): Index { address / 0x80_0000_0000 % 512 }

  function PdprEntry(address: nat): Index { address / 0x4000_0000 % 512 }

  function PdEntry(address: nat): Index { address / 0x20_0000 % 512 }

  function PtEntry(address: nat): Index { address / 0x1000 % 512 }

  function PathOf(address: nat): (path: seq<Index>)
    ensures |path| == 4
  {
    [Pml4Entry(address), PdprEntry(address), PdEntry(address), PtEntry(address)]
  }

  function AlignToPage(address: nat): nat {
    address - address % PAGE_SIZE
  }

  predicate Canonical(address: nat) {
    address < 0x8000_0000_0000 || 0xFFFF_8000_0000_0000 <= address < 0x1_0000_0000_0000_0000
  }

  lemma QuotientIs(x: nat, k: nat, q: nat, r: nat)
    requires k > 0 && x == q * k + r && r < k
    ensures x / k == q && x % k == r
  {
    var d := q - x / k;
    assert d * k == x % k - r by {
      assert q * k - x / k * k == (q - x / k) * k;
    }
    if d >= 1 {
      Product(d - 1, k);
    } else if d <= -1 {
      Product(-d - 1, k);
    }
  }

  lemma Product(a: int, b: int)
    requires 0 <= a && 0 <= b
    ensures 0 <= a * b
    ensures (a + 1) * b == a * b + b && (-a - 1) * b == -(a * b) - b
  {
  }

  lemma FieldOf(x: nat, k: nat, high: nat, field: Index, low: nat)
    requires k > 0 && x == (high * 512 + field) * k + low && low < k
    ensures x / k % 512 == field
  {
    QuotientIs(x, k, high * 512 + field, low);
  }

  // Splitting undoes composing, for every byte of the page and with or without the sign extension.
  lemma PathOfEntries(a: Index, b: Index, c: Index, d: Index, offset: nat)
    requires offset < PAGE_SIZE
    ensures PathOf(EntriesToAddress(a, b, c, d) + offset) == [a, b, c, d]
    ensures PathOf(SIGN_EXTENSION + EntriesToAddress(a, b, c, d) + offset) == [a, b, c, d]
    ensures (SIGN_EXTENSION + EntriesToAddress(a, b, c, d) + offset) % PAGE_SIZE == offset
  {
    PathOfFields(0, a, b, c, d, offset);
    PathOfFields(0xFFFF, a, b, c, d, offset);
  }

  lemma PathOfFields(sign: nat, a: Index, b: Index, c: Index, d: Index, offset: nat)
    requires offset < PAGE_SIZE
    ensures var x := sign * 0x1_0000_0000_0000 + EntriesToAddress(a, b, c, d) + offset;
            PathOf(x) == [a, b, c, d] && x % PAGE_SIZE == offset
  {
    var x := sign * 0x1_0000_0000_0000 + EntriesToAddress(a, b, c, d) + offset;
    var p3 := sign * 512 + a;
    var p2 := p3 * 512 + b;
    var p1 := p2 * 512 + c;
    assert Pml4Entry(x) == a by {
      FieldOf(x, 0x80_0000_0000, sign, a, b * 0x4000_0000 + c * 0x20_0000 + d * 0x1000 + offset);
    }
    assert PdprEntry(x) == b by {
      FieldOf(x, 0x4000_0000, p3, b, c * 0x20_0000 + d * 0x1000 + offset);
    }
    assert PdEntry(x) == c by {
      FieldOf(x, 0x20_0000, p2, c, d * 0x1000 + offset);
    }
    assert PtEntry(x) == d by {
      FieldOf(x, 0x1000, p1, d, offset);
    }
    QuotientIs(x, PAGE_SIZE, p1 * 512 + d, offset);
  }

  // Every address is composed of its four indices, its offset and the bits above bit 47.
  lemma AddressOfPath(x: nat)
    ensures x == x / 0x1_0000_0000_0000 * 0x1_0000_0000_0000
                 + EntriesToAddress(Pml4Entry(x), PdprEntry(x), PdEntry(x), PtEntry(x)) + x % PAGE_SIZE
  {
    var p1, p2, p3 := x / 0x20_0000, x / 0x4000_0000, x / 0x80_0000_0000;
    assert p1 == x / 0x1000 / 512 by {
      QuotientIs(x, 0x20_0000, x / 0x1000 / 512, x / 0x1000 % 512 * 0x1000 + x % 0x1000);
    }
    assert p2 == p1 / 512 by { QuotientIs(x, 0x4000_0000, p1 / 512, p1 % 512 * 0x20_0000 + x % 0x20_0000); }
    assert p3 == p2 / 512 by { QuotientIs(x, 0x80_0000_0000, p2 / 512, p2 % 512 * 0x4000_0000 + x % 0x4000_0000); }
    assert x / 0x1_0000_0000_0000 == p3 / 512 by {
      QuotientIs(x, 0x1_0000_0000_0000, p3 / 512, p3 % 512 * 0x80_0000_0000 + x % 0x80_0000_0000);
    }
  }

  lemma AlignKeepsPath(address: nat)
    ensures AlignToPage(address) % PAGE_SIZE == 0 && PathOf(AlignToPage(address)) == PathOf(address)
  {
    AddressOfPath(address);
    PathOfFields(address / 0x1_0000_0000_0000, Pml4Entry(address), PdprEntry(address), PdEntry(address),
                 PtEntry(address), 0);
  }

  // physical | flags, for a page-aligned physical address.
  function EntryOf(physical: nat, flags: bv8): Entry {
    Entry(flags, physical / PAGE_SIZE)
  }

  // The word that is stored: the flags as passed, above them the physical address, aligned.
  lemma EntryIsWord(physical: nat, flags: bv8)
    requires physical % PAGE_SIZE == 0
    ensures EntryOf(physical, flags).flags == flags && EntryOf(physical, flags).frame * PAGE_SIZE == physical
  {
  }

  // The address of the table behind `prefix` as seen through the recursive slot.
  function TableAddress(prefix: seq<Index>): nat
    requires |prefix| <= 3
  {
    var w := Window(prefix);
    SIGN_EXTENSION + EntriesToAddress(w[0], w[1], w[2], w[3])
  }

  // The four window addresses that map_page and is_virtual_memory_mapped compute.
  lemma TableAddresses(a: Index, b: Index, c: Index)
    ensures TableAddress([]) == SIGN_EXTENSION + EntriesToAddress(510, 510, 510, 510)
    ensures TableAddress([a]) == SIGN_EXTENSION + EntriesToAddress(510, 510, 510, a)
    ensures TableAddress([a, b]) == SIGN_EXTENSION + EntriesToAddress(510, 510, a, b)
    ensures TableAddress([a, b, c]) == SIGN_EXTENSION + EntriesToAddress(510, a, b, c)
  {
    assert Window([]) == [510, 510, 510, 510];
    assert Window([a]) == [510, 510, 510, a];
    assert Window([a, b]) == [510, 510, a, b];
    assert Window([a, b, c]) == [510, a, b, c];
  }

  lemma Prefixes(path: seq<Index>, a: Index, b: Index, c: Index, d: Index)
    requires path == [a, b, c, d]
    ensures path[..1] == [] + [a] && path[..2] == path[..1] + [b] && path[..3] == path[..2] + [c]
    ensures path[..1] == [a] && path[..2] == [a, b] && path[..3] == [a, b, c]
  {
  }

  function WordOf(address: nat): Index {
    address % PAGE_SIZE / WORD
  }

  // Each recursive address reaches its word of the physical table of that level.
  lemma TableAddressReaches(m: Memory, root: Frame, prefix: seq<Index>, i: Index)
    requires root in m && IsLink(m[root][RECURSIVE]) && m[root][RECURSIVE].frame == root
    requires |prefix| <= 3 && Follow(m, root, prefix).Some?
    ensures var x := TableAddress(prefix) + i * WORD;
            && Canonical(x) && x % WORD == 0 && WordOf(x) == i
            && Walk(m, root, PathOf(x)) == Page(Follow(m, root, prefix).value, true)
  {
    var w := Window(prefix);
    WordAddress(w[1], w[2], w[3], i);
    assert w == [RECURSIVE, w[1], w[2], w[3]];
    WindowShowsTable(m, root, prefix);
  }

  lemma WordAddress(b: Index, c: Index, d: Index, i: Index)
    ensures var x := SIGN_EXTENSION + EntriesToAddress(RECURSIVE, b, c, d) + i * WORD;
            Canonical(x) && x % WORD == 0 && WordOf(x) == i && PathOf(x) == [RECURSIVE, b, c, d]
  {
    var x := SIGN_EXTENSION + EntriesToAddress(RECURSIVE, b, c, d) + i * WORD;
    PathOfEntries(RECURSIVE, b, c, d, i * WORD);
    QuotientIs(x, WORD, (SIGN_EXTENSION + EntriesToAddress(RECURSIVE, b, c, d)) / WORD + i, 0);
  }

  predicate ReadableIn(m: Memory, root: Frame, address: nat)
  {
    && Canonical(address) && address % WORD == 0
    && Walk(m, root, PathOf(address)).Page? && Walk(m, root, PathOf(address)).frame in m
  }

  // Table t can be read through the pointer.
  ghost predicate TableAt(m: Memory, root: Frame, pointer: nat, t: Frame)
  {
    t in m && forall i: Index :: WordAt(m, root, pointer, i, t)
  }

  ghost predicate WordAt(m: Memory, root: Frame, pointer: nat, i: Index, t: Frame)
  {
    var x := pointer + i * WORD;
    ReadableIn(m, root, x) && Walk(m, root, PathOf(x)).frame == t && WordOf(x) == i
  }

  // The root table can be read at `pml4`, and the other tables on the way to `path` at their own
  // physical addresses.
  ghost predicate TablesIdentityMapped(m: Memory, root: Frame, pml4: nat, path: seq<Index>)
    requires |path| == 4
  {
    && pml4 != 0 && TableAt(m, root, pml4, root)
    && forall k :: 1 <= k <= 3 && Follow(m, root, path[..k]).Some? ==>
         var t := Follow(m, root, path[..k]).value; t != 0 && TableAt(m, root, t * PAGE_SIZE, t)
  }

  // The indices of a virtual address and the addresses of its four tables, as map_page and
  // is_virtual_memory_mapped compute them.
  datatype View = View(pml4E: Index, pdprE: Index, pdE: Index, ptE: Index,
                       pml4Table: nat, pdprTable: nat, pdTable: nat, ptTable: nat)

  ghost predicate IsView(v: View, path: seq<Index>)
  {
    && path == [v.pml4E, v.pdprE, v.pdE, v.ptE]
    && path[..1] == [] + [v.pml4E] && path[..2] == path[..1] + [v.pdprE] && path[..3] == path[..2] + [v.pdE]
    && v.pml4Table == TableAddress([]) && v.pdprTable == TableAddress(path[..1])
    && v.pdTable == TableAddress(path[..2]) && v.ptTable == TableAddress(path[..3])
  }

  method ViewOf(virtualAddress: nat) returns (v: View)
    ensures IsView(v, PathOf(virtualAddress))
  {
    AlignKeepsPath(virtualAddress);
    var virtual := AlignToPage(virtualAddress);
    var pml4E := Pml4Entry(virtual);
    var pdprE := PdprEntry(virtual);
    var pdE := PdEntry(virtual);
    var pml4Table := SIGN_EXTENSION + EntriesToAddress(510, 510, 510, 510);
    var pdprTable := SIGN_EXTENSION + EntriesToAddress(510, 510, 510, pml4E);
    var pdTable := SIGN_EXTENSION + EntriesToAddress(510, 510, pml4E, pdprE);
    var ptTable := SIGN_EXTENSION + EntriesToAddress(510, pml4E, pdprE, pdE);
    var ptE := PtEntry(virtual);
    TableAddresses(pml4E, pdprE, pdE);
    Prefixes(PathOf(virtualAddress), pml4E, pdprE, pdE, ptE);
    v := View(pml4E, pdprE, pdE, ptE, pml4Table, pdprTable, pdTable, ptTable);
  }

  // A file-scope p4_table, the allocator behind it, and the memory the tables live in.
  class AddressSpace {
    var mem: Memory
    const root: Frame
    const frames: FrameBitmap

    constructor (mem: Memory, root: Frame, frames: FrameBitmap)
      requires frames.Valid() && Recursive(mem, root, frames.Free())
      ensures this.mem == mem && this.root == root && this.frames == frames && Valid()
    {
      this.mem, this.root, this.frames := mem, root, frames;
    }

    ghost predicate Valid()
      reads this, frames.bitmap
    {
      frames.Valid() && Recursive(mem, root, frames.Free())
    }

    ghost function Translate(address: nat): Translation
      reads this
    {
      Walk(mem, root, PathOf(address))
    }

    // What an 8-byte load needs in order not to fault.
    ghost predicate Readable(address: nat)
      reads this
    {
      ReadableIn(mem, root, address)
    }

    method Load(address: nat) returns (e: Entry)
      requires Readable(address)
      ensures e == mem[Translate(address).frame][WordOf(address)]
    {
      var translation := Walk(mem, root, PathOf(address));
      e := mem[translation.frame][WordOf(address)];
    }

    method Store(address: nat, e: Entry)
      requires Readable(address) && Translate(address).writable
      modifies this`mem
      ensures mem == SetEntry(old(mem), old(Translate(address)).frame, WordOf(address), e)
    {
      var translation := Walk(mem, root, PathOf(address));
      mem := SetEntry(mem, translation.frame, WordOf(address), e);
    }

    // Clears the new table n through its window. `linked` is the memory right after the entry at slot i
    // of the table behind `prefix` was pointed at n; until then the window did not exist.
    method CleanNewTable(tableToClean: nat, ghost before: Memory, ghost prefix: seq<Index>,
                         ghost i: Index, ghost n: Frame)
      requires Recursive(before, root, frames.Free() + {n}) && |prefix| <= 2
      requires tableToClean == TableAddress(prefix + [i])
      requires Follow(before, root, prefix).Some? && !Present(before[Follow(before, root, prefix).value][i])
      requires mem == SetEntry(before, Follow(before, root, prefix).value, i, Link(n))
      modifies this`mem
      ensures mem == Install(before, Follow(before, root, prefix).value, i, n)
    {
      ghost var linked := mem;
      var j := 0;
      while j < ENTRIES
        invariant 0 <= j <= ENTRIES
        invariant Cleaning(linked, mem, n, j)
      {
        NewWindow(before, linked, mem, root, frames.Free() + {n}, prefix, i, n, j);
        TableAddressReaches(mem, root, prefix + [i], j);
        CleaningStep(linked, mem, n, j);
        Store(tableToClean + j * WORD, EMPTY);
        j := j + 1;
      }
      CleaningDone(linked, mem, n);
    }

    // table[index], where `table` is the window of the table behind `prefix`.
    method LoadFrom(table: nat, index: Index, ghost prefix: seq<Index>) returns (e: Entry)
      requires Valid() && |prefix| <= 3 && Follow(mem, root, prefix).Some? && table == TableAddress(prefix)
      ensures e == mem[Follow(mem, root, prefix).value][index]
      ensures |prefix| <= 2 ==> (Present(e) <==> Follow(mem, root, prefix + [index]).Some?)
    {
      TableAddressReaches(mem, root, prefix, index);
      FollowSnoc(mem, root, prefix, index);
      e := Load(table + index * WORD);
      LinkBits(e);
    }

    // Takes a frame for an absent entry, links it, and clears it through the window that the link opens.
    method CreateTable(table: nat, index: Index, nextTable: nat, ghost prefix: seq<Index>) returns (ghost n: Frame)
      requires Valid() && |prefix| <= 2 && Follow(mem, root, prefix).Some?
      requires table == TableAddress(prefix) && nextTable == TableAddress(prefix + [index])
      requires !Present(mem[Follow(mem, root, prefix).value][index]) && frames.Free() != {}
      modifies this`mem, frames.bitmap
      ensures IsLowest(n, old(frames.Free())) && frames.Free() == old(frames.Free()) - {n}
      ensures mem == Install(old(mem), Follow(old(mem), root, prefix).value, index, n)
    {
      ghost var before := mem;
      TableAddressReaches(mem, root, prefix, index);
      var newTable := frames.AllocatePhysicalPage();
      n := newTable / PAGE_SIZE;
      assert frames.Free() + {n} == old(frames.Free());
      Store(table + index * WORD, EntryOf(newTable, PT_RW_BIT | PT_PRESENT_BIT));
      CleanNewTable(nextTable, before, prefix, index, n);
    }

    // The block that map_page repeats at each of the three upper levels.
    method EnsureTable(table: nat, index: Index, nextTable: nat, ghost prefix: seq<Index>) returns (ghost n: Frame)
      requires Valid() && |prefix| <= 2 && Follow(mem, root, prefix).Some?
      requires table == TableAddress(prefix) && nextTable == TableAddress(prefix + [index])
      requires Follow(mem, root, prefix + [index]).None? ==> frames.Free() != {}
      modifies this`mem, frames.bitmap
      ensures Valid()
      ensures Ensured(old(Contents()), Contents(), root, prefix, index, n)
      ensures Follow(mem, root, prefix + [index]).Some?
    {
      n := 0;
      var entry := LoadFrom(table, index, prefix);
      if !Present(entry) {
        n := CreateTable(table, index, nextTable, prefix);
      }
      EnsuredKeeps(old(Contents()), Contents(), root, prefix, index, n);
    }

    ghost function Contents(): State
      reads this, frames.bitmap
    {
      State(mem, frames.Free())
    }

    // The last block of map_page: fill the leaf unless it is already present.
    method WriteLeaf(ptTable: nat, ptE: Index, e: Entry, ghost path: seq<Index>)
      requires Valid() && |path| == 4 && Follow(mem, root, path[..3]).Some?
      requires ptTable == TableAddress(path[..3]) && ptE == path[3]
      modifies this`mem
      ensures var t := Follow(old(mem), root, path[..3]).value;
              mem == if Present(old(mem)[t][ptE]) then old(mem) else SetEntry(old(mem), t, ptE, e)
    {
      TableAddressReaches(mem, root, path[..3], ptE);
      var entry := LoadFrom(ptTable, ptE, path[..3]);
      if !Present(entry) {
        Store(ptTable + ptE * WORD, e);
      }
    }

    // The first three blocks of map_page.
    method EnsurePath(v: View, ghost path: seq<Index>)
      returns (ghost s1: State, ghost s2: State, ghost s3: State, ghost n: seq<Frame>)
      requires Valid() && IsView(v, path) && Missing(mem, root, path) <= |frames.Free()|
      modifies this`mem, frames.bitmap
      ensures Valid() && s3 == Contents() && EnsuredPath(old(Contents()), s1, s2, s3, root, path, n)
      ensures Follow(mem, root, path[..3]).Some?
    {
      ghost var s0 := Contents();
      ghost var n0 := EnsureTable(v.pml4Table, v.pml4E, v.pdprTable, []);
      s1 := Contents();
      if Follow(mem, root, path[..2]).None? {
        EnoughForSecond(s0, s1, root, path, n0);
      }
      ghost var n1 := EnsureTable(v.pdprTable, v.pdprE, v.pdTable, path[..1]);
      s2 := Contents();
      if Follow(mem, root, path[..3]).None? {
        EnoughForThird(s0, s1, s2, root, path, [n0, n1, 0]);
      }
      ghost var n2 := EnsureTable(v.pdTable, v.pdE, v.ptTable, path[..2]);
      s3 := Contents();
      n := [n0, n1, n2];
    }

    method MapPage(virtualAddress: nat, physicalAddress: nat, flags: bv8)
      requires Valid()
      requires Missing(mem, root, PathOf(virtualAddress)) <= |frames.Free()|
      modifies this`mem, frames.bitmap
      ensures Mapped(old(Contents()), Contents(), root, PathOf(virtualAddress),
                     EntryOf(AlignToPage(physicalAddress), flags))
    {
      ghost var path := PathOf(virtualAddress);
      var v := ViewOf(virtualAddress);
      var e := EntryOf(AlignToPage(physicalAddress), flags);
      ghost var s0 := Contents();
      ghost var s1, s2, s3, n := EnsurePath(v, path);
      WriteLeaf(v.ptTable, v.ptE, e, path);
      MappedByPathAndLeaf(s0, s1, s2, s3, Contents(), root, path, n, e);
    }

    method IsVirtualMemoryMapped(virtualAddress: nat) returns (r: int)
      requires Valid()
      ensures r == if Translate(virtualAddress).Page? then PT_IS_MAPPED else PT_NOT_MAPPED
    {
      ghost var path := PathOf(virtualAddress);
      var v := ViewOf(virtualAddress);
      WalkIsFollow(mem, root, frames.Free(), path);
      FollowConcat(mem, root, path[..1], path[1..3]);
      FollowConcat(mem, root, path[..2], path[2..3]);
      assert path[..1] + path[1..3] == path[..3] && path[..2] + path[2..3] == path[..3];

      var entry := LoadFrom(v.pml4Table, v.pml4E, []);
      if !Present(entry) {
        return PT_NOT_MAPPED;
      }
      entry := LoadFrom(v.pdprTable, v.pdprE, path[..1]);
      if !Present(entry) {
        return PT_NOT_MAPPED;
      }
      entry := LoadFrom(v.pdTable, v.pdE, path[..2]);
      if !Present(entry) {
        return PT_NOT_MAPPED;
      }
      entry := LoadFrom(v.ptTable, v.ptE, path[..3]);
      if !Present(entry) {
        return PT_NOT_MAPPED;
      }
      return PT_IS_MAPPED;
    }

    // allocate_physical_page, then map_page with PRESENT | RW: the frame for the page is taken before the
    // frames for the missing tables.
    method MapFreshFrame(address: nat, ghost path: seq<Index>) returns (ghost n: Frame)
      requires Valid() && PathOf(address) == path
      requires Missing(mem, root, path) < |frames.Free()|
      modifies this`mem, frames.bitmap
      ensures n in old(frames.Free()) && forall f :: f in old(frames.Free()) ==> n <= f
      ensures Mapped(State(old(mem), old(frames.Free()) - {n}), Contents(), root, path, Link(n))
    {
      ghost var s0 := Contents();
      var physical := frames.AllocatePhysicalPage();
      n := physical / PAGE_SIZE;
      FewerFree(mem, root, s0.free, s0.free - {n});
      assert Contents() == State(s0.mem, s0.free - {n});
      assert EntryOf(AlignToPage(physical), PT_PRESENT_BIT | PT_RW_BIT) == Link(n);
      MapPage(address, physical, PT_PRESENT_BIT | PT_RW_BIT);
    }

    method MapIfNotMapped(address: nat) returns (r: int, ghost n: Frame)
      requires Valid()
      requires Translate(address) == Fault ==> Missing(mem, root, PathOf(address)) < |frames.Free()|
      modifies this`mem, frames.bitmap
      ensures old(Translate(address)).Page? ==> r == 0 && Contents() == old(Contents())
      ensures old(Translate(address)) == Fault ==>
                && r == 1 && n in old(frames.Free()) && (forall f :: f in old(frames.Free()) ==> n <= f)
                && Mapped(State(old(mem), old(frames.Free()) - {n}), Contents(), root, PathOf(address), Link(n))
    {
      var mapped := IsVirtualMemoryMapped(address);
      if mapped == PT_IS_MAPPED {
        return 0, 0;
      }
      n := MapFreshFrame(address, PathOf(address));
      return 1, n;
    }

    // -------------------------------------------------------------------------------------------
    // The walks that use physical table addresses as pointers

    method GetNextTableEntry(currentTable: nat, index: Index, ghost t: Frame) returns (next: nat)
      requires currentTable != 0 ==> TableAt(mem, root, currentTable, t)
      ensures next == if currentTable != 0 && Present(mem[t][index]) then mem[t][index].frame * PAGE_SIZE else 0
    {
      if currentTable == 0 {
        return 0;
      }
      assert WordAt(mem, root, currentTable, index, t);
      var entry := Load(currentTable + index * WORD);
      if !Present(entry) {
        return 0;
      }
      return entry.frame * PAGE_SIZE;
    }

    // Reads an entry through the physical address of its table.
    method LoadDirect(table: nat, index: Index, ghost prefix: seq<Index>) returns (e: Entry)
      requires Valid() && |prefix| <= 3 && Follow(mem, root, prefix).Some?
          && TableAt(mem, root, table, Follow(mem, root, prefix).value)
      ensures e == mem[Follow(mem, root, prefix).value][index]
      ensures |prefix| <= 2 ==> (Present(e) <==> Follow(mem, root, prefix + [index]).Some?)
      ensures |prefix| <= 2 && Present(e) ==> Follow(mem, root, prefix + [index]).value == e.frame
    {
      hide PathOf;
      FollowSnoc(mem, root, prefix, index);
      assert WordAt(mem, root, table, index, Follow(mem, root, prefix).value);
      e := Load(table + index * WORD);
      LinkBits(e);
    }

    // Whether the address is mapped to the physical page of the same number.
    method IsPhysicalMemoryMapped(physicalAddress: nat, pml4: nat) returns (r: int)
      requires Valid() && TablesIdentityMapped(mem, root, pml4, PathOf(physicalAddress))
      ensures var t := Translate(physicalAddress);
              r == if t.Page? && t.frame == physicalAddress / PAGE_SIZE then PT_IS_MAPPED else PT_NOT_MAPPED
    {
      hide TableAt, Recursive;
      ghost var path := PathOf(physicalAddress);
      WalkIsFollow(mem, root, frames.Free(), path);
      FollowConcat(mem, root, path[..1], path[1..3]);
      FollowConcat(mem, root, path[..2], path[2..3]);
      assert path[..1] + path[1..3] == path[..3] && path[..2] + path[2..3] == path[..3];
      Prefixes(path, Pml4Entry(physicalAddress), PdprEntry(physicalAddress), PdEntry(physicalAddress),
               PtEntry(physicalAddress));

      var entry := LoadDirect(pml4, Pml4Entry(physicalAddress), []);
      if !Present(entry) {
        return PT_NOT_MAPPED;
      }
      entry := LoadDirect(entry.frame * PAGE_SIZE, PdprEntry(physicalAddress), path[..1]);
      if !Present(entry) {
        return PT_NOT_MAPPED;
      }
      entry := LoadDirect(entry.frame * PAGE_SIZE, PdEntry(physicalAddress), path[..2]);
      if !Present(entry) {
        return PT_NOT_MAPPED;
      }
      entry := LoadDirect(entry.frame * PAGE_SIZE, PtEntry(physicalAddress), path[..3]);
      if !Present(entry) {
        return PT_NOT_MAPPED;
      }
      if entry.frame * PAGE_SIZE == AlignToPage(physicalAddress) {
        return PT_IS_MAPPED;
      }
      return PT_NOT_MAPPED;
    }

    // The word that the walk ends at: the leaf entry, present or not, or without a page table the word that a
    // null table pointer leads to.
    ghost function LastWord(virtualAddress: nat): Entry
      requires Valid()
      requires Follow(mem, root, PathOf(virtualAddress)[..3]).None? ==> Readable(PtEntry(virtualAddress) * WORD)
      reads this, frames.bitmap
    {
      var table, x := Follow(mem, root, PathOf(virtualAddress)[..3]), PtEntry(virtualAddress) * WORD;
      if table.Some? then mem[table.value][PtEntry(virtualAddress)] else mem[Translate(x).frame][WordOf(x)]
    }

    method GetPhysicalAddress(virtualAddress: nat, pml4: nat) returns (physical: nat)
      requires Valid() && TablesIdentityMapped(mem, root, pml4, PathOf(virtualAddress))
      requires Follow(mem, root, PathOf(virtualAddress)[..3]).None? ==> Readable(PtEntry(virtualAddress) * WORD)
      ensures physical == LastWord(virtualAddress).frame * PAGE_SIZE + virtualAddress % PAGE_SIZE
      ensures Translate(virtualAddress).Page? ==>
                physical == Translate(virtualAddress).frame * PAGE_SIZE + virtualAddress % PAGE_SIZE
    {
      hide TableAt, Recursive;
      ghost var path := PathOf(virtualAddress);
      Prefixes(path, Pml4Entry(virtualAddress), PdprEntry(virtualAddress), PdEntry(virtualAddress),
               PtEntry(virtualAddress));
      NextTable(mem, root, frames.Free(), [], Pml4Entry(virtualAddress));
      NextTable(mem, root, frames.Free(), path[..1], PdprEntry(virtualAddress));
      NextTable(mem, root, frames.Free(), path[..2], PdEntry(virtualAddress));
      WalkIsFollow(mem, root, frames.Free(), path);
      var pdpr := GetNextTableEntry(pml4, Pml4Entry(virtualAddress), root);
      var pd := GetNextTableEntry(pdpr, PdprEntry(virtualAddress), TableOf(mem, root, path[..1]));
      var pt := GetNextTableEntry(pd, PdEntry(virtualAddress), TableOf(mem, root, path[..2]));
      if pt != 0 {
        WordOfTable(mem, root, pt, PtEntry(virtualAddress), TableOf(mem, root, path[..3]));
      }
      var entry := Load(pt + PtEntry(virtualAddress) * WORD);
      return entry.frame * PAGE_SIZE + virtualAddress % PAGE_SIZE;
    }
  }

  ghost function TableOf(m: Memory, root: Frame, prefix: seq<Index>): Frame {
    if Follow(m, root, prefix).Some? then Follow(m, root, prefix).value else 0
  }

  lemma WordOfTable(m: Memory, root: Frame, pointer: nat, i: Index, t: Frame)
    requires TableAt(m, root, pointer, t)
    ensures WordAt(m, root, pointer, i, t)
  {
  }

  // The next table exists exactly if this one does and the entry is present.
  lemma NextTable(m: Memory, root: Frame, free: set<Frame>, prefix: seq<Index>, i: Index)
    requires Recursive(m, root, free) && |prefix| <= 2
    ensures var t := Follow(m, root, prefix);
            && (t.Some? ==> t.value in m)
            && Follow(m, root, prefix + [i])
               == if t.Some? && Present(m[t.value][i]) then Some(m[t.value][i].frame) else None
  {
    FollowConcat(m, root, prefix, [i]);
    if Follow(m, root, prefix).Some? {
      FollowSnoc(m, root, prefix, i);
      LinkBits(m[Follow(m, root, prefix).value][i]);
    }
  }

  // The first `done` words of n are clear; no other frame changed.
  ghost predicate Cleaning(linked: Memory, m: Memory, n: Frame, done: int)
  {
    && m.Keys == linked.Keys && n in m
    && (forall f :: f in m && f != n ==> m[f] == linked[f])
    && (forall k: Index :: k < done ==> m[n][k] == EMPTY)
  }

  lemma CleaningStep(linked: Memory, m: Memory, n: Frame, j: Index)
    requires Cleaning(linked, m, n, j)
    ensures Cleaning(linked, SetEntry(m, n, j, EMPTY), n, j + 1)
  {
  }

  lemma CleaningDone(linked: Memory, m: Memory, n: Frame)
    requires Cleaning(linked, m, n, ENTRIES)
    ensures m == linked[n := EmptyTable()]
  {
    assert m[n] == EmptyTable();
  }

  // While the new table still holds arbitrary words, its window already shows it.
  lemma NewWindow(before: Memory, linked: Memory, m: Memory, root: Frame, free: set<Frame>, prefix: seq<Index>,
                  i: Index, n: Frame, done: int)
    requires Recursive(before, root, free) && n in free && |prefix| <= 2
    requires Follow(before, root, prefix).Some? && !Present(before[Follow(before, root, prefix).value][i])
    requires linked == SetEntry(before, Follow(before, root, prefix).value, i, Link(n))
    requires Cleaning(linked, m, n, done)
    ensures Follow(m, root, prefix + [i]) == Some(n)
    ensures root in m && IsLink(m[root][RECURSIVE]) && m[root][RECURSIVE].frame == root
  {
    assert Follow(before, root, []) == Some(root);
    assert Preserves(before, m, free);
    PreservedFollow(before, m, root, free, [], prefix);
    FollowSnoc(m, root, prefix, i);
    LinkBits(before[root][RECURSIVE]);
  }
}
