/** The region list of src/mem/vmm.c as a sequence: where vmm_allocate places a region and what vmm_free removes. */
module RegionList {
  import opened Bitmap

  const HEADER := 16             // sizeof(vmm_region)
  const GAP_HEADER := 16 * 16    // `current + sizeof(vmm_region)` counts in regions, not in bytes

  datatype Region = Region(base: nat, size: nat) {
    function End(): nat { base + size }
  }

  // Page-aligned, non-empty, strictly ascending and non-overlapping; the first region is vm_root.
  ghost predicate Sorted(rs: seq<Region>)
  {
    && |rs| >= 1 && rs[0].base > 0
    && (forall i :: 0 <= i < |rs| ==> rs[i].base % PAGE_SIZE == 0 && rs[i].size % PAGE_SIZE == 0 && rs[i].size > 0)
    && (forall i :: 0 < i < |rs| ==> Above(rs, i))
  }

  // Region i starts no lower than the one before it ends.
  predicate Above(rs: seq<Region>, i: nat)
    requires 0 < i < |rs|
  {
    rs[i - 1].End() <= rs[i].base
  }

  // The gap before region i has room for `size` bytes.
  predicate Roomy(rs: seq<Region>, i: nat, size: nat)
    requires 0 < i < |rs|
  {
    rs[i].base - rs[i - 1].End() >= size
  }

  function NextOf(rs: seq<Region>, i: nat): nat
    requires i < |rs|
  {
    if i + 1 < |rs| then rs[i + 1].base else 0
  }

  // The index at which the walk from `i` on inserts a region: the first gap that is large enough, or the end.
  function Place(rs: seq<Region>, size: nat, i: nat): (k: nat)
    requires 1 <= i <= |rs|
    ensures i <= k <= |rs|
    decreases |rs| - i
  {
    if i == |rs| || Roomy(rs, i, size) then i else Place(rs, size, i + 1)
  }

  function PlacedAt(rs: seq<Region>, size: nat): nat
    requires |rs| >= 1
  {
    rs[Place(rs, size, 1) - 1].End()
  }

  function Insert(rs: seq<Region>, size: nat): seq<Region>
    requires |rs| >= 1
  {
    var k := Place(rs, size, 1);
    rs[..k] + [Region(rs[k - 1].End(), size)] + rs[k..]
  }

  // The pointer vmm_allocate returns.
  function Returned(rs: seq<Region>, size: nat): nat
    requires |rs| >= 1
  {
    PlacedAt(rs, size) + if Place(rs, size, 1) < |rs| then GAP_HEADER else HEADER
  }

  // vmm_free unlinks the region whose header lies at `target`.
  function Remove(rs: seq<Region>, target: int): seq<Region> {
    if rs == [] then [] else if rs[0].base == target then rs[1..] else [rs[0]] + Remove(rs[1..], target)
  }

  lemma {:induction false} SortedOrder(rs: seq<Region>, i: nat, j: nat)
    requires Sorted(rs) && i < j < |rs|
    ensures rs[i].End() <= rs[j].base && rs[i].base < rs[j].base
    decreases j
  {
    assert Above(rs, j);
    if i + 1 < j {
      SortedOrder(rs, i, j - 1);
    }
  }

  lemma AlignedRegion(rs: seq<Region>, i: nat)
    requires Sorted(rs) && i < |rs|
    ensures rs[i].base % PAGE_SIZE == 0 && rs[i].size % PAGE_SIZE == 0 && rs[i].size > 0
    ensures NextOf(rs, i) % PAGE_SIZE == 0
  {
  }

  // No two regions have the same successor.
  lemma NextsDiffer(rs: seq<Region>, i: nat, j: nat)
    requires Sorted(rs) && i < j < |rs|
    ensures NextOf(rs, i) != NextOf(rs, j)
    ensures NextOf(rs, i) % PAGE_SIZE == 0 && NextOf(rs, j) % PAGE_SIZE == 0
  {
    SortedOrder(rs, 0, i + 1);
    if j + 1 < |rs| {
      SortedOrder(rs, i + 1, j + 1);
    }
  }

  lemma {:induction false} PlaceIsFirst(rs: seq<Region>, size: nat, i: nat)
    requires Sorted(rs) && 1 <= i <= |rs|
    ensures var k := Place(rs, size, i);
            && (k < |rs| ==> rs[k - 1].End() + size <= rs[k].base)
            && forall j :: i <= j < k ==> !Roomy(rs, j, size)
    decreases |rs| - i
  {
    if i < |rs| && !Roomy(rs, i, size) {
      PlaceIsFirst(rs, size, i + 1);
    }
  }

  lemma InsertKeepsSorted(rs: seq<Region>, size: nat)
    requires Sorted(rs) && size > 0 && size % PAGE_SIZE == 0
    ensures Sorted(Insert(rs, size))
  {
    var k := Place(rs, size, 1);
    PlaceIsFirst(rs, size, 1);
    EndIsAligned(rs[k - 1]);
    SortedInsertion(rs, k, Region(rs[k - 1].End(), size));
  }

  lemma InsertKeepsRoot(rs: seq<Region>, size: nat)
    requires rs != []
    ensures Insert(rs, size) != [] && Insert(rs, size)[0] == rs[0]
  {
  }

  lemma InsertEnds(rs: seq<Region>, size: nat, bound: nat)
    requires rs != [] && rs[|rs| - 1].End() <= bound && PlacedAt(rs, size) + size <= bound
    ensures Insert(rs, size) != [] && Insert(rs, size)[0] == rs[0]
    ensures Insert(rs, size)[|Insert(rs, size)| - 1].End() <= bound
  {
  }

  // Without frees the regions lie back to back.
  ghost predicate Packed(rs: seq<Region>)
  {
    forall i :: 0 < i < |rs| ==> Touches(rs, i)
  }

  predicate Touches(rs: seq<Region>, i: nat)
    requires 0 < i < |rs|
  {
    rs[i - 1].End() == rs[i].base
  }

  lemma {:induction false} PackedHasNoGap(rs: seq<Region>, size: nat, i: nat)
    requires Packed(rs) && size > 0 && 1 <= i <= |rs|
    ensures Place(rs, size, i) == |rs|
    decreases |rs| - i
  {
    if i < |rs| {
      assert Touches(rs, i);
      PackedHasNoGap(rs, size, i + 1);
    }
  }

  lemma PackedInsert(rs: seq<Region>, size: nat)
    requires rs != [] && Packed(rs) && size > 0
    ensures Insert(rs, size) == rs + [Region(rs[|rs| - 1].End(), size)] && Packed(Insert(rs, size))
  {
    PackedHasNoGap(rs, size, 1);
    var after := Insert(rs, size);
    forall i | 0 < i < |after|
      ensures Touches(after, i)
    {
      assert i < |rs| ==> Touches(rs, i);
    }
  }

  // Regions lie back to back but for the gap before region k.
  ghost predicate OneHole(rs: seq<Region>, k: nat)
  {
    1 <= k < |rs| && forall i :: 0 < i < |rs| && i != k ==> Touches(rs, i)
  }

  lemma {:induction false} PlaceWithOneHole(rs: seq<Region>, k: nat, size: nat, i: nat)
    requires OneHole(rs, k) && size > 0 && 1 <= i <= |rs|
    ensures Place(rs, size, i) == if i <= k && Roomy(rs, k, size) then k else |rs|
    decreases |rs| - i
  {
    if i < |rs| {
      assert i != k ==> Touches(rs, i);
      PlaceWithOneHole(rs, k, size, i + 1);
    }
  }

  // Freeing a region that is not the last leaves a hole of its size.
  lemma RemovalLeavesAHole(rs: seq<Region>, k: nat)
    requires Sorted(rs) && Packed(rs) && 1 <= k < |rs| - 1
    ensures var after := Remove(rs, rs[k].base);
            && after == rs[..k] + rs[k + 1..] && OneHole(after, k) && after[k - 1].End() == rs[k].base
            && forall size: nat :: Roomy(after, k, size) <==> size <= rs[k].size
  {
    hide Sorted, Remove;
    RemoveAt(rs, k);
    var after := rs[..k] + rs[k + 1..];
    assert Touches(rs, k) && Touches(rs, k + 1);
    forall i | 0 < i < |after| && i != k
      ensures Touches(after, i)
    {
      assert if i < k then Touches(rs, i) else Touches(rs, i + 1);
    }
  }

  // What does not fit into the hole goes to the end and leaves the hole.
  lemma AppendKeepsTheHole(rs: seq<Region>, k: nat, size: nat)
    requires OneHole(rs, k) && size > 0 && !Roomy(rs, k, size)
    ensures Place(rs, size, 1) == |rs| && PlacedAt(rs, size) == rs[|rs| - 1].End()
    ensures Insert(rs, size) == rs + [Region(rs[|rs| - 1].End(), size)] && OneHole(Insert(rs, size), k)
  {
    PlaceWithOneHole(rs, k, size, 1);
    var after := Insert(rs, size);
    forall i | 0 < i < |after| && i != k
      ensures Touches(after, i)
    {
      assert i < |rs| ==> Touches(rs, i);
    }
  }

  lemma EndIsAligned(r: Region)
    requires r.base % PAGE_SIZE == 0 && r.size % PAGE_SIZE == 0
    ensures r.End() % PAGE_SIZE == 0
  {
  }

  lemma SortedInsertion(rs: seq<Region>, k: nat, r: Region)
    requires Sorted(rs) && 1 <= k <= |rs| && r.size > 0 && r.base % PAGE_SIZE == 0 && r.size % PAGE_SIZE == 0
    requires rs[k - 1].End() <= r.base && (k < |rs| ==> r.End() <= rs[k].base)
    ensures Sorted(rs[..k] + [r] + rs[k..])
  {
    var after := rs[..k] + [r] + rs[k..];
    forall i | 0 <= i < |after|
      ensures after[i] == if i < k then rs[i] else if i == k then r else rs[i - 1]
    {
    }
    forall i | 0 < i < |after|
      ensures Above(after, i)
    {
      assert i < k ==> Above(rs, i);
      assert i > k + 1 ==> Above(rs, i - 1);
    }
  }

  ghost predicate Fits(rs: seq<Region>, b: nat, size: nat)
  {
    forall i :: 0 <= i < |rs| ==> b + size <= rs[i].base || rs[i].End() <= b
  }

  // The new region overlaps nothing, and no lower address above vm_root would do.
  lemma InsertTakesTheLowestFit(rs: seq<Region>, size: nat)
    requires Sorted(rs) && size > 0
    ensures rs[0].base <= PlacedAt(rs, size) && Fits(rs, PlacedAt(rs, size), size)
    ensures forall b: nat :: rs[0].base <= b && Fits(rs, b, size) ==> PlacedAt(rs, size) <= b
  {
    var k := Place(rs, size, 1);
    PlaceIsFirst(rs, size, 1);
    forall i | 0 <= i < |rs|
      ensures PlacedAt(rs, size) + size <= rs[i].base || rs[i].End() <= PlacedAt(rs, size)
    {
      if i < k - 1 { SortedOrder(rs, i, k - 1); }
      if k < i { SortedOrder(rs, k, i); }
    }
    if k > 1 {
      SortedOrder(rs, 0, k - 1);
    }
    forall b: nat | rs[0].base <= b && Fits(rs, b, size)
      ensures PlacedAt(rs, size) <= b
    {
      LastBelow(rs, b, size, k - 1);
    }
  }

  // Walking up from vm_root, an address that fits lies above every region before the first large gap.
  lemma {:induction false} LastBelow(rs: seq<Region>, b: nat, size: nat, i: nat)
    requires Sorted(rs) && rs[0].base <= b && Fits(rs, b, size) && size > 0
    requires i < Place(rs, size, 1)
    ensures rs[i].End() <= b
    decreases i
  {
    if i > 0 {
      LastBelow(rs, b, size, i - 1);
      PlaceIsFirst(rs, size, 1);
      assert !Roomy(rs, i, size);
    }
  }

  lemma TailIsSorted(rs: seq<Region>)
    requires Sorted(rs) && |rs| > 1
    ensures Sorted(rs[1..])
  {
    var tail := rs[1..];
    SortedOrder(rs, 0, 1);
    forall i | 0 < i < |tail|
      ensures Above(tail, i)
    {
      assert Above(rs, i + 1);
    }
  }

  lemma WithoutIsSorted(rs: seq<Region>, k: nat)
    requires Sorted(rs) && 0 < k < |rs|
    ensures Sorted(rs[..k] + rs[k + 1..])
  {
    var after := rs[..k] + rs[k + 1..];
    forall i | 0 < i < |after|
      ensures Above(after, i)
    {
      if i < k {
        assert Above(rs, i);
      } else if i == k {
        SortedOrder(rs, k - 1, k + 1);
      } else {
        assert Above(rs, i + 1);
      }
    }
  }

  lemma {:induction false} RemoveAt(rs: seq<Region>, k: nat)
    requires Sorted(rs) && k < |rs|
    ensures Remove(rs, rs[k].base) == rs[..k] + rs[k + 1..]
    decreases k
  {
    if k > 0 {
      var tail := rs[1..];
      TailIsSorted(rs);
      SortedOrder(rs, 0, k);
      RemoveAt(tail, k - 1);
      assert [rs[0]] + (tail[..k - 1] + tail[k..]) == rs[..k] + rs[k + 1..];
    }
  }

  lemma {:induction false} RemoveAbsent(rs: seq<Region>, target: int)
    requires forall i :: 0 <= i < |rs| ==> rs[i].base != target
    ensures Remove(rs, target) == rs
  {
    if rs != [] {
      RemoveAbsent(rs[1..], target);
    }
  }

  lemma RemoveKeepsSorted(rs: seq<Region>, target: int)
    requires Sorted(rs) && target != rs[0].base
    ensures Sorted(Remove(rs, target)) && Remove(rs, target)[0] == rs[0]
  {
    if i :| 0 <= i < |rs| && rs[i].base == target {
      RemoveAt(rs, i);
      WithoutIsSorted(rs, i);
    } else {
      RemoveAbsent(rs, target);
    }
  }

  // Freeing a region by its own header restores the list.
  lemma RemoveUndoesInsert(rs: seq<Region>, size: nat)
    requires Sorted(rs) && size > 0 && size % PAGE_SIZE == 0
    ensures Remove(Insert(rs, size), PlacedAt(rs, size)) == rs
  {
    hide Sorted, Remove;
    SortedHasRoot(rs);
    var k := Place(rs, size, 1);
    InsertKeepsSorted(rs, size);
    RemoveAt(Insert(rs, size), k);
    InsertedIsOut(rs, k, Region(PlacedAt(rs, size), size));
  }

  lemma SortedHasRoot(rs: seq<Region>)
    requires Sorted(rs)
    ensures |rs| >= 1
  {
  }

  lemma InsertedIsOut(rs: seq<Region>, k: nat, r: Region)
    requires k <= |rs|
    ensures var more := rs[..k] + [r] + rs[k..]; more[k] == r && more[..k] + more[k + 1..] == rs
  {
  }

  // vmm_free of the pointer that vmm_allocate returned restores the list exactly when the region went
  // after the last one; for a reused gap the pointer matches no region and nothing is unlinked.
  lemma FreeOfReturnedPointer(rs: seq<Region>, size: nat)
    requires Sorted(rs) && size > 0 && size % PAGE_SIZE == 0
    ensures Remove(Insert(rs, size), Returned(rs, size) - HEADER)
            == if Place(rs, size, 1) == |rs| then rs else Insert(rs, size)
    ensures Insert(rs, size) != rs
  {
    InsertKeepsSorted(rs, size);
    if Place(rs, size, 1) == |rs| {
      RemoveUndoesInsert(rs, size);
    } else {
      RemoveAbsent(Insert(rs, size), Returned(rs, size) - HEADER);
    }
    assert |Insert(rs, size)| == |rs| + 1;
  }

  // ---------------------------------------------------------------------------------------------
  // Runs

  datatype Call = Allocate(size: nat) | Free(target: int)

  function Apply(rs: seq<Region>, call: Call): seq<Region>
    requires |rs| >= 1
  {
    match call
    case Allocate(size) => Insert(rs, size)
    case Free(target) => Remove(rs, target)
  }

  ghost predicate Run(states: seq<seq<Region>>, calls: seq<Call>)
  {
    && |states| == |calls| + 1 && Sorted(states[0])
    && forall i :: 0 <= i < |calls| ==>
         && |states[i]| >= 1 && states[i + 1] == Apply(states[i], calls[i])
         && match calls[i]
            case Allocate(size) => size > 0 && size % PAGE_SIZE == 0
            case Free(target) => target != states[0][0].base
  }

  // Over any run of allocations and frees of other regions than vm_root the list stays sorted.
  lemma {:induction false} RunStaysSorted(states: seq<seq<Region>>, calls: seq<Call>, i: nat)
    requires Run(states, calls) && i < |states|
    ensures Sorted(states[i]) && states[i][0] == states[0][0]
  {
    if i > 0 {
      RunStaysSorted(states, calls, i - 1);
      match calls[i - 1]
      case Allocate(size) => InsertKeepsSorted(states[i - 1], size);
      case Free(target) => RemoveKeepsSorted(states[i - 1], target);
    }
  }
}
