/** The stores of kmalloc and kfree (src/mem/kheap.c) into the bytes of the heap, and what they do to the chain. */
module HeapStores {
  import opened ByteMemory
  import opened HeapBlocks
  import opened HeapMemory

  // Bytes of live payloads are the caller's.
  ghost predicate KeepsPayloads(m: Bytes, m': Bytes, live: map<nat, nat>)
  {
    forall p: nat, x: nat :: p in live && p <= x < p + live[p] ==> m'(x) == m(x)
  }

  lemma PayloadsUnchanged(m: Bytes, live: map<nat, nat>)
    ensures KeepsPayloads(m, m, live)
  {
  }

  function Max(a: nat, b: nat): nat {
    if a < b then b else a
  }

  // Rewriting headers inside a free node, or past the end, touches no live payload.
  lemma FreeBytesAreNotLive(nodes: seq<Node>, start: nat, head: nat, live: map<nat, nat>, k: nat, m: Bytes, m': Bytes)
    requires Inv(nodes, start, head, live) && k < |nodes| && nodes[k].status == FREE
    requires SameOutside(m, m', nodes[k].addr, nodes[k].End())
    ensures KeepsPayloads(m, m', live)
  {
    hide Tiled, NoFreeNeighbours, Serves;
    forall p: nat, x: nat | p in live && p <= x < p + live[p]
      ensures m'(x) == m(x)
    {
      var i := IndexOfBlock(nodes, live, p);
      if i < k {
        InOrder(nodes, start, head, i, k);
      } else {
        InOrder(nodes, start, head, k, i);
      }
    }
  }

  lemma BytesPastTheEndAreNotLive(nodes: seq<Node>, start: nat, head: nat, live: map<nat, nat>, m: Bytes,
                                  m': Bytes, to: nat)
    requires Inv(nodes, start, head, live) && SameOutside(m, m', EndOf(nodes, start), to)
    ensures KeepsPayloads(m, m', live)
  {
    hide Tiled, NoFreeNeighbours, Serves;
    forall p: nat, x: nat | p in live && p <= x < p + live[p]
      ensures m'(x) == m(x)
    {
      var i := IndexOfBlock(nodes, live, p);
      BeforeEnd(nodes, start, head, i);
    }
  }

  // The stores of kmalloc into the node n it reuses.
  function HoleStores(m: Bytes, n: Node, size: nat): Bytes {
    var m1 := StoreStatus(m, n.addr, USED);
    if Splits(n, size) then StoreHeader(StoreHeader(m1, Given(n, size)), Remainder(n, size)) else m1
  }

  lemma HoleStoresWrite(m: Bytes, n: Node, size: nat)
    requires NodeAt(m, n.addr) == n && n.size < WORD_LIMIT
    ensures var m' := HoleStores(m, n, size);
            && SameOutside(m, m', n.addr, n.End())
            && NodeAt(m', n.addr) == Given(n, size)
            && (Splits(n, size) ==> NodeAt(m', Remainder(n, size).addr) == Remainder(n, size))
  {
    var m1 := StoreStatus(m, n.addr, USED);
    StatusStored(m, n.addr, USED);
    if Splits(n, size) {
      var m2 := StoreHeader(m1, Given(n, size));
      HeaderStored(m1, Given(n, size));
      HeaderStored(m2, Remainder(n, size));
      HeaderUntouched(m2, StoreHeader(m2, Remainder(n, size)), Remainder(n, size).addr,
                      Remainder(n, size).addr + NODE, n.addr);
    }
  }

  lemma HoleTaken(m: Bytes, nodes: seq<Node>, start: nat, head: nat, size: nat)
    requires Tiled(nodes, start, head) && Holds(m, nodes) && FirstFit(nodes, size, 0) < |nodes|
    ensures var m' := HoleStores(m, nodes[FirstFit(nodes, size, 0)], size);
            Chain(m', start, head) == AllocNodes(nodes, start, head, size)
  {
    hide NodeAt, Tiled, Splice, StoreHeader, StoreStatus, SameOutside, FirstFit;
    var k := FirstFit(nodes, size, 0);
    var n := nodes[k];
    var m', mid := HoleStores(m, n, size), Replacement(n, size, head);
    SizeIsAWord(m, n.addr);
    NodeSize(m, n.addr);
    HoleStoresWrite(m, n, size);
    AllocKeepsTiled(nodes, start, head, size);
    ChainAfterSplice(m, m', nodes, start, head, k, 1, mid);
  }

  lemma NodeSize(m: Bytes, a: nat)
    ensures NodeAt(m, a).size == SizeAt(m, a) && NodeAt(m, a).status == StatusAt(m, a)
  {
  }

  // Where a walk stands after i nodes.
  function AddressAt(nodes: seq<Node>, start: nat, i: nat): nat
    requires i <= |nodes|
  {
    if i < |nodes| then nodes[i].addr else EndOf(nodes, start)
  }

  // The walk is below `head` exactly while it has not reached the end of the chain.
  lemma AtNode(nodes: seq<Node>, start: nat, head: nat, i: nat)
    requires Tiled(nodes, start, head) && i <= |nodes|
    ensures AddressAt(nodes, start, i) < head <==> i < |nodes|
    ensures AddressAt(nodes, start, 0) == start
    ensures i == |nodes| ==> AddressAt(nodes, start, i) == EndOf(nodes, start)
    ensures i < |nodes| ==> AddressAt(nodes, start, i) == nodes[i].addr
    ensures i < |nodes| ==> AddressAt(nodes, start, i + 1) == nodes[i].End()
  {
    if i + 1 < |nodes| {
      assert Linked(nodes, i + 1);
    }
  }

  // The bytes past the end after a hole was reused: the old ones, or the remainder that dropped out.
  function BeyondAfter(n: Node, size: nat, head: nat, beyond: Node): Node {
    if Splits(n, size) && head <= Remainder(n, size).addr then Remainder(n, size) else beyond
  }

  // The stores of kmalloc for a new last block.
  lemma BlockAppended(m: Bytes, nodes: seq<Node>, start: nat, head: nat, size: nat)
    requires Tiled(nodes, start, head) && Holds(m, nodes) && FirstFit(nodes, size, 0) == |nodes| && size < WORD_LIMIT
    ensures var e := EndOf(nodes, start); var m' := StoreHeader(m, Node(e, size, USED));
            && Chain(m', start, e + NODE) == AllocNodes(nodes, start, head, size)
            && SameOutside(m, m', e, e + NODE)
  {
    hide NodeAt, Tiled, FirstFit;
    var e := EndOf(nodes, start);
    var n := Node(e, size, USED);
    var m', after := StoreHeader(m, n), nodes + [n];
    HeaderStored(m, n);
    AppendTiled(nodes, start, head, size);
    forall i | 0 <= i < |after|
      ensures NodeAt(m', after[i].addr) == after[i]
    {
      if i < |nodes| {
        BeforeEnd(nodes, start, head, i);
        HeaderUntouched(m, m', e, e + NODE, nodes[i].addr);
      }
    }
    ChainIsUnique(m', after, start, e + NODE);
  }

  // Only the headers at a and b differ; b may be null.
  ghost predicate OnlyHeaders(m: Bytes, m': Bytes, a: nat, b: nat)
  {
    forall x: nat :: !(a <= x < a + NODE) && !(b != 0 && b <= x < b + NODE) ==> m'(x) == m(x)
  }

  // What kmalloc hands out: the block at ptr is the first free node that is large enough, or a new last block.
  // A free node is given out whole, or it is cut exactly behind the bytes asked for; then a free node of at least
  // one byte reaches from there to its old end. No more than a header's size is ever given out in excess, and no byte
  // but those of the one or two headers changes.
  ghost predicate HandsOut(m0: Bytes, nodes: seq<Node>, end: nat, m: Bytes, size: nat, ptr: nat)
  {
    && NODE <= ptr && (forall n :: n in nodes && n.Payload() < ptr ==> n.status != FREE || n.size < size)
    && var n, g := NodeAt(m0, ptr - NODE), NodeAt(m, ptr - NODE);
       && g.status == USED && size <= g.size <= size + NODE
       && if ptr - NODE == end then g.size == size && OnlyHeaders(m0, m, g.addr, 0)
          else && n in nodes && n.status == FREE && size <= n.size
               && if g.End() == n.End() then OnlyHeaders(m0, m, g.addr, 0)
                  else g.size == size && LeavesGap(m, g.End(), n.End()) && OnlyHeaders(m0, m, g.addr, g.End())
  }

  ghost predicate LeavesGap(m: Bytes, from: nat, to: nat) {
    NodeAt(m, from).status == FREE && NodeAt(m, from).size > 0 && NodeAt(m, from).End() == to
  }

  lemma HoleHandsOut(m: Bytes, nodes: seq<Node>, start: nat, head: nat, size: nat)
    requires Tiled(nodes, start, head) && Holds(m, nodes) && FirstFit(nodes, size, 0) < |nodes|
    ensures var n := nodes[FirstFit(nodes, size, 0)];
            HandsOut(m, nodes, EndOf(nodes, start), HoleStores(m, n, size), size, n.Payload())
  {
    hide NodeAt, Tiled, FirstFit, HoleStores, Holds, SameOutside;
    var k := FirstFit(nodes, size, 0);
    var n := nodes[k];
    FirstFitFits(nodes, size, 0);
    HolderOf(m, nodes, k);
    HoleStoresWrite(m, n, size);
    HoleHeaders(m, n, size);
    BeforeEnd(nodes, start, head, k);
    NoneBefore(nodes, start, head, size, k);
  }

  lemma HoleHeaders(m: Bytes, n: Node, size: nat)
    requires size <= n.size
    ensures OnlyHeaders(m, HoleStores(m, n, size), n.addr, if Splits(n, size) then Given(n, size).End() else 0)
  {
  }

  lemma NoneBefore(nodes: seq<Node>, start: nat, head: nat, size: nat, k: nat)
    requires Tiled(nodes, start, head) && k <= |nodes|
    requires forall j :: 0 <= j < k ==> nodes[j].size < size || nodes[j].status != FREE
    ensures forall n :: n in nodes && n.addr < AddressAt(nodes, start, k) ==> n.status != FREE || n.size < size
  {
    hide Tiled;
    forall n | n in nodes && n.addr < AddressAt(nodes, start, k)
      ensures n.status != FREE || n.size < size
    {
      var j :| 0 <= j < |nodes| && nodes[j] == n;
      if k < j {
        InOrder(nodes, start, head, k, j);
      }
    }
  }

  lemma AppendHandsOut(m: Bytes, nodes: seq<Node>, start: nat, head: nat, size: nat)
    requires Tiled(nodes, start, head) && FirstFit(nodes, size, 0) == |nodes| && size < WORD_LIMIT
    ensures var e := EndOf(nodes, start);
            HandsOut(m, nodes, e, StoreHeader(m, Node(e, size, USED)), size, e + NODE)
  {
    hide NodeAt, Tiled, FirstFit, StoreHeader;
    FirstFitFits(nodes, size, 0);
    HeaderStored(m, Node(EndOf(nodes, start), size, USED));
    HeaderWritten(m, Node(EndOf(nodes, start), size, USED));
    NoneBefore(nodes, start, head, size, |nodes|);
  }

  // What kmalloc does to memory.
  function AllocMemory(m: Bytes, start: nat, head: nat, size: nat): Bytes {
    var nodes := Chain(m, start, head);
    var k := FirstFit(nodes, size, 0);
    if k < |nodes| then HoleStores(m, nodes[k], size) else StoreHeader(m, Node(EndOf(nodes, start), size, USED))
  }

  lemma FindBlockStep(nodes: seq<Node>, p: nat, i: nat)
    requires i <= |nodes|
    ensures FindBlock(nodes, p, i) == if i == |nodes| || IsBlock(nodes[i], p) then i else FindBlock(nodes, p, i + 1)
  {
  }

  lemma FirstFitStep(nodes: seq<Node>, size: nat, i: nat)
    requires i <= |nodes|
    ensures FirstFit(nodes, size, i)
            == if i == |nodes| || (nodes[i].size >= size && nodes[i].status == FREE) then i
               else FirstFit(nodes, size, i + 1)
  {
  }

  // A new last block: every old payload lies below it.
  lemma Appended(m: Bytes, nodes: seq<Node>, start: nat, head: nat, live: map<nat, nat>, size: nat)
    requires Inv(nodes, start, head, live) && FirstFit(nodes, size, 0) == |nodes|
    ensures var e := EndOf(nodes, start); var m' := StoreHeader(m, Node(e, size, USED));
            var after := AllocNodes(nodes, start, head, size);
            && KeepsPayloads(m, m', live)
            && EndOf(after, start) == e + NODE + size
            && SameOutside(m, m', start, EndOf(after, start))
  {
    hide Tiled, NoFreeNeighbours, Serves, FirstFit, StoreHeader, SameOutside;
    var e := EndOf(nodes, start);
    var m' := StoreHeader(m, Node(e, size, USED));
    HeaderWritten(m, Node(e, size, USED));
    BytesPastTheEndAreNotLive(nodes, start, head, live, m, m', e + NODE);
    if nodes != [] {
      BeforeEnd(nodes, start, head, 0);
    }
    Widen(m, m', e, e + NODE, start, e + NODE + size);
  }

  lemma HeaderWritten(m: Bytes, n: Node)
    ensures SameOutside(m, StoreHeader(m, n), n.addr, n.Payload())
    ensures StoreHeader(m, n) == StoreStatus(StoreSize(m, n.addr, n.size), n.addr, n.status)
  {
  }

  // kmalloc out of a hole: what becomes of the chain, the live payloads and the bytes past the end.
  lemma HoleReused(m: Bytes, nodes: seq<Node>, start: nat, head: nat, live: map<nat, nat>, size: nat)
    requires Inv(nodes, start, head, live) && Holds(m, nodes) && FirstFit(nodes, size, 0) < |nodes|
    ensures var n := nodes[FirstFit(nodes, size, 0)]; var m' := HoleStores(m, n, size);
            var after := AllocNodes(nodes, start, head, size);
            && Chain(m', start, head) == after
            && EndOf(after, start) <= EndOf(nodes, start)
            && KeepsPayloads(m, m', live)
            && SameOutside(m, m', start, EndOf(nodes, start))
            && NodeAt(m', EndOf(after, start)) == BeyondAfter(n, size, head, NodeAt(m, EndOf(nodes, start)))
  {
    hide NodeAt, Tiled, NoFreeNeighbours, Serves, FirstFit, HoleStores, Holds, SameOutside, KeepsPayloads;
    hide BeyondAfter, AllocNodes;
    var k := FirstFit(nodes, size, 0);
    var n := nodes[k];
    FirstFitFits(nodes, size, 0);
    HoleTaken(m, nodes, start, head, size);
    HolderOf(m, nodes, k);
    HoleStoresWrite(m, n, size);
    FreeBytesAreNotLive(nodes, start, head, live, k, m, HoleStores(m, n, size));
    BeforeEnd(nodes, start, head, k);
    Widen(m, HoleStores(m, n, size), n.addr, n.End(), start, EndOf(nodes, start));
    BeyondHole(m, nodes, start, head, size);
  }

  lemma Widen(m: Bytes, m': Bytes, from: nat, to: nat, from': nat, to': nat)
    requires SameOutside(m, m', from, to) && from' <= from && to <= to'
    ensures SameOutside(m, m', from', to')
  {
  }

  lemma HolderOf(m: Bytes, nodes: seq<Node>, k: nat)
    requires Holds(m, nodes) && k < |nodes|
    ensures NodeAt(m, nodes[k].addr) == nodes[k] && nodes[k].size < WORD_LIMIT
  {
    hide LittleEndian;
    SizeIsAWord(m, nodes[k].addr);
  }

  // A remainder that drops out of the chain lies where the chain now ends.
  lemma BeyondHole(m: Bytes, nodes: seq<Node>, start: nat, head: nat, size: nat)
    requires Tiled(nodes, start, head) && Holds(m, nodes) && FirstFit(nodes, size, 0) < |nodes|
    ensures var n := nodes[FirstFit(nodes, size, 0)]; var m' := HoleStores(m, n, size);
            var after := AllocNodes(nodes, start, head, size);
            && EndOf(after, start) <= EndOf(nodes, start)
            && NodeAt(m', EndOf(after, start)) == BeyondAfter(n, size, head, NodeAt(m, EndOf(nodes, start)))
  {
    hide NodeAt, Tiled, FirstFit, HoleStores, Holds, SameOutside;
    var k := FirstFit(nodes, size, 0);
    var n := nodes[k];
    var m', mid := HoleStores(m, n, size), Replacement(n, size, head);
    var after := AllocNodes(nodes, start, head, size);
    FirstFitFits(nodes, size, 0);
    HolderOf(m, nodes, k);
    HoleStoresWrite(m, n, size);
    BeforeEnd(nodes, start, head, k);
    if k == |nodes| - 1 {
      assert after[|after| - 1] == mid[|mid| - 1];
    } else {
      assert after[|after| - 1] == nodes[|nodes| - 1];
    }
    if Splits(n, size) && head <= Remainder(n, size).addr {
      DroppedRemainderIsLast(nodes, start, head, k, size);
    } else {
      HeaderUntouched(m, m', n.addr, n.End(), EndOf(nodes, start));
    }
  }

  // ---------------------------------------------------------------------------------------------
  // kfree

  // a->size += b->size + sizeof(heap_node), in 64 bits
  function StoreSum(m: Bytes, a: nat, b: nat): Bytes {
    StoreSize(m, a, (SizeAt(m, a) + SizeAt(m, b) + NODE) % WORD_LIMIT)
  }

  // The stores of kheap_merge; 0 is the null pointer.
  function MergeStores(m: Bytes, current: nat, next: nat, previous: nat): Bytes {
    var m1 := if next != 0 && StatusAt(m, next) == FREE then StoreSum(m, current, next) else m;
    if previous != 0 && StatusAt(m1, previous) == FREE then StoreSum(m1, previous, current) else m1
  }

  lemma SumStored(m: Bytes, a: nat, b: nat)
    requires SizeAt(m, a) + SizeAt(m, b) + NODE < WORD_LIMIT
    ensures NodeAt(StoreSum(m, a, b), a) == Node(a, SizeAt(m, a) + SizeAt(m, b) + NODE, StatusAt(m, a))
    ensures SameOutside(m, StoreSum(m, a, b), a, a + NODE)
  {
    hide SizeAt, StatusAt;
    SizeStored(m, a, SizeAt(m, a) + SizeAt(m, b) + NODE);
  }

  lemma StatusChanged(m: Bytes, a: nat, s: Status)
    ensures NodeAt(StoreStatus(m, a, s), a) == Node(a, SizeAt(m, a), s)
    ensures SameOutside(m, StoreStatus(m, a, s), a, a + NODE)
  {
    hide SizeAt, StatusAt;
    StatusStored(m, a, s);
  }

  // The stores of kfree into the block at `current`.
  function FreeStores(m: Bytes, current: nat, next: nat, previous: nat): Bytes {
    MergeStores(StoreStatus(m, current, FREE), current, next, previous)
  }

  // What kfree does to memory; a pointer that no block has changes nothing.
  function FreeMemory(m: Bytes, start: nat, head: nat, p: nat): Bytes {
    var nodes := Chain(m, start, head);
    var k := FindBlock(nodes, p, 0);
    if k == |nodes| then m
    else FreeStores(m, nodes[k].addr, nodes[k].End(), if k > 0 then nodes[k - 1].addr else 0)
  }

  // One merge: the header at a becomes the merged node, nothing outside that header changes.
  lemma MergeOne(m: Bytes, a: nat, b: nat)
    requires Merged(NodeAt(m, a), NodeAt(m, b)).size < WORD_LIMIT && StatusAt(m, a) == FREE
    ensures var m' := if StatusAt(m, b) == FREE then StoreSum(m, a, b) else m;
            NodeAt(m', a) == Merged(NodeAt(m, a), NodeAt(m, b)) && SameOutside(m, m', a, a + NODE)
  {
    hide SizeAt, StatusAt, StoreSum, SameOutside;
    if StatusAt(m, b) == FREE {
      SumStored(m, a, b);
    } else {
      Unchanged(m, a, a + NODE);
    }
  }

  lemma Unchanged(m: Bytes, from: nat, to: nat)
    ensures SameOutside(m, m, from, to)
  {
  }

  lemma FreeStoresWrite(m: Bytes, n: Node, p: Node)
    requires NodeAt(m, n.addr) == n && p.End() == n.addr && NodeAt(m, p.addr) == p && 0 < p.addr
    requires Merged(n, NodeAt(m, n.End())).size < WORD_LIMIT
    requires p.status == FREE ==> Merged(p, Merged(n, NodeAt(m, n.End()))).size < WORD_LIMIT
    ensures var m' := FreeStores(m, n.addr, n.End(), p.addr); var f := Merged(n, NodeAt(m, n.End()));
            && OnlyHeaders(m, m', n.addr, p.addr)
            && (if p.status == FREE then NodeAt(m', p.addr) == Merged(p, f)
                else NodeAt(m', n.addr) == f && OnlyHeaders(m, m', n.addr, 0))
  {
    hide SizeAt, StatusAt, StoreSum, StoreStatus;
    var f := Merged(n, NodeAt(m, n.End()));
    var m0 := StoreStatus(m, n.addr, FREE);
    StatusChanged(m, n.addr, FREE);
    HeaderUntouched(m, m0, n.addr, n.Payload(), n.End());
    HeaderUntouched(m, m0, n.addr, n.Payload(), p.addr);
    var m1 := if StatusAt(m0, n.End()) == FREE then StoreSum(m0, n.addr, n.End()) else m0;
    MergeOne(m0, n.addr, n.End());
    HeaderUntouched(m0, m1, n.addr, n.Payload(), p.addr);
    if p.status == FREE {
      MergeOne(m1, p.addr, n.addr);
    }
  }

  lemma FreeStoresWriteFirst(m: Bytes, n: Node)
    requires NodeAt(m, n.addr) == n && Merged(n, NodeAt(m, n.End())).size < WORD_LIMIT
    ensures var m' := FreeStores(m, n.addr, n.End(), 0);
            OnlyHeaders(m, m', n.addr, 0) && NodeAt(m', n.addr) == Merged(n, NodeAt(m, n.End()))
  {
    hide SizeAt, StatusAt, StoreSum, StoreStatus;
    var m0 := StoreStatus(m, n.addr, FREE);
    StatusChanged(m, n.addr, FREE);
    HeaderUntouched(m, m0, n.addr, n.Payload(), n.End());
    MergeOne(m0, n.addr, n.End());
  }

  // What kheap_merge is called with: a free node, the address where it ends, and the node that ends where
  // it starts, if there is one. The free nodes among the three make up the stretch [from, to).
  ghost predicate Mergeable(m: Bytes, current: nat, next: nat, previous: nat, from: nat, to: nat)
  {
    && NodeAt(m, current).status == FREE && next == NodeAt(m, current).End()
    && (previous != 0 ==> NodeAt(m, previous).End() == current)
    && from == (if previous != 0 && NodeAt(m, previous).status == FREE then previous else current)
    && to == (if NodeAt(m, next).status == FREE then NodeAt(m, next).End() else next)
    && to - from < WORD_LIMIT
  }

  // After kheap_merge one free node covers the stretch, and only headers of the two lower nodes changed.
  lemma MergedIsOneNode(m: Bytes, current: nat, next: nat, previous: nat, from: nat, to: nat)
    requires Mergeable(m, current, next, previous, from, to)
    ensures var m' := MergeStores(m, current, next, previous);
            && OnlyHeaders(m, m', current, previous)
            && NodeAt(m', from).status == FREE && NodeAt(m', from).End() == to
  {
    hide SizeAt, StatusAt, StoreSum;
    NodeSize(m, current);
    NodeSize(m, next);
    NodeSize(m, previous);
    var m1 := if StatusAt(m, next) == FREE then StoreSum(m, current, next) else m;
    MergeOne(m, current, next);
    if previous != 0 {
      HeaderUntouched(m, m1, current, current + NODE, previous);
      NodeSize(m1, previous);
      if NodeAt(m, previous).status == FREE {
        MergeOne(m1, previous, current);
      }
    }
  }

  // The two headers that split writes lie back to back and end where the sizes say.
  lemma SplitIsTwoNodes(m: Bytes, a: Node, b: Node)
    requires a.size < WORD_LIMIT && b.size < WORD_LIMIT && b.addr == a.End()
    ensures var m' := StoreHeader(StoreHeader(m, a), b);
            && NodeAt(m', a.addr) == a && NodeAt(m', b.addr) == b
            && OnlyHeaders(m, m', a.addr, b.addr)
  {
    hide NodeAt;
    var m1 := StoreHeader(m, a);
    HeaderStored(m, a);
    HeaderStored(m1, b);
    HeaderWritten(m, a);
    HeaderWritten(m1, b);
    HeaderUntouched(m1, StoreHeader(m1, b), b.addr, b.Payload(), a.addr);
  }

  // Headers are no part of a live payload.
  lemma HeadersAreNotLive(nodes: seq<Node>, start: nat, head: nat, live: map<nat, nat>, m: Bytes, m': Bytes, k: nat)
    requires Inv(nodes, start, head, live) && k < |nodes|
    requires OnlyHeaders(m, m', nodes[k].addr, if k > 0 then nodes[k - 1].addr else 0)
    ensures KeepsPayloads(m, m', live)
  {
    hide Inv;
    forall p: nat, x: nat | p in live && p <= x < p + live[p]
      ensures m'(x) == m(x)
    {
      LiveBlockMeetsNoHeader(nodes, start, head, live, p, k);
      if k > 0 {
        LiveBlockMeetsNoHeader(nodes, start, head, live, p, k - 1);
      }
    }
  }

  lemma HeadersWithin(m: Bytes, m': Bytes, a: nat, b: nat, from: nat, to: nat)
    requires OnlyHeaders(m, m', a, b) && from <= a && a + NODE <= to && (b == 0 || (from <= b && b + NODE <= to))
    ensures SameOutside(m, m', from, to)
  {
  }

  // The node that stands for block k in the chain after kfree fits into 64 bits if the chain does.
  lemma FreedFits(nodes: seq<Node>, start: nat, head: nat, k: nat, beyond: Node)
    requires Tiled(nodes, start, head) && k < |nodes| && EndOf(FreeAt(nodes, k, beyond), start) < WORD_LIMIT
    ensures var f := Merged(nodes[k], Follower(nodes, k, beyond));
            && f.size < WORD_LIMIT
            && (k > 0 && nodes[k - 1].status == FREE ==> Merged(nodes[k - 1], f).size < WORD_LIMIT)
  {
    hide Tiled, Splice;
    var f := Merged(nodes[k], Follower(nodes, k, beyond));
    var drop := if k + 1 < |nodes| && nodes[k + 1].status == FREE then 2 else 1;
    var after := FreeAt(nodes, k, beyond);
    FreeKeepsTiled(nodes, start, head, k, beyond);
    if k > 0 && nodes[k - 1].status == FREE {
      SpliceAt(nodes, k - 1, drop + 1, Merged(nodes[k - 1], f));
      BeforeEnd(after, start, head, k - 1);
    } else {
      SpliceAt(nodes, k, drop, f);
      BeforeEnd(after, start, head, k);
    }
  }

  lemma SpliceAt(nodes: seq<Node>, k: nat, drop: nat, f: Node)
    requires k + drop <= |nodes|
    ensures k < |Splice(nodes, k, drop, [f])| && Splice(nodes, k, drop, [f])[k] == f
  {
  }

  // What follows node k in memory.
  lemma FollowerInMemory(m: Bytes, nodes: seq<Node>, start: nat, head: nat, k: nat)
    requires Tiled(nodes, start, head) && Holds(m, nodes) && k < |nodes|
    ensures NodeAt(m, nodes[k].End()) == Follower(nodes, k, NodeAt(m, EndOf(nodes, start)))
  {
    hide NodeAt;
    if k + 1 < |nodes| {
      assert Linked(nodes, k + 1);
    }
  }

  // kfree of block k: what becomes of the chain and of the payloads.
  lemma BlockFreed(m: Bytes, nodes: seq<Node>, start: nat, head: nat, live: map<nat, nat>, k: nat)
    requires Inv(nodes, start, head, live) && Holds(m, nodes) && k < |nodes| && 0 < start
    requires EndOf(FreeAt(nodes, k, NodeAt(m, EndOf(nodes, start))), start) < WORD_LIMIT
    ensures var m' := FreeStores(m, nodes[k].addr, nodes[k].End(), if k > 0 then nodes[k - 1].addr else 0);
            && Chain(m', start, head) == FreeAt(nodes, k, NodeAt(m, EndOf(nodes, start)))
            && KeepsPayloads(m, m', live)
            && SameOutside(m, m', start, EndOf(nodes, start))
  {
    hide NodeAt, Tiled, NoFreeNeighbours, Serves, Holds, SameOutside, KeepsPayloads, FreeStores, OnlyHeaders, Splice;
    var n, beyond := nodes[k], NodeAt(m, EndOf(nodes, start));
    var f := Merged(n, Follower(nodes, k, beyond));
    var drop := if k + 1 < |nodes| && nodes[k + 1].status == FREE then 2 else 1;
    var m' := FreeStores(m, n.addr, n.End(), if k > 0 then nodes[k - 1].addr else 0);
    HolderOf(m, nodes, k);
    FollowerInMemory(m, nodes, start, head, k);
    FreedFits(nodes, start, head, k, beyond);
    FreeKeepsTiled(nodes, start, head, k, beyond);
    BeforeEnd(nodes, start, head, k);
    if k == 0 {
      FreeStoresWriteFirst(m, n);
      HeadersWithin(m, m', n.addr, 0, start, EndOf(nodes, start));
      FreedAlone(m, m', nodes, start, head, k, drop, f);
    } else {
      var p := nodes[k - 1];
      HolderOf(m, nodes, k - 1);
      BeforeEnd(nodes, start, head, k - 1);
      Adjacent(nodes, start, head, k);
      FreeStoresWrite(m, n, p);
      HeadersWithin(m, m', n.addr, p.addr, start, EndOf(nodes, start));
      if p.status == FREE {
        FreedIntoPrevious(m, m', nodes, start, head, k, drop, Merged(p, f));
      } else {
        FreedAlone(m, m', nodes, start, head, k, drop, f);
      }
    }
    HeadersAreNotLive(nodes, start, head, live, m, m', k);
  }

  lemma FreedAlone(m: Bytes, m': Bytes, nodes: seq<Node>, start: nat, head: nat, k: nat, drop: nat, f: Node)
    requires Tiled(nodes, start, head) && Holds(m, nodes) && 1 <= drop <= 2 && k + drop <= |nodes|
    requires OnlyHeaders(m, m', nodes[k].addr, 0) && f.addr == nodes[k].addr && NodeAt(m', f.addr) == f
    requires Tiled(Splice(nodes, k, drop, [f]), start, head)
    ensures Chain(m', start, head) == Splice(nodes, k, drop, [f])
  {
    hide NodeAt, Tiled, Splice, SameOutside, OnlyHeaders;
    if drop == 2 {
      InOrder(nodes, start, head, k, k + 1);
    }
    HeadersWithin(m, m', nodes[k].addr, 0, nodes[k].addr, nodes[k + drop - 1].End());
    ChainAfterSplice(m, m', nodes, start, head, k, drop, [f]);
  }

  lemma FreedIntoPrevious(m: Bytes, m': Bytes, nodes: seq<Node>, start: nat, head: nat, k: nat, drop: nat, f: Node)
    requires Tiled(nodes, start, head) && Holds(m, nodes) && 1 <= drop <= 2 && 0 < k && k + drop <= |nodes|
    requires OnlyHeaders(m, m', nodes[k].addr, nodes[k - 1].addr) && f.addr == nodes[k - 1].addr
        && NodeAt(m', f.addr) == f
    requires Tiled(Splice(nodes, k - 1, drop + 1, [f]), start, head)
    ensures Chain(m', start, head) == Splice(nodes, k - 1, drop + 1, [f])
  {
    hide NodeAt, Tiled, Splice, SameOutside, OnlyHeaders;
    InOrder(nodes, start, head, k - 1, k);
    if drop == 2 {
      InOrder(nodes, start, head, k, k + 1);
    }
    HeadersWithin(m, m', nodes[k].addr, nodes[k - 1].addr, nodes[k - 1].addr, nodes[k + drop - 1].End());
    ChainAfterSplice(m, m', nodes, start, head, k - 1, drop + 1, [f]);
  }

  // ---------------------------------------------------------------------------------------------
  // Writes of the kernel's other code

  // A write into a live payload or outside the heap is seen by no header of the chain.
  lemma WriteKeepsChain(m: Bytes, m': Bytes, nodes: seq<Node>, start: nat, head: nat, live: map<nat, nat>,
                        x: nat, n: nat)
    requires Inv(nodes, start, head, live) && Holds(m, nodes) && SameOutside(m, m', x, x + n)
    requires x + n <= start || EndOf(nodes, start) <= x || exists p :: Inside(live, p, x, n)
    ensures Chain(m', start, head) == nodes
  {
    hide NodeAt, Inv, SameOutside;
    InvTiled(nodes, start, head, live);
    forall i | 0 <= i < |nodes|
      ensures NodeAt(m', nodes[i].addr) == nodes[i]
    {
      BeforeEnd(nodes, start, head, i);
      if !(x + n <= start || EndOf(nodes, start) <= x) {
        var p :| Inside(live, p, x, n);
        LiveBlockMeetsNoHeader(nodes, start, head, live, p, i);
      }
      HeaderUntouched(m, m', x, x + n, nodes[i].addr);
    }
    ChainIsUnique(m', nodes, start, head);
  }

  // The n bytes at a lie inside the live block p.
  predicate Inside(live: map<nat, nat>, p: nat, a: nat, n: nat) {
    p in live && p <= a && a + n <= p + live[p]
  }

  lemma InvTiled(nodes: seq<Node>, start: nat, head: nat, live: map<nat, nat>)
    requires Inv(nodes, start, head, live)
    ensures Tiled(nodes, start, head)
  {
  }

  // The chain after kmalloc out of a hole and kfree of its result ends no higher than the memory past
  // the old end reaches.
  lemma ReleasedEnd(nodes: seq<Node>, start: nat, head: nat, live: map<nat, nat>, size: nat, beyond: Node)
    requires Inv(nodes, start, head, live) && FirstFit(nodes, size, 0) < |nodes|
    ensures var n := nodes[FirstFit(nodes, size, 0)];
            var after := AllocNodes(nodes, start, head, size);
            EndOf(FreeNodes(after, AllocAddr(nodes, start, size), BeyondAfter(n, size, head, beyond)), start)
            <= EndOf(nodes, start) + if beyond.status == FREE then NODE + beyond.size else 0
  {
    hide FreeNodes, FirstFit, Tiled, NoFreeNeighbours, Serves;
    var k := FirstFit(nodes, size, 0);
    var n := nodes[k];
    var after := AllocNodes(nodes, start, head, size);
    FirstFitFits(nodes, size, 0);
    AllocKeepsTiled(nodes, start, head, size);
    FreedEnd(after, start, head, AllocAddr(nodes, start, size), BeyondAfter(n, size, head, beyond));
    if k == |nodes| - 1 {
      assert after[|after| - 1] == Replacement(n, size, head)[|Replacement(n, size, head)| - 1];
    } else {
      assert after[|after| - 1] == nodes[|nodes| - 1];
    }
    if Splits(n, size) && head <= Remainder(n, size).addr {
      DroppedRemainderIsLast(nodes, start, head, k, size);
    }
  }
}
