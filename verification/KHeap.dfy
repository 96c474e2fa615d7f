/** src/mem/kheap.c: the kernel heap over a flat address space. */
module KHeap {
  import opened ByteMemory
  import opened HeapBlocks
  import opened HeapMemory
  import opened HeapStores


  class KernelHeap {
    var mem: Bytes
    var heapStart: nat
    var heapHead: nat
    ghost var live: map<nat, nat>

    ghost function Nodes(): seq<Node>
      reads this
    {
      Chain(mem, heapStart, heapHead)
    }

    ghost function End(): nat
      reads this
    {
      EndOf(Nodes(), heapStart)
    }

    // What the bytes past the end of the chain look like when they are read as a header.
    ghost function Beyond(): Node
      reads this
    {
      NodeAt(mem, End())
    }

    ghost predicate Valid()
      reads this
    {
      0 < heapStart && Inv(Nodes(), heapStart, heapHead, live) && End() < WORD_LIMIT
    }

    // `heap + sizeof(heap_node)` counts in units of heap_root.
    constructor InitKheap(mem: Bytes, heap: nat)
      requires heap + ROOT * NODE < WORD_LIMIT
      ensures Valid() && Nodes() == [] && live == map[]
      ensures this.mem == mem && heapStart == heapHead == heap + 144
    {
      this.mem := mem;
      heapHead := heap + ROOT * NODE;
      heapStart := heap + ROOT * NODE;
      live := map[];
    }

    // A node in use and a free one, back to back; a node of size + NODE + leftover bytes that stood there
    // before is replaced without a gap, and no byte but those of the two headers changes.
    method Split(startingAddress: nat, size: nat, leftover: nat)
      requires size < WORD_LIMIT && leftover < WORD_LIMIT
      modifies this`mem
      ensures var a, b := NodeAt(mem, startingAddress), NodeAt(mem, NodeAt(mem, startingAddress).End());
              && a == Node(startingAddress, size, USED) && b == Node(a.End(), leftover, FREE)
              && (old(NodeAt(mem, startingAddress)).size == size + NODE + leftover ==>
                    b.End() == old(NodeAt(mem, startingAddress)).End())
      ensures OnlyHeaders(old(mem), mem, startingAddress, startingAddress + size + NODE)
      ensures mem == StoreHeader(StoreHeader(old(mem), Node(startingAddress, size, USED)),
                                 Node(startingAddress + size + NODE, leftover, FREE))
    {
      hide NodeAt, OnlyHeaders;
      AddressOf(mem, startingAddress);
      SplitIsTwoNodes(mem, Node(startingAddress, size, USED), Node(startingAddress + size + NODE, leftover, FREE));
      var splittingAddress := startingAddress + size + NODE;
      mem := StoreSize(mem, startingAddress, size);
      mem := StoreStatus(mem, startingAddress, USED);
      mem := StoreSize(mem, splittingAddress, leftover);
      mem := StoreStatus(mem, splittingAddress, FREE);
    }

    // The body of kmalloc's loop for a node that fits.
    method TakeHole(current: nat, size: nat, ghost n: Node)
      requires NodeAt(mem, current) == n && n.addr == current
      modifies this`mem
      ensures mem == HoleStores(old(mem), n, size)
    {
      hide StoreHeader, StoreStatus, SizeAt, StatusAt;
      SizeIsAWord(mem, current);
      StatusStored(mem, current, USED);
      mem := StoreStatus(mem, current, USED);
      var sizeWeNeed := size + NODE;
      var sizeOfGap := SizeAt(mem, current);
      if sizeWeNeed < sizeOfGap {
        Split(current, size, sizeOfGap - sizeWeNeed);
      }
    }

    method KMalloc(size: nat) returns (ptr: nat)
      requires Valid() && size < SIZE_LIMIT
      requires FirstFit(Nodes(), size, 0) == |Nodes()| ==> End() + NODE + size < WORD_LIMIT
      modifies this
      ensures Valid() && heapStart == old(heapStart)
      ensures Nodes() == AllocNodes(old(Nodes()), heapStart, old(heapHead), size)
      ensures heapHead == AllocHead(old(Nodes()), heapStart, old(heapHead), size)
      ensures ptr == AllocAddr(old(Nodes()), heapStart, size)
      ensures ptr !in old(live) && live == old(live)[ptr := size]
      ensures HandsOut(old(mem), old(Nodes()), old(End()), mem, size, ptr)
      ensures mem == AllocMemory(old(mem), heapStart, old(heapHead), size)
      ensures KeepsPayloads(old(mem), mem, old(live))
      ensures SameOutside(old(mem), mem, heapStart, Max(old(End()), End()))
      ensures var k := FirstFit(old(Nodes()), size, 0);
              k < |old(Nodes())| ==> Beyond() == BeyondAfter(old(Nodes())[k], size, old(heapHead), old(Beyond()))
    {
      hide NodeAt, Tiled, NoFreeNeighbours, Serves, Chain, HoleStores, StoreHeader, StoreSize, StoreStatus;
      hide SameOutside, SizeAt, StatusAt, Holds, KeepsPayloads, AllocNodes, BeyondAfter, FirstFit, AddressAt, HandsOut;
      ghost var nodes, m0, head0, live0 := Nodes(), mem, heapHead, live;
      ChainIsTiled(mem, heapStart, heapHead);
      AllocKeepsInv(nodes, heapStart, heapHead, live, size);
      var current := heapStart;
      ghost var i := 0;
      AtNode(nodes, heapStart, heapHead, 0);
      while current < heapHead
        invariant mem == m0 && heapHead == head0 && live == live0 && heapStart == old(heapStart)
        invariant i <= |nodes| && current == AddressAt(nodes, heapStart, i)
        invariant FirstFit(nodes, size, 0) == FirstFit(nodes, size, i)
        decreases |nodes| - i
      {
        AtNode(nodes, heapStart, heapHead, i);
        HolderOf(mem, nodes, i);
        NodeSize(mem, current);
        FirstFitStep(nodes, size, i);
        if SizeAt(mem, current) >= size && StatusAt(mem, current) == FREE {
          HoleReused(mem, nodes, heapStart, heapHead, live, size);
          HoleHandsOut(mem, nodes, heapStart, heapHead, size);
          TakeHole(current, size, nodes[i]);
          ptr := current + NODE;
          live := live[ptr := size];
          return;
        }
        current := current + SizeAt(mem, current) + NODE;
        i := i + 1;
      }
      AtNode(nodes, heapStart, heapHead, i);
      FirstFitStep(nodes, size, i);
      BlockAppended(mem, nodes, heapStart, heapHead, size);
      Appended(mem, nodes, heapStart, heapHead, live, size);
      AppendHandsOut(mem, nodes, heapStart, heapHead, size);
      mem := StoreSize(mem, current, size);
      mem := StoreStatus(mem, current, USED);
      HeaderWritten(m0, Node(current, size, USED));
      ptr := current + NODE;
      heapHead := ptr;
      live := live[ptr := size];
    }

    // A free node is joined with the free ones beside it: afterwards one free node reaches from the start
    // of the first to the end of the last, and no byte but those of headers changes.
    method KheapMerge(current: nat, next: nat, previous: nat)
      modifies this`mem
      ensures forall from: nat, to: nat :: Mergeable(old(mem), current, next, previous, from, to) ==>
                NodeAt(mem, from).status == FREE && NodeAt(mem, from).End() == to
                && OnlyHeaders(old(mem), mem, current, previous)
      ensures mem == MergeStores(old(mem), current, next, previous)
    {
      hide SizeAt, StatusAt, StoreSize, NodeAt, Mergeable, OnlyHeaders;
      ghost var m0 := mem;
      forall from: nat, to: nat | Mergeable(m0, current, next, previous, from, to)
        ensures var m := MergeStores(m0, current, next, previous);
                NodeAt(m, from).status == FREE && NodeAt(m, from).End() == to && OnlyHeaders(m0, m, current, previous)
      {
        MergedIsOneNode(m0, current, next, previous, from, to);
      }
      if next != 0 {
        if StatusAt(mem, next) == FREE {
          mem := StoreSize(mem, current, (SizeAt(mem, current) + SizeAt(mem, next) + NODE) % WORD_LIMIT);
        }
      }
      if previous != 0 {
        if StatusAt(mem, previous) == FREE {
          mem := StoreSize(mem, previous, (SizeAt(mem, previous) + SizeAt(mem, current) + NODE) % WORD_LIMIT);
        }
      }
    }

    // Any pointer may be freed; only a live one has an effect. The second requires says that adding
    // up sizes does not wrap around, whatever the header past the end claims.
    method KFree(ptr: nat)
      requires Valid() && ptr < WORD_LIMIT
      requires EndOf(FreeNodes(Nodes(), ptr, Beyond()), heapStart) < WORD_LIMIT
      modifies this`mem, this`live
      ensures Valid()
      ensures Nodes() == FreeNodes(old(Nodes()), ptr, old(Beyond()))
      ensures live == old(live) - {ptr}
      ensures mem == FreeMemory(old(mem), heapStart, heapHead, ptr)
      ensures KeepsPayloads(old(mem), mem, old(live))
      ensures SameOutside(old(mem), mem, heapStart, old(End()))
    {
      hide NodeAt, Tiled, NoFreeNeighbours, Serves, Chain, SameOutside, SizeAt, StatusAt, Holds, KeepsPayloads;
      hide FindBlock, AddressAt, MergeStores, FreeAt, StoreStatus;
      ghost var nodes, m0, live0 := Nodes(), mem, live;
      ChainIsTiled(mem, heapStart, heapHead);
      FreeKeepsInv(nodes, heapStart, heapHead, live, ptr, Beyond());
      FindsExactlyLive(nodes, live, ptr);
      var addr := (ptr - NODE) % WORD_LIMIT;
      var current := heapStart;
      var previous, next := 0, 0;
      ghost var i := 0;
      AtNode(nodes, heapStart, heapHead, 0);
      while current < heapHead
        invariant mem == m0 && live == live0
        invariant i <= |nodes| && current == AddressAt(nodes, heapStart, i)
        invariant previous == if i > 0 then nodes[i - 1].addr else 0
        invariant FindBlock(nodes, ptr, 0) == FindBlock(nodes, ptr, i)
        decreases |nodes| - i
      {
        AtNode(nodes, heapStart, heapHead, i);
        HolderOf(mem, nodes, i);
        NodeSize(mem, current);
        FindBlockStep(nodes, ptr, i);
        BeforeEnd(nodes, heapStart, heapHead, i);
        next := current + SizeAt(mem, current) + NODE;
        if current == addr && StatusAt(mem, current) == USED {
          BlockFreed(mem, nodes, heapStart, heapHead, live, i);
          mem := StoreStatus(mem, current, FREE);
          KheapMerge(current, next, previous);
          live := live - {ptr};
          return;
        }
        previous := current;
        current := current + SizeAt(mem, current) + NODE;
        i := i + 1;
      }
      AtNode(nodes, heapStart, heapHead, i);
      FindBlockStep(nodes, ptr, i);
      Unchanged(mem, heapStart, End());
      PayloadsUnchanged(mem, live);
    }

    // The owner of a live block writes into its payload, or anyone writes outside the heap and
    // heap_root.
    method WriteByte(x: nat, b: byte)
      requires Valid()
      requires (x < heapStart && MissesRoot(heapStart, x, 1)) || End() <= x || exists p :: Inside(live, p, x, 1)
      modifies this`mem
      ensures Valid() && Nodes() == old(Nodes())
      ensures mem == WithByte(old(mem), x, b)
    {
      hide NodeAt, Tiled, NoFreeNeighbours, Serves, Chain, Holds;
      ChainIsTiled(mem, heapStart, heapHead);
      WriteKeepsChain(mem, WithByte(mem, x, b), Nodes(), heapStart, heapHead, live, x, 1);
      mem := WithByte(mem, x, b);
    }

    // The owner of a live block stores a 64-bit word in it.
    method WriteWord(x: nat, v: nat, ghost p: nat)
      requires Valid() && Inside(live, p, x, 8)
      modifies this`mem
      ensures Valid() && Nodes() == old(Nodes())
      ensures mem == Store64(old(mem), x, v)
    {
      hide NodeAt, Tiled, NoFreeNeighbours, Serves, Chain, Holds;
      ChainIsTiled(mem, heapStart, heapHead);
      WriteKeepsChain(mem, Store64(mem, x, v), Nodes(), heapStart, heapHead, live, x, 8);
      mem := Store64(mem, x, v);
    }

    // Two blocks out of one hole: the second one follows the first.
    method AllocateTwo(size: nat, more: nat) returns (p: nat, q: nat)
      requires Valid() && size < SIZE_LIMIT && more < SIZE_LIMIT && FirstFit(Nodes(), size, 0) < |Nodes()|
      requires var k := FirstFit(Nodes(), size, 0);
               && size + NODE + more <= Nodes()[k].size && size + NODE < Nodes()[k].size
               && forall j :: 0 <= j < k ==> Nodes()[j].size < more || Nodes()[j].status != FREE
      modifies this
      ensures Valid() && q == p + size + NODE && live == old(live)[p := size][q := more]
    {
      hide Inv, FirstFit, AllocNodes, AllocAddr, NodeAt, Chain, SameOutside, KeepsPayloads, HandsOut, BeyondAfter;
      ghost var nodes := Nodes();
      ChainIsTiled(mem, heapStart, heapHead);
      SecondFitsBehind(nodes, heapStart, heapHead, size, more);
      p := KMalloc(size);
      q := KMalloc(more);
    }

    // kmalloc out of a hole and kfree of the result straight after it.
    method AllocateAndRelease(size: nat)
      requires Valid() && size < SIZE_LIMIT && FirstFit(Nodes(), size, 0) < |Nodes()|
      requires Beyond().status == FREE ==> End() + NODE + Beyond().size < WORD_LIMIT
      modifies this
      ensures Valid() && live == old(live)
      ensures var n := old(Nodes()); var k := FirstFit(n, size, 0);
              Nodes() == n <==> Splits(n[k], size) || k < |n| - 1 || old(Beyond()).status != FREE
    {
      hide Inv, FirstFit, AllocNodes, FreeNodes, AllocAddr, NodeAt, Chain, EndOf, Splits, SameOutside, KeepsPayloads;
      ghost var nodes, head, beyond := Nodes(), heapHead, Beyond();
      ghost var n := nodes[FirstFit(nodes, size, 0)];
      var ptr := KMalloc(size);
      MallocThenFree(nodes, heapStart, head, old(live), size, Beyond());
      ReleasedEnd(nodes, heapStart, head, old(live), size, beyond);
      LiveBlockIsInTheHeap(Nodes(), heapStart, heapHead, live, ptr);
      KFree(ptr);
    }
  }
}
