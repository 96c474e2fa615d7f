/** src/lib/string.c: memcpy and memmove over the bytes of the kernel. */
module StringLib {
  import opened ByteMemory
  import opened HeapBlocks
  import opened HeapMemory
  import opened HeapStores
  import opened KHeap

  // ---------------------------------------------------------------------------------------------
  // memcpy

  // Copying byte by byte, lowest address first.
  function Copied(m: Bytes, d: nat, s: nat, n: nat): Bytes
    decreases n
  {
    if n == 0 then m
    else
      var before := Copied(m, d, s, n - 1);
      WithByte(before, d + n - 1, before(s + n - 1))
  }

  lemma {:induction false} CopiedOutside(m: Bytes, d: nat, s: nat, n: nat)
    ensures SameOutside(m, Copied(m, d, s, n), d, d + n)
    decreases n
  {
    if n > 0 {
      CopiedOutside(m, d, s, n - 1);
    }
  }

  // Unless the destination starts inside the source, it ends up with what the source held.
  lemma {:induction false} CopyIsRight(m: Bytes, d: nat, s: nat, n: nat, i: nat)
    requires (d <= s || s + n <= d) && i < n
    ensures Copied(m, d, s, n)(d + i) == m(s + i)
    decreases n
  {
    CopiedOutside(m, d, s, n - 1);
    if i < n - 1 {
      CopyIsRight(m, d, s, n - 1, i);
    }
  }

  // i modulo k
  function Wrap(i: nat, k: nat): (r: nat)
    requires 0 < k
    ensures r < k && r <= i
  {
    if i < k then i else Wrap(i - k, k)
  }

  lemma CopiedAt(m: Bytes, d: nat, s: nat, n: nat, i: nat)
    requires i < n
    ensures Copied(m, d, s, n)(d + i) == Copied(m, d, s, n - 1)(if i == n - 1 then s + i else d + i)
  {
  }

  // Otherwise it ends up with the first d - s bytes of the source over and over.
  lemma {:induction false} CopyRepeats(m: Bytes, d: nat, s: nat, n: nat, i: nat)
    requires s < d && i < n
    ensures Copied(m, d, s, n)(d + i) == m(s + Wrap(i, d - s))
    decreases n
  {
    hide Copied;
    CopiedAt(m, d, s, n, i);
    if i < n - 1 {
      CopyRepeats(m, d, s, n - 1, i);
    } else if i < d - s {
      CopiedOutside(m, d, s, n - 1);
    } else {
      CopyRepeats(m, d, s, n - 1, i - (d - s));
    }
  }

  function Buffer(m: Bytes, a: nat, n: nat): (b: seq<byte>)
    ensures |b| == n && forall i :: 0 <= i < n ==> b[i] == m(a + i)
  {
    seq(n, i requires 0 <= i < n => m(a + i))
  }

  // memcpy moves a buffer correctly exactly when the destination does not start inside the source or
  // the source repeats itself with the period of the overlap.
  lemma MemCpyMovesIff(m: Bytes, d: nat, s: nat, n: nat)
    ensures var b := Buffer(m, s, n);
            Buffer(Copied(m, d, s, n), d, n) == b
            <==> (d <= s || s + n <= d || forall i: nat :: i < n ==> b[i] == b[Wrap(i, d - s)])
  {
    hide Copied;
    var b, c := Buffer(m, s, n), Buffer(Copied(m, d, s, n), d, n);
    forall i: nat | i < n
      ensures c[i] == if d <= s || s + n <= d then b[i] else b[Wrap(i, d - s)]
    {
      if d <= s || s + n <= d {
        CopyIsRight(m, d, s, n, i);
      } else {
        CopyRepeats(m, d, s, n, i);
      }
    }
    if s < d < s + n {
      if c == b {
        forall i: nat | i < n
          ensures b[i] == b[Wrap(i, d - s)]
        {
          assert c[i] == b[Wrap(i, d - s)];
        }
      } else {
        var i: nat :| i < n && c[i] != b[i];
        assert b[i] != b[Wrap(i, d - s)];
      }
    } else {
      assert c == b;
    }
  }

  method MemCpy(m: Bytes, destination: nat, source: nat, num: nat) returns (m': Bytes)
    ensures m' == Copied(m, destination, source, num)
  {
    m' := m;
    var i := 0;
    while i < num
      invariant i <= num && m' == Copied(m, destination, source, i)
    {
      m' := WithByte(m', destination + i, m'(source + i));
      i := i + 1;
    }
  }

  // ---------------------------------------------------------------------------------------------
  // memmove

  // Memory that holds no header of the chain, nor heap_root.
  ghost predicate HasNoHeader(start: nat, end: nat, live: map<nat, nat>, a: nat, n: nat)
  {
    || (a + n <= start && MissesRoot(start, a, n)) || end + NODE <= a || exists p :: Inside(live, p, a, n)
  }

  lemma WritableByte(start: nat, end: nat, live: map<nat, nat>, a: nat, n: nat, x: nat)
    requires HasNoHeader(start, end, live, a, n) && a <= x < a + n
    ensures (x < start && MissesRoot(start, x, 1)) || end <= x || exists p :: Inside(live, p, x, 1)
  {
    if !((a + n <= start && MissesRoot(start, a, n)) || end + NODE <= a) {
      var p :| Inside(live, p, a, n);
      assert Inside(live, p, x, 1);
    }
  }

  // Memory that a caller may hand in: inside one live block, below the heap, or above whatever one more
  // block of n bytes and the headers beside it can take.
  ghost predicate IsBuffer(start: nat, end: nat, live: map<nat, nat>, a: nat, n: nat)
  {
    HasNoHeader(start, end + NODE + n, live, a, n)
  }

  // kmalloc takes the chain no further than one header and the bytes asked for.
  lemma AllocEnd(nodes: seq<Node>, start: nat, head: nat, live: map<nat, nat>, size: nat)
    requires Inv(nodes, start, head, live)
    ensures EndOf(AllocNodes(nodes, start, head, size), start) <= EndOf(nodes, start) + NODE + size
  {
    hide FirstFit, Tiled, NoFreeNeighbours, Serves;
    var k := FirstFit(nodes, size, 0);
    FirstFitFits(nodes, size, 0);
    var after := AllocNodes(nodes, start, head, size);
    if k == |nodes| - 1 {
      var mid := Replacement(nodes[k], size, head);
      assert after[|after| - 1] == mid[|mid| - 1];
    } else if k < |nodes| {
      assert after[|after| - 1] == nodes[|nodes| - 1];
    }
  }

  // Nor does the memory past the new end claim to be a free node that runs over the top.
  lemma BeyondDoesNotWrap(m: Bytes, m': Bytes, nodes: seq<Node>, start: nat, head: nat, live: map<nat, nat>, size: nat)
    requires Inv(nodes, start, head, live) && EndOf(nodes, start) < WORD_LIMIT
    requires NoWrap(NodeAt(m, EndOf(nodes, start))) && NoWrap(NodeAt(m, EndOf(nodes, start) + NODE + size))
    requires var after := AllocNodes(nodes, start, head, size);
             && SameOutside(m, m', start, Max(EndOf(nodes, start), EndOf(after, start)))
             && (FirstFit(nodes, size, 0) < |nodes| ==>
                  NodeAt(m', EndOf(after, start)) == BeyondAfter(nodes[FirstFit(nodes, size, 0)], size, head,
                                                                 NodeAt(m, EndOf(nodes, start))))
    ensures NoWrap(NodeAt(m', EndOf(AllocNodes(nodes, start, head, size), start)))
  {
    hide NodeAt, FirstFit, SameOutside, Tiled, NoFreeNeighbours, Serves;
    var k := FirstFit(nodes, size, 0);
    if k < |nodes| {
      BeforeEnd(nodes, start, head, k);
    } else {
      var e := EndOf(nodes, start);
      assert AllocNodes(nodes, start, head, size) == nodes + [Node(e, size, USED)];
      HeaderUntouched(m, m', start, e + NODE + size, e + NODE + size);
    }
  }

  // Copying into memory that holds no header leaves the header past the end alone.
  lemma BeyondIsKept(m: Bytes, m': Bytes, nodes: seq<Node>, start: nat, head: nat, live: map<nat, nat>, to: nat,
                     from: nat, n: nat)
    requires Inv(nodes, start, head, live) && HasNoHeader(start, EndOf(nodes, start), live, to, n)
        && m' == Copied(m, to, from, n)
    ensures NodeAt(m', EndOf(nodes, start)) == NodeAt(m, EndOf(nodes, start))
  {
    hide Inv, NodeAt, Copied, EndOf;
    var e := EndOf(nodes, start);
    CopiedOutside(m, to, from, n);
    StartBeforeEnd(nodes, start, head, live);
    if !(to + n <= start || e + NODE <= to) {
      var p :| Inside(live, p, to, n);
      LiveBlockIsInTheHeap(nodes, start, head, live, p);
    }
    HeaderUntouched(m, m', to, to + n, e);
  }

  lemma StartBeforeEnd(nodes: seq<Node>, start: nat, head: nat, live: map<nat, nat>)
    requires Inv(nodes, start, head, live)
    ensures start <= EndOf(nodes, start)
  {
    if nodes != [] {
      BeforeEnd(nodes, start, head, 0);
    }
  }

  lemma ReleaseDoesNotWrap(nodes: seq<Node>, start: nat, head: nat, live: map<nat, nat>, t: nat, beyond: Node)
    requires Inv(nodes, start, head, live) && beyond.addr == EndOf(nodes, start) < WORD_LIMIT && NoWrap(beyond)
    ensures EndOf(FreeNodes(nodes, t, beyond), start) < WORD_LIMIT
  {
    hide FreeNodes, Tiled, NoFreeNeighbours, Serves;
    FreedEnd(nodes, start, head, t, beyond);
  }

  lemma TempIsWritable(start: nat, end: nat, live: map<nat, nat>, t: nat, n: nat)
    requires t in live && live[t] == n
    ensures HasNoHeader(start, end, live, t, n)
  {
    assert Inside(live, t, t, n);
  }

  lemma TakenOut(live: map<nat, nat>, t: nat, n: nat)
    requires t !in live
    ensures live[t := n] - {t} == live
  {
  }

  lemma OldPayloadsKept(m: Bytes, m': Bytes, live: map<nat, nat>, t: nat, n: nat)
    requires KeepsPayloads(m, m', live[t := n]) && t !in live
    ensures KeepsPayloads(m, m', live)
  {
    forall p: nat, x: nat | p in live && p <= x < p + live[p]
      ensures m'(x) == m(x)
    {
      assert p in live[t := n];
    }
  }

  lemma OtherPayloadsKept(m0: Bytes, m1: Bytes, m3: Bytes, m4: Bytes, nodes: seq<Node>, start: nat, head: nat,
                          live: map<nat, nat>, t: nat, d: nat, s: nat, n: nat)
    requires Inv(nodes, start, head, live[t := n]) && t !in live
    requires KeepsPayloads(m0, m1, live) && m3 == Copied(Copied(m1, t, s, n), d, t, n) && KeepsPayloads(m3, m4, live)
    ensures forall p: nat, x: nat :: p in live && p <= x < p + live[p] && !(d <= x < d + n) ==> m4(x) == m0(x)
  {
    hide Inv, Copied;
    CopiedOutside(m1, t, s, n);
    CopiedOutside(Copied(m1, t, s, n), d, t, n);
    forall p: nat, x: nat | p in live && p <= x < p + live[p] && !(d <= x < d + n)
      ensures m4(x) == m0(x)
    {
      LiveBlocksAreDisjoint(nodes, start, head, live[t := n], p, t);
    }
  }

  // Nothing outside the heap changes but the destination.
  lemma OutsideKept(m0: Bytes, m1: Bytes, m3: Bytes, m4: Bytes, start: nat, end0: nat, end1: nat, t: nat, d: nat,
                    s: nat, n: nat)
    requires SameOutside(m0, m1, start, Max(end0, end1)) && SameOutside(m3, m4, start, end1)
    requires m3 == Copied(Copied(m1, t, s, n), d, t, n) && start <= t && t + n <= end1 <= end0 + NODE + n
    ensures forall x: nat :: (x < start || end0 + NODE + n <= x) && !(d <= x < d + n) ==> m4(x) == m0(x)
  {
    hide Copied;
    CopiedOutside(m1, t, s, n);
    CopiedOutside(Copied(m1, t, s, n), d, t, n);
  }

  // The temporary block and a buffer that existed before it do not overlap.
  lemma BufferIsApart(nodes: seq<Node>, start: nat, head: nat, live: map<nat, nat>, end: nat, t: nat, a: nat, n: nat)
    requires Inv(nodes, start, head, live[t := n]) && t !in live && IsBuffer(start, end, live, a, n)
    requires EndOf(nodes, start) <= end + NODE + n
    ensures a + n <= t || t + n <= a
    ensures HasNoHeader(start, EndOf(nodes, start), live[t := n], a, n)
  {
    hide Inv;
    LiveBlockIsInTheHeap(nodes, start, head, live[t := n], t);
    if !((a + n <= start && MissesRoot(start, a, n)) || end + NODE + n + NODE <= a) {
      var p :| Inside(live, p, a, n);
      LiveBlocksAreDisjoint(nodes, start, head, live[t := n], p, t);
      assert Inside(live[t := n], p, a, n);
    }
  }

  // What kmalloc leaves alone: a buffer keeps its bytes.
  lemma BufferIsKept(m: Bytes, m': Bytes, start: nat, end: nat, end': nat, live: map<nat, nat>, a: nat, n: nat)
    requires IsBuffer(start, end, live, a, n) && KeepsPayloads(m, m', live) && SameOutside(m, m', start, Max(end, end'))
    requires end' <= end + NODE + n
    ensures Buffer(m', a, n) == Buffer(m, a, n)
  {
    forall x: nat | a <= x < a + n
      ensures m'(x) == m(x)
    {
      if !((a + n <= start && MissesRoot(start, a, n)) || end + NODE + n + NODE <= a) {
        var p :| Inside(live, p, a, n);
      }
    }
  }

  lemma CopiedBuffer(m: Bytes, d: nat, s: nat, n: nat)
    requires d <= s || s + n <= d
    ensures Buffer(Copied(m, d, s, n), d, n) == Buffer(m, s, n)
  {
    hide Copied;
    forall i: nat | i < n
      ensures Buffer(Copied(m, d, s, n), d, n)[i] == Buffer(m, s, n)[i]
    {
      CopyIsRight(m, d, s, n, i);
    }
  }

  // Either loop of memmove, for a destination that holds no header of the chain.
  method CopyLoop(heap: KernelHeap, to: nat, from: nat, num: nat)
    requires heap.Valid() && HasNoHeader(heap.heapStart, heap.End(), heap.live, to, num)
    modifies heap`mem
    ensures heap.Valid() && heap.Nodes() == old(heap.Nodes())
    ensures heap.mem == Copied(old(heap.mem), to, from, num)
  {
    hide NodeAt, Inv, Chain, EndOf;
    var i := 0;
    while i < num
      invariant i <= num && heap.Valid() && heap.Nodes() == old(heap.Nodes())
      invariant heap.live == old(heap.live) && heap.heapStart == old(heap.heapStart)
          && heap.heapHead == old(heap.heapHead)
      invariant heap.mem == Copied(old(heap.mem), to, from, i)
    {
      WritableByte(heap.heapStart, heap.End(), heap.live, to, num, to + i);
      heap.WriteByte(to + i, heap.mem(from + i));
      i := i + 1;
    }
  }

  // A header read past the end that does not claim to be a free node running over the top of memory.
  predicate NoWrap(n: Node) {
    n.status == FREE ==> n.End() < WORD_LIMIT
  }

  // Whatever the buffers are and however they overlap, the destination ends up with what the source
  // held; no other live byte changes and the live blocks are the same as before.
  method MemMove(heap: KernelHeap, destination: nat, source: nat, num: nat) returns (r: nat)
    requires heap.Valid() && num < SIZE_LIMIT
    requires IsBuffer(heap.heapStart, heap.End(), heap.live, destination, num)
    requires IsBuffer(heap.heapStart, heap.End(), heap.live, source, num)
    requires heap.End() + NODE + num < WORD_LIMIT && NoWrap(heap.Beyond())
        && NoWrap(NodeAt(heap.mem, heap.End() + NODE + num))
    modifies heap
    ensures r == destination && heap.Valid() && heap.live == old(heap.live)
    ensures Buffer(heap.mem, destination, num) == old(Buffer(heap.mem, source, num))
    ensures forall p: nat, x: nat ::
              p in heap.live && p <= x < p + heap.live[p] && !(destination <= x < destination + num) ==>
                heap.mem(x) == old(heap.mem)(x)
    ensures forall x: nat ::
              (x < heap.heapStart || old(heap.End()) + NODE + num <= x) && !(destination <= x < destination + num) ==>
                heap.mem(x) == old(heap.mem)(x)
  {
    hide NodeAt, Inv, Chain, EndOf, Copied, HasNoHeader, IsBuffer, AllocNodes, FreeNodes, AllocHead, AllocAddr;
    hide FirstFit, SameOutside, KeepsPayloads, NoWrap, BeyondAfter, Buffer;
    ghost var m0, live0, end0, nodes0, start, head0 := heap.mem, heap.live, heap.End(), heap.Nodes(),
        heap.heapStart, heap.heapHead;
    AllocEnd(nodes0, start, head0, live0, num);
    var temp := heap.KMalloc(num);
    ghost var m1, live1, nodes1, end1 := heap.mem, heap.live, heap.Nodes(), heap.End();
    BeyondDoesNotWrap(m0, m1, nodes0, start, head0, live0, num);
    BufferIsApart(nodes1, start, heap.heapHead, live0, end0, temp, source, num);
    BufferIsApart(nodes1, start, heap.heapHead, live0, end0, temp, destination, num);
    BufferIsKept(m0, m1, start, end0, end1, live0, source, num);
    TempIsWritable(start, end1, live1, temp, num);
    CopyLoop(heap, temp, source, num);
    CopiedBuffer(m1, temp, source, num);
    ghost var m2 := heap.mem;
    CopyLoop(heap, destination, temp, num);
    CopiedBuffer(m2, destination, temp, num);
    ghost var m3 := heap.mem;
    BeyondIsKept(m1, m2, nodes1, start, heap.heapHead, live1, temp, source, num);
    BeyondIsKept(m2, m3, nodes1, start, heap.heapHead, live1, destination, temp, num);
    AddressOf(m3, end1);
    ReleaseDoesNotWrap(nodes1, start, heap.heapHead, live1, temp, heap.Beyond());
    LiveBlockIsInTheHeap(nodes1, start, heap.heapHead, live1, temp);
    heap.KFree(temp);
    TakenOut(live0, temp, num);
    OldPayloadsKept(m3, heap.mem, live0, temp, num);
    Widen(m3, heap.mem, start, end1, start, Max(end0, end1));
    BufferIsKept(m3, heap.mem, start, end0, end1, live0, destination, num);
    OtherPayloadsKept(m0, m1, m3, heap.mem, nodes1, start, heap.heapHead, live0, temp, destination, source, num);
    OutsideKept(m0, m1, m3, heap.mem, start, end0, end1, temp, destination, source, num);
    r := destination;
  }
}
