/** create_process in src/scheluding/scheluder.c: the context a new task starts from, and where its stack lies. */
module Processes {
  import opened ByteMemory
  import opened HeapBlocks
  import HeapMemory
  import opened HeapStores
  import opened KHeap
  import StringLib
  import opened Context
  import opened Multitasking

  const STACK_SIZE := 16 * 1024

  // cpu->field = v for field k of the structure in the live block p.
  method SetField(heap: KernelHeap, p: nat, k: nat, v: Word)
    requires heap.Valid() && Inside(heap.live, p, p, FRAME) && k < FIELDS
    modifies heap`mem
    ensures heap.Valid() && heap.Nodes() == old(heap.Nodes()) && SameOutside(old(heap.mem), heap.mem, p, p + FRAME)
    ensures forall j: nat :: j < FIELDS ==> Field(heap.mem, p, j) == if j == k then v else old(Field(heap.mem, p, j))
  {
    hide Inv, HeapMemory.Chain, EndOf, Store64, Load64;
    LoadStored(heap.mem, p + 8 * k, v);
    OtherFields(heap.mem, Store64(heap.mem, p + 8 * k, v), p, k);
    heap.WriteWord(p + 8 * k, v, p);
  }

  lemma OtherFields(m: Bytes, m': Bytes, p: nat, k: nat)
    requires k < FIELDS && SameOutside(m, m', p + 8 * k, p + 8 * k + 8)
    ensures SameOutside(m, m', p, p + FRAME)
    ensures forall j: nat :: j < FIELDS && j != k ==> Field(m', p, j) == Field(m, p, j)
  {
    hide Load64;
    forall j: nat | j < FIELDS && j != k
      ensures Field(m', p, j) == Field(m, p, j)
    {
      LoadUntouched(m, m', p + 8 * k, p + 8 * k + 8, p + 8 * j);
    }
  }

  // Writes into a block that is none of the `others` leave their payloads alone.
  lemma OwnBlock(nodes: seq<Node>, start: nat, head: nat, live: map<nat, nat>, p: nat, others: map<nat, nat>,
                 m: Bytes, m': Bytes)
    requires Inv(nodes, start, head, live) && Inside(live, p, p, FRAME) && SameOutside(m, m', p, p + FRAME)
    requires forall q :: q in others ==> q in live && live[q] == others[q] && q != p
    ensures KeepsPayloads(m, m', others)
  {
    hide Inv;
    forall q: nat, x: nat | q in others && q <= x < q + others[q]
      ensures m'(x) == m(x)
    {
      LiveBlocksAreDisjoint(nodes, start, head, live, p, q);
    }
  }

  lemma KeepsTwice(m: Bytes, m': Bytes, m'': Bytes, live: map<nat, nat>)
    requires KeepsPayloads(m, m', live) && KeepsPayloads(m', m'', live)
    ensures KeepsPayloads(m, m'', live)
  {
  }

  lemma KeepsOthers(m: Bytes, m': Bytes, live: map<nat, nat>, others: map<nat, nat>)
    requires KeepsPayloads(m, m', live) && forall q :: q in others ==> q in live && live[q] == others[q]
    ensures KeepsPayloads(m, m', others)
  {
  }

  lemma PayloadFields(m: Bytes, m': Bytes, live: map<nat, nat>, p: nat)
    requires KeepsPayloads(m, m', live) && Inside(live, p, p, FRAME)
    ensures forall j: nat :: j < FIELDS ==> Field(m', p, j) == Field(m, p, j)
  {
    hide Field;
    forall j: nat | j < FIELDS
      ensures Field(m', p, j) == Field(m, p, j)
    {
      SameField(m, m', p, j);
    }
  }

  // The fields that create_process sets before it allocates the stack.
  method SetContext(heap: KernelHeap, cpu: nat, entryPoint: Word, arg: Word)
    requires heap.Valid() && Inside(heap.live, cpu, cpu, FRAME)
    modifies heap`mem
    ensures heap.Valid() && heap.Nodes() == old(heap.Nodes()) && SameOutside(old(heap.mem), heap.mem, cpu, cpu + FRAME)
    ensures var s := StatusAt(heap.mem, cpu);
            && s.iretRip == entryPoint && s.rdi == arg && s.iretCs == 0x8 && s.iretSs == 0x10 && s.iretRflags == 0x202
            && s.vectorNumber == s.errorCode == 0
  {
    hide Inv, HeapMemory.Chain, EndOf, Field;
    SetField(heap, cpu, 15, 0);
    SetField(heap, cpu, 16, 0);
    SetField(heap, cpu, 17, entryPoint);
    SetField(heap, cpu, 8, arg);
    SetField(heap, cpu, 18, 0x8);
    SetField(heap, cpu, 21, 0x10);
    SetField(heap, cpu, 19, 0x202);
  }

  method SetStack(heap: KernelHeap, cpu: nat, stack: Word)
    requires heap.Valid() && Inside(heap.live, cpu, cpu, FRAME)
    modifies heap`mem
    ensures heap.Valid() && heap.Nodes() == old(heap.Nodes()) && SameOutside(old(heap.mem), heap.mem, cpu, cpu + FRAME)
    ensures forall j: nat :: j < FIELDS ==>
              Field(heap.mem, cpu, j) == if j == 20 then stack else if j == 10 then 0 else old(Field(heap.mem, cpu, j))
  {
    hide Inv, HeapMemory.Chain, EndOf, Field;
    SetField(heap, cpu, 20, stack);
    SetField(heap, cpu, 10, 0);
  }

  // All that is written lies in the heap.
  lemma SameAll(m0: Bytes, m1: Bytes, m2: Bytes, m3: Bytes, m4: Bytes, start: nat, end0: nat, end1: nat,
                end2: nat, context: nat)
    requires SameOutside(m0, m1, start, Max(end0, end1)) && SameOutside(m1, m2, context, context + FRAME)
    requires SameOutside(m2, m3, start, Max(end1, end2)) && SameOutside(m3, m4, context, context + FRAME)
    requires start <= context && context + FRAME <= end1
    requires end1 <= end0 + NODE + FRAME && end2 <= end1 + NODE + STACK_SIZE
    ensures SameOutside(m0, m4, start, end0 + 2 * NODE + FRAME + STACK_SIZE)
  {
  }

  // The context is a block of the kernel heap, the stack another one. The new task starts at its entry
  // point with its argument in rdi, and with rsp at the lowest address of the stack block.
  method CreateProcess(heap: KernelHeap, entryPoint: Word, arg: Word) returns (context: nat, stack: nat)
    requires heap.Valid() && heap.End() + 2 * NODE + FRAME + STACK_SIZE < WORD_LIMIT
    modifies heap
    ensures heap.Valid() && context !in old(heap.live) && stack !in old(heap.live) && context != stack
    ensures heap.live == old(heap.live)[context := 22 * 8][stack := 16 * 1024]
    ensures KeepsPayloads(old(heap.mem), heap.mem, old(heap.live))
    ensures SameOutside(old(heap.mem), heap.mem, heap.heapStart, old(heap.End()) + 2 * NODE + FRAME + STACK_SIZE)
    ensures var s := StatusAt(heap.mem, context);
            && s.iretRip == entryPoint && s.rdi == arg && s.iretRsp == stack && s.rbp == 0
            && s.iretCs == 0x8 && s.iretSs == 0x10 && s.iretRflags == 0x202 && s.vectorNumber == s.errorCode == 0
  {
    hide Inv, HeapMemory.Chain, EndOf, HeapMemory.NodeAt, AllocNodes, AllocAddr, AllocHead, FirstFit, SameOutside;
    hide KeepsPayloads, BeyondAfter, Field, HandsOut, AllocMemory;
    ghost var m0, live0, end0 := heap.mem, heap.live, heap.End();
    StringLib.AllocEnd(heap.Nodes(), heap.heapStart, heap.heapHead, heap.live, FRAME);
    context := heap.KMalloc(FRAME);
    ghost var m1, end1 := heap.mem, heap.End();
    LiveBlockIsInTheHeap(heap.Nodes(), heap.heapStart, heap.heapHead, heap.live, context);
    SetContext(heap, context, entryPoint, arg);
    ghost var m2, live2 := heap.mem, heap.live;
    OwnBlock(heap.Nodes(), heap.heapStart, heap.heapHead, live2, context, live0, m1, m2);
    KeepsTwice(m0, m1, m2, live0);
    StringLib.AllocEnd(heap.Nodes(), heap.heapStart, heap.heapHead, live2, STACK_SIZE);
    stack := heap.KMalloc(STACK_SIZE);
    ghost var m3, live3 := heap.mem, heap.live;
    PayloadFields(m2, m3, live2, context);
    KeepsOthers(m2, m3, live2, live0);
    KeepsTwice(m0, m2, m3, live0);
    LiveBlockIsInTheHeap(heap.Nodes(), heap.heapStart, heap.heapHead, live3, stack);
    SetStack(heap, context, stack);
    OwnBlock(heap.Nodes(), heap.heapStart, heap.heapHead, live3, context, live0, m3, heap.mem);
    KeepsTwice(m0, m3, heap.mem, live0);
    SameAll(m0, m1, m2, m3, heap.mem, heap.heapStart, end0, end1, heap.End(), context);
  }

  // The stack of a new task lies below its block: whatever is pushed first lands in the block's header,
  // and unless its top byte is 1 the block no longer counts as in use. A null frame pointer, or any
  // address in the lower half, turns it into a free one.
  lemma FirstPushHitsTheHeader(m: Bytes, stack: nat, w: Word)
    requires NODE <= stack
    ensures var m' := Store64(m, stack - 8, w);
            && (HeapMemory.StatusAt(m', stack - NODE) == USED <==> w / 0x100_0000_0000_0000 == 1)
            && (w < 0x100_0000_0000_0000 ==> HeapMemory.StatusAt(m', stack - NODE) == FREE)
  {
    TopByte(w);
  }

  lemma TopByte(w: Word)
    ensures ByteOf(w, 7) == w / 0x100_0000_0000_0000
  {
    hide ByteOf;
    var v1, v2, v3 := w / 0x100, w / 0x1_0000, w / 0x100_0000;
    var v4, v5, v6 := w / 0x1_0000_0000, w / 0x100_0000_0000, w / 0x1_0000_0000_0000;
    NextByte(w, 6);
    NextByte(v1, 5);
    NextByte(v2, 4);
    NextByte(v3, 3);
    NextByte(v4, 2);
    NextByte(v5, 1);
    NextByte(v6, 0);
    LowByte(w / 0x100_0000_0000_0000);
  }

  lemma LowByte(v: nat)
    ensures ByteOf(v, 0) == v % 256
  {
  }

  lemma NextByte(v: nat, i: nat)
    ensures ByteOf(v, i + 1) == ByteOf(v / 256, i)
  {
  }

  // A task that owns its stack block and nothing else has room for an interrupt exactly where 176 bytes
  // of the block lie below the aligned rsp: at the top of the block, but not at the bottom, where a new
  // task starts.
  lemma RoomInTheBlock(l: Layout, i: nat, stack: nat, rsp: nat)
    requires i < |l.stackLow| && l.stackLow[i] == stack
    requires forall x: nat :: l.owner(x) == i <==> stack <= x < stack + STACK_SIZE
    ensures Room(l, i, rsp) <==> stack + FRAME <= Aligned(rsp) <= stack + STACK_SIZE
    ensures !Room(l, i, stack) && Room(l, i, stack + STACK_SIZE)
  {
    RoomIff(l, i, stack, rsp);
    RoomIff(l, i, stack, stack);
    RoomIff(l, i, stack, stack + STACK_SIZE);
  }

  lemma RoomIff(l: Layout, i: nat, stack: nat, rsp: nat)
    requires i < |l.stackLow| && l.stackLow[i] == stack
    requires forall x: nat :: l.owner(x) == i <==> stack <= x < stack + STACK_SIZE
    ensures Room(l, i, rsp) <==> stack + FRAME <= Aligned(rsp) <= stack + STACK_SIZE
  {
    hide Aligned;
    if Room(l, i, rsp) {
      assert l.owner(FrameAt(rsp)) == i && l.owner(FrameAt(rsp) + FRAME - 1) == i;
    }
  }
}
