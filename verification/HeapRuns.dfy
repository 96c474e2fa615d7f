/** Whole runs of the kernel heap on the bytes of memory: every interleaving of kmalloc, kfree and other writes. */
module HeapRuns {
  import opened ByteMemory
  import opened HeapBlocks
  import opened HeapMemory
  import opened HeapStores

  datatype State = State(mem: Bytes, head: nat, live: map<nat, nat>)

  // kfree may be called with any pointer; a write is one byte, by the owner of a live block or outside
  // the heap.
  datatype Call = Malloc(size: nat) | Free(ptr: nat) | Write(at: nat, value: byte)

  function Nodes(s: State, start: nat): seq<Node> {
    Chain(s.mem, start, s.head)
  }

  function End(s: State, start: nat): nat {
    EndOf(Nodes(s, start), start)
  }

  ghost predicate Valid(s: State, start: nat)
  {
    0 < start && Inv(Nodes(s, start), start, s.head, s.live) && End(s, start) < WORD_LIMIT
  }

  // No sum of sizes wraps around, and nobody writes headers or heap_root.
  ghost predicate Allowed(s: State, start: nat, c: Call)
  {
    match c
    case Malloc(size) =>
      FirstFit(Nodes(s, start), size, 0) == |Nodes(s, start)| ==> End(s, start) + NODE + size < WORD_LIMIT
    case Free(p) =>
      EndOf(FreeNodes(Nodes(s, start), p, NodeAt(s.mem, End(s, start))), start) < WORD_LIMIT
    case Write(x, _) =>
      || (x < start && MissesRoot(start, x, 1))
      || End(s, start) <= x || exists p :: Inside(s.live, p, x, 1)
  }

  function Step(s: State, start: nat, c: Call): State {
    match c
    case Malloc(size) =>
      State(AllocMemory(s.mem, start, s.head, size), AllocHead(Nodes(s, start), start, s.head, size),
            s.live[AllocAddr(Nodes(s, start), start, size) := size])
    case Free(p) => State(FreeMemory(s.mem, start, s.head, p), s.head, s.live - {p})
    case Write(x, b) => s.(mem := WithByte(s.mem, x, b))
  }

  lemma MallocStep(s: State, start: nat, size: nat)
    requires Valid(s, start) && Allowed(s, start, Malloc(size))
    ensures var s' := Step(s, start, Malloc(size)); Valid(s', start) && KeepsPayloads(s.mem, s'.mem, s.live)
    ensures AllocAddr(Nodes(s, start), start, size) !in s.live
  {
    hide NodeAt, Tiled, NoFreeNeighbours, Serves, Chain, HoleStores, StoreHeader, SameOutside, KeepsPayloads;
    hide AllocNodes, BeyondAfter, FirstFit, Holds, AllocHead, AllocAddr;
    var nodes := Nodes(s, start);
    ChainIsTiled(s.mem, start, s.head);
    AllocKeepsInv(nodes, start, s.head, s.live, size);
    AppendedHead(nodes, start, s.head, size);
    if FirstFit(nodes, size, 0) < |nodes| {
      HoleReused(s.mem, nodes, start, s.head, s.live, size);
    } else {
      LengthIsAWord(nodes, start, size);
      BlockAppended(s.mem, nodes, start, s.head, size);
      Appended(s.mem, nodes, start, s.head, s.live, size);
    }
  }

  lemma AppendedHead(nodes: seq<Node>, start: nat, head: nat, size: nat)
    ensures AllocHead(nodes, start, head, size)
         == if FirstFit(nodes, size, 0) < |nodes| then head else EndOf(nodes, start) + NODE
  {
  }

  lemma LengthIsAWord(nodes: seq<Node>, start: nat, size: nat)
    requires EndOf(nodes, start) + NODE + size < WORD_LIMIT
    ensures size < WORD_LIMIT
  {
  }

  lemma FreeStep(s: State, start: nat, p: nat)
    requires Valid(s, start) && Allowed(s, start, Free(p))
    ensures var s' := Step(s, start, Free(p)); Valid(s', start) && KeepsPayloads(s.mem, s'.mem, s.live)
  {
    hide NodeAt, Tiled, NoFreeNeighbours, Serves, Chain, SameOutside, KeepsPayloads, FindBlock, FreeStores, FreeAt;
    var nodes := Nodes(s, start);
    ChainIsTiled(s.mem, start, s.head);
    FreeKeepsInv(nodes, start, s.head, s.live, p, NodeAt(s.mem, End(s, start)));
    var k := FindBlock(nodes, p, 0);
    if k < |nodes| {
      BlockFreed(s.mem, nodes, start, s.head, s.live, k);
    } else {
      PayloadsUnchanged(s.mem, s.live);
    }
  }

  lemma WriteStep(s: State, start: nat, x: nat, b: byte)
    requires Valid(s, start) && Allowed(s, start, Write(x, b))
    ensures Valid(Step(s, start, Write(x, b)), start)
  {
    hide NodeAt, Inv, Chain;
    ChainIsTiled(s.mem, start, s.head);
    WriteKeepsChain(s.mem, WithByte(s.mem, x, b), Nodes(s, start), start, s.head, s.live, x, 1);
  }

  // ---------------------------------------------------------------------------------------------
  // Runs

  function Run(s: State, start: nat, calls: seq<Call>): State
    decreases |calls|
  {
    if calls == [] then s else Run(Step(s, start, calls[0]), start, calls[1..])
  }

  ghost predicate AllowedRun(s: State, start: nat, calls: seq<Call>)
    decreases |calls|
  {
    calls == [] || (Allowed(s, start, calls[0]) && AllowedRun(Step(s, start, calls[0]), start, calls[1..]))
  }

  // The call leaves the payload of n bytes at p to its owner.
  predicate Leaves(c: Call, p: nat, n: nat) {
    match c
    case Malloc(_) => true
    case Free(q) => q != p
    case Write(x, _) => !(p <= x < p + n)
  }

  lemma StepKeepsBlock(s: State, start: nat, c: Call, p: nat)
    requires Valid(s, start) && Allowed(s, start, c) && p in s.live && Leaves(c, p, s.live[p])
    ensures var s' := Step(s, start, c);
            && Valid(s', start) && p in s'.live && s'.live[p] == s.live[p]
            && forall x :: p <= x < p + s.live[p] ==> s'.mem(x) == s.mem(x)
  {
    hide Valid, AllocMemory, FreeMemory, AllocAddr, AllocHead;
    match c {
      case Malloc(size) => MallocStep(s, start, size);
      case Free(q) => FreeStep(s, start, q);
      case Write(x, b) => WriteStep(s, start, x, b);
    }
  }

  // Over any run the heap stays as it should be, in particular with at most one free node more than used ones.
  lemma {:induction false} RunStaysValid(s: State, start: nat, calls: seq<Call>)
    requires Valid(s, start) && AllowedRun(s, start, calls)
    ensures var r := Run(s, start, calls);
            Valid(r, start) && Count(Nodes(r, start), FREE) <= Count(Nodes(r, start), USED) + 1
    decreases |calls|
  {
    hide Allowed, Step, Nodes;
    if calls == [] {
      InvCounts(Nodes(s, start), start, s.head, s.live);
    } else {
      match calls[0] {
        case Malloc(size) => MallocStep(s, start, size);
        case Free(q) => FreeStep(s, start, q);
        case Write(x, b) => WriteStep(s, start, x, b);
      }
      RunStaysValid(Step(s, start, calls[0]), start, calls[1..]);
    }
  }

  lemma OthersAreApart(s: State, start: nat, p: nat)
    requires Valid(s, start) && p in s.live
    ensures forall q :: q in s.live && q != p ==> p + s.live[p] <= q || q + s.live[q] <= p
  {
    hide Inv;
    forall q | q in s.live && q != p
      ensures p + s.live[p] <= q || q + s.live[q] <= p
    {
      LiveBlocksAreDisjoint(Nodes(s, start), start, s.head, s.live, p, q);
    }
  }

  // A live block that nobody frees, and whose bytes only its owner could have written but did not, holds the
  // same bytes after any run, whatever happened to the rest of the heap and past its end; and no other block
  // overlaps it.
  lemma {:induction false} BlockIsIsolated(s: State, start: nat, calls: seq<Call>, p: nat)
    requires Valid(s, start) && AllowedRun(s, start, calls) && p in s.live
    requires forall c :: c in calls ==> Leaves(c, p, s.live[p])
    ensures var r := Run(s, start, calls);
            && p in r.live && r.live[p] == s.live[p]
            && (forall x :: p <= x < p + s.live[p] ==> r.mem(x) == s.mem(x))
            && forall q :: q in r.live && q != p ==> p + r.live[p] <= q || q + r.live[q] <= p
    decreases |calls|
  {
    hide Valid, Allowed, Step, Leaves;
    if calls == [] {
      OthersAreApart(s, start, p);
    } else {
      assert calls[0] in calls;
      StepKeepsBlock(s, start, calls[0], p);
      BlockIsIsolated(Step(s, start, calls[0]), start, calls[1..], p);
    }
  }
}
