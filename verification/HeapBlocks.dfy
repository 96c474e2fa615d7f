/** The block chain of src/mem/kheap.c as a sequence: what kmalloc and kfree do to it and what they keep. */
module HeapBlocks {

  const NODE := 9                  // sizeof(heap_node): an 8-byte size and a 1-byte status, packed
  const ROOT := 16                 // sizeof(heap_root): heap_head and heap_start
  const SIZE_LIMIT: nat := 0x1_0000_0000   // size_t is a 32-bit unsigned int

  // The n bytes at a lie beside heap_root, which is found `sizeof(heap_node)` roots below the first node.
  predicate MissesRoot(start: nat, a: nat, n: nat) {
    a + n + ROOT * NODE <= start || start + ROOT <= a + ROOT * NODE
  }

  // OTHER stands for a status byte that is neither 0 nor 1; no node of the chain has one.
  datatype Status = FREE | USED | OTHER

  datatype Node = Node(addr: nat, size: nat, status: Status) {
    function End(): nat { addr + NODE + size }

    function Payload(): nat { addr + NODE }
  }

  // The nodes lie back to back from `start`; the walk stops at the first address >= head.
  ghost predicate Tiled(nodes: seq<Node>, start: nat, head: nat)
  {
    && (forall i :: 0 <= i < |nodes| ==> nodes[i].addr < head)
    && (nodes != [] ==> nodes[0].addr == start)
    && (forall i :: 0 < i < |nodes| ==> Linked(nodes, i))
    && head <= EndOf(nodes, start)
  }

  // Node i starts where the node before it ends.
  predicate Linked(nodes: seq<Node>, i: nat)
    requires 0 < i < |nodes|
  {
    nodes[i].addr == nodes[i - 1].End()
  }

  // The first address after the chain.
  function EndOf(nodes: seq<Node>, start: nat): nat {
    if nodes == [] then start else nodes[|nodes| - 1].End()
  }

  ghost predicate NoFreeNeighbours(nodes: seq<Node>)
  {
    && (forall i :: 0 <= i < |nodes| ==> nodes[i].status != OTHER)
    && (forall i :: 0 <= i < |nodes| - 1 ==> nodes[i].status == USED || nodes[i + 1].status == USED)
  }

  // live maps the payload address of every block in use to the number of bytes asked for.
  ghost predicate Serves(nodes: seq<Node>, live: map<nat, nat>)
  {
    && (forall n :: n in nodes && n.status == USED ==> n.Payload() in live && live[n.Payload()] <= n.size)
    && (forall p :: p in live ==> exists n :: n in nodes && IsBlock(n, p))
  }

  predicate IsBlock(n: Node, p: nat) {
    n.status == USED && n.Payload() == p
  }

  ghost predicate Inv(nodes: seq<Node>, start: nat, head: nat, live: map<nat, nat>)
  {
    Tiled(nodes, start, head) && NoFreeNeighbours(nodes) && Serves(nodes, live)
  }

  lemma {:induction false} InOrder(nodes: seq<Node>, start: nat, head: nat, i: nat, j: nat)
    requires Tiled(nodes, start, head) && i < j < |nodes|
    ensures nodes[i].End() <= nodes[j].addr
    decreases j
  {
    assert Linked(nodes, j);
    if i + 1 < j {
      InOrder(nodes, start, head, i, j - 1);
    }
  }

  lemma BeforeEnd(nodes: seq<Node>, start: nat, head: nat, i: nat)
    requires Tiled(nodes, start, head) && i < |nodes|
    ensures start <= nodes[i].addr && nodes[i].End() <= EndOf(nodes, start)
  {
    if i < |nodes| - 1 {
      InOrder(nodes, start, head, i, |nodes| - 1);
    }
    if i > 0 {
      InOrder(nodes, start, head, 0, i);
    }
  }

  // Where the block of a live payload lies in the chain.
  ghost function IndexOfBlock(nodes: seq<Node>, live: map<nat, nat>, p: nat): (i: nat)
    requires Serves(nodes, live) && p in live
    ensures i < |nodes| && IsBlock(nodes[i], p) && live[p] <= nodes[i].size
  {
    var n :| n in nodes && IsBlock(n, p);
    var i :| 0 <= i < |nodes| && nodes[i] == n;
    i
  }

  function Splice(nodes: seq<Node>, k: nat, drop: nat, mid: seq<Node>): seq<Node>
    requires k + drop <= |nodes|
  {
    nodes[..k] + mid + nodes[k + drop..]
  }

  lemma SpliceMembers(nodes: seq<Node>, k: nat, drop: nat, mid: seq<Node>)
    requires k + drop <= |nodes|
    ensures forall n :: n in Splice(nodes, k, drop, mid) ==>
              n in mid || (exists i :: (0 <= i < k || k + drop <= i < |nodes|) && nodes[i] == n)
    ensures forall n :: n in mid ==> n in Splice(nodes, k, drop, mid)
    ensures forall i :: 0 <= i < k || k + drop <= i < |nodes| ==> nodes[i] in Splice(nodes, k, drop, mid)
  {
    var after := Splice(nodes, k, drop, mid);
    forall i | 0 <= i < k || k + drop <= i < |nodes|
      ensures nodes[i] in after
    {
      assert after[if i < k then i else i - drop + |mid|] == nodes[i];
    }
  }

  // Two live blocks are disjoint, and a live payload meets no header and nothing beyond the end.
  lemma LiveBlocksAreDisjoint(nodes: seq<Node>, start: nat, head: nat, live: map<nat, nat>, p: nat, q: nat)
    requires Inv(nodes, start, head, live) && p in live && q in live && p != q
    ensures p + live[p] <= q || q + live[q] <= p
  {
    var i, j := IndexOfBlock(nodes, live, p), IndexOfBlock(nodes, live, q);
    if i < j {
      InOrder(nodes, start, head, i, j);
    } else {
      InOrder(nodes, start, head, j, i);
    }
  }

  lemma LiveBlockIsInTheHeap(nodes: seq<Node>, start: nat, head: nat, live: map<nat, nat>, p: nat)
    requires Inv(nodes, start, head, live) && p in live
    ensures start + NODE <= p && p + live[p] <= EndOf(nodes, start)
  {
    BeforeEnd(nodes, start, head, IndexOfBlock(nodes, live, p));
  }

  lemma LiveBlockMeetsNoHeader(nodes: seq<Node>, start: nat, head: nat, live: map<nat, nat>, p: nat, i: nat)
    requires Inv(nodes, start, head, live) && p in live && i < |nodes|
    ensures p + live[p] <= nodes[i].addr || nodes[i].Payload() <= p
  {
    var j := IndexOfBlock(nodes, live, p);
    if i < j {
      InOrder(nodes, start, head, i, j);
    } else if j < i {
      InOrder(nodes, start, head, j, i);
    }
  }

  // ---------------------------------------------------------------------------------------------
  // kmalloc

  // The first free node that is large enough, or the number of nodes.
  function FirstFit(nodes: seq<Node>, size: nat, i: nat): (k: nat)
    requires i <= |nodes|
    ensures i <= k <= |nodes|
    decreases |nodes| - i
  {
    if i == |nodes| || (nodes[i].size >= size && nodes[i].status == FREE) then i else FirstFit(nodes, size, i + 1)
  }

  predicate Splits(n: Node, size: nat) {
    size + NODE < n.size
  }

  // The node that is given out, and the remainder that split leaves behind it.
  function Given(n: Node, size: nat): Node {
    Node(n.addr, if Splits(n, size) then size else n.size, USED)
  }

  function Remainder(n: Node, size: nat): Node
    requires Splits(n, size)
  {
    Node(n.addr + NODE + size, n.size - size - NODE, FREE)
  }

  // What takes the place of node n in the chain. A remainder at or above `head` drops out of it.
  function Replacement(n: Node, size: nat, head: nat): seq<Node> {
    if Splits(n, size) && Remainder(n, size).addr < head then [Given(n, size), Remainder(n, size)] else [Given(n, size)]
  }

  function AllocNodes(nodes: seq<Node>, start: nat, head: nat, size: nat): seq<Node> {
    var k := FirstFit(nodes, size, 0);
    if k < |nodes| then Splice(nodes, k, 1, Replacement(nodes[k], size, head))
    else nodes + [Node(EndOf(nodes, start), size, USED)]
  }

  function AllocAddr(nodes: seq<Node>, start: nat, size: nat): nat {
    var k := FirstFit(nodes, size, 0);
    (if k < |nodes| then nodes[k].addr else EndOf(nodes, start)) + NODE
  }

  // heap_head becomes the payload address of a new last block.
  function AllocHead(nodes: seq<Node>, start: nat, head: nat, size: nat): nat {
    if FirstFit(nodes, size, 0) < |nodes| then head else EndOf(nodes, start) + NODE
  }

  lemma {:induction false} FirstFitFits(nodes: seq<Node>, size: nat, i: nat)
    requires i <= |nodes|
    ensures var k := FirstFit(nodes, size, i);
            && (k < |nodes| ==> nodes[k].size >= size && nodes[k].status == FREE)
            && forall j :: i <= j < k ==> nodes[j].size < size || nodes[j].status != FREE
    decreases |nodes| - i
  {
    if i < |nodes| && !(nodes[i].size >= size && nodes[i].status == FREE) {
      FirstFitFits(nodes, size, i + 1);
    }
  }

  lemma {:induction false} FirstFitIs(nodes: seq<Node>, size: nat, i: nat, k: nat)
    requires i <= k <= |nodes| && (k < |nodes| ==> nodes[k].size >= size && nodes[k].status == FREE)
    requires forall j :: i <= j < k ==> nodes[j].size < size || nodes[j].status != FREE
    ensures FirstFit(nodes, size, i) == k
    decreases k - i
  {
    if i < k {
      FirstFitIs(nodes, size, i + 1, k);
    }
  }

  // A remainder drops out of the chain only behind the last node.
  lemma DroppedRemainderIsLast(nodes: seq<Node>, start: nat, head: nat, k: nat, size: nat)
    requires Tiled(nodes, start, head) && k < |nodes| && Splits(nodes[k], size)
    requires head <= Remainder(nodes[k], size).addr
    ensures k == |nodes| - 1
  {
    if k < |nodes| - 1 {
      InOrder(nodes, start, head, k, k + 1);
    }
  }

  // Some nodes in a row give way to others that start at the same address and, unless they end the
  // chain, end at the same address.
  ghost predicate Covers(mid: seq<Node>, from: nat, to: nat, head: nat, last: bool)
  {
    && mid != [] && mid[0].addr == from
    && (forall i :: 0 <= i < |mid| ==> mid[i].addr < head)
    && (forall i :: 0 < i < |mid| ==> Linked(mid, i))
    && (if last then head <= mid[|mid| - 1].End() else mid[|mid| - 1].End() == to)
  }

  lemma SpliceTiled(nodes: seq<Node>, start: nat, head: nat, k: nat, drop: nat, mid: seq<Node>)
    requires Tiled(nodes, start, head) && 0 < drop && k + drop <= |nodes|
    requires Covers(mid, nodes[k].addr, nodes[k + drop - 1].End(), head, k + drop == |nodes|)
    ensures Tiled(Splice(nodes, k, drop, mid), start, head)
  {
    var after := Splice(nodes, k, drop, mid);
    forall i | 0 < i < |after|
      ensures Linked(after, i)
    {
      if i < k {
        assert Linked(nodes, i);
      } else if i == k {
        assert after[i] == mid[0] && after[i - 1] == nodes[k - 1] && Linked(nodes, k);
      } else if i < k + |mid| {
        assert after[i] == mid[i - k] && after[i - 1] == mid[i - k - 1] && Linked(mid, i - k);
      } else {
        var o := i - |mid| + drop;
        assert after[i] == nodes[o] && Linked(nodes, o);
        assert after[i - 1] == if i == k + |mid| then mid[|mid| - 1] else nodes[o - 1];
      }
    }
  }

  lemma ReplacementCovers(nodes: seq<Node>, start: nat, head: nat, k: nat, size: nat)
    requires Tiled(nodes, start, head) && k < |nodes| && nodes[k].size >= size
    ensures Covers(Replacement(nodes[k], size, head), nodes[k].addr, nodes[k].End(), head, k == |nodes| - 1)
  {
    if Splits(nodes[k], size) && head <= Remainder(nodes[k], size).addr {
      DroppedRemainderIsLast(nodes, start, head, k, size);
    }
  }

  lemma AllocKeepsTiled(nodes: seq<Node>, start: nat, head: nat, size: nat)
    requires Tiled(nodes, start, head)
    ensures Tiled(AllocNodes(nodes, start, head, size), start, AllocHead(nodes, start, head, size))
  {
    hide Splice, FirstFit, Covers, Replacement, Tiled, EndOf;
    var k := FirstFit(nodes, size, 0);
    FirstFitFits(nodes, size, 0);
    if k < |nodes| {
      ReplacementCovers(nodes, start, head, k, size);
      SpliceTiled(nodes, start, head, k, 1, Replacement(nodes[k], size, head));
    } else {
      AppendTiled(nodes, start, head, size);
    }
  }

  lemma AppendTiled(nodes: seq<Node>, start: nat, head: nat, size: nat)
    requires Tiled(nodes, start, head)
    ensures Tiled(nodes + [Node(EndOf(nodes, start), size, USED)], start, EndOf(nodes, start) + NODE)
  {
    var after := nodes + [Node(EndOf(nodes, start), size, USED)];
    forall i | 0 <= i < |after|
      ensures after[i].addr < EndOf(nodes, start) + NODE && (0 < i ==> Linked(after, i))
    {
      if i < |nodes| {
        BeforeEnd(nodes, start, head, i);
        assert 0 < i ==> Linked(nodes, i);
      }
    }
  }

  // A free node has only nodes in use around it, so a remainder beside them is harmless.
  lemma AllocKeepsNeighbours(nodes: seq<Node>, start: nat, head: nat, size: nat)
    requires NoFreeNeighbours(nodes)
    ensures NoFreeNeighbours(AllocNodes(nodes, start, head, size))
  {
    var k := FirstFit(nodes, size, 0);
    FirstFitFits(nodes, size, 0);
    if k < |nodes| {
      SpliceNeighbours(nodes, k, 1, Replacement(nodes[k], size, head));
    }
  }

  lemma SpliceNeighbours(nodes: seq<Node>, k: nat, drop: nat, mid: seq<Node>)
    requires NoFreeNeighbours(nodes) && NoFreeNeighbours(mid) && mid != [] && k + drop <= |nodes|
    requires 0 < k ==> nodes[k - 1].status == USED || mid[0].status == USED
    requires k + drop < |nodes| ==> nodes[k + drop].status == USED || mid[|mid| - 1].status == USED
    ensures NoFreeNeighbours(Splice(nodes, k, drop, mid))
  {
    var after := Splice(nodes, k, drop, mid);
    forall i | 0 <= i < |after|
      ensures after[i].status != OTHER
    {
      assert after[i] == if i < k then nodes[i] else if i < k + |mid| then mid[i - k] else nodes[i - |mid| + drop];
    }
    forall i | 0 <= i < |after| - 1
      ensures after[i].status == USED || after[i + 1].status == USED
    {
      if i + 1 < k {
        assert after[i] == nodes[i] && after[i + 1] == nodes[i + 1];
      } else if i + 1 == k {
        assert after[i] == nodes[i] && after[i + 1] == mid[0];
      } else if i + 1 < k + |mid| {
        assert after[i] == mid[i - k] && after[i + 1] == mid[i - k + 1];
      } else {
        var o := i - |mid| + drop;
        assert after[i + 1] == nodes[o + 1];
        assert after[i] == if i + 1 == k + |mid| then mid[|mid| - 1] else nodes[o];
      }
    }
  }

  // The blocks in use are the old ones and the new one.
  lemma AllocServes(nodes: seq<Node>, start: nat, head: nat, live: map<nat, nat>, size: nat)
    requires Inv(nodes, start, head, live)
    ensures var p := AllocAddr(nodes, start, size);
            p !in live && Serves(AllocNodes(nodes, start, head, size), live[p := size])
  {
    hide Tiled, NoFreeNeighbours, FirstFit, Splice, Serves;
    var k, p := FirstFit(nodes, size, 0), AllocAddr(nodes, start, size);
    FirstFitFits(nodes, size, 0);
    NewAddressIsFresh(nodes, start, head, live, size);
    if k < |nodes| {
      SpliceServes(nodes, k, 1, Replacement(nodes[k], size, head), live, Given(nodes[k], size), size);
    } else {
      SpliceServes(nodes, k, 0, [Node(EndOf(nodes, start), size, USED)], live,
                   Node(EndOf(nodes, start), size, USED), size);
      SpliceAtEnd(nodes, [Node(EndOf(nodes, start), size, USED)]);
    }
  }

  lemma SpliceAtEnd(nodes: seq<Node>, mid: seq<Node>)
    ensures Splice(nodes, |nodes|, 0, mid) == nodes + mid
  {
  }

  lemma SpliceServes(nodes: seq<Node>, k: nat, drop: nat, mid: seq<Node>, live: map<nat, nat>, g: Node, size: nat)
    requires Serves(nodes, live) && k + drop <= |nodes| && (forall i :: k <= i < k + drop ==> nodes[i].status == FREE)
    requires g in mid && g.status == USED && size <= g.size && (forall n :: n in mid ==> n == g || n.status == FREE)
    requires g.Payload() !in live
    ensures Serves(Splice(nodes, k, drop, mid), live[g.Payload() := size])
  {
    var after, live' := Splice(nodes, k, drop, mid), live[g.Payload() := size];
    SpliceMembers(nodes, k, drop, mid);
    forall q | q in live'
      ensures exists n :: n in after && IsBlock(n, q)
    {
      if q == g.Payload() {
        assert g in after && IsBlock(g, q);
      } else {
        var i := IndexOfBlock(nodes, live, q);
        assert nodes[i] in after;
      }
    }
  }

  lemma NewAddressIsFresh(nodes: seq<Node>, start: nat, head: nat, live: map<nat, nat>, size: nat)
    requires Inv(nodes, start, head, live)
    ensures AllocAddr(nodes, start, size) !in live
  {
    var k, p := FirstFit(nodes, size, 0), AllocAddr(nodes, start, size);
    FirstFitFits(nodes, size, 0);
    if p in live {
      var i := IndexOfBlock(nodes, live, p);
      BeforeEnd(nodes, start, head, i);
      if i < k < |nodes| {
        InOrder(nodes, start, head, i, k);
      } else if k < i {
        InOrder(nodes, start, head, k, i);
      }
    }
  }

  lemma AllocKeepsInv(nodes: seq<Node>, start: nat, head: nat, live: map<nat, nat>, size: nat)
    requires Inv(nodes, start, head, live)
    ensures var p := AllocAddr(nodes, start, size);
            && p !in live
            && Inv(AllocNodes(nodes, start, head, size), start, AllocHead(nodes, start, head, size), live[p := size])
  {
    AllocKeepsTiled(nodes, start, head, size);
    AllocKeepsNeighbours(nodes, start, head, size);
    AllocServes(nodes, start, head, live, size);
  }

  // A second block that fits behind the first one in the same hole, and into no hole before it, goes there.
  lemma SecondFitsBehind(nodes: seq<Node>, start: nat, head: nat, size: nat, more: nat)
    requires Tiled(nodes, start, head) && FirstFit(nodes, size, 0) < |nodes|
    requires var k := FirstFit(nodes, size, 0);
             && size + NODE + more <= nodes[k].size && size + NODE < nodes[k].size
             && forall j :: 0 <= j < k ==> nodes[j].size < more || nodes[j].status != FREE
    ensures AllocAddr(AllocNodes(nodes, start, head, size), start, more)
            == AllocAddr(nodes, start, size) + size + NODE
    ensures var after := AllocNodes(nodes, start, head, size);
            FirstFit(after, more, 0) == |after| ==> EndOf(after, start) + NODE + more <= EndOf(nodes, start)
  {
    hide Tiled;
    var k := FirstFit(nodes, size, 0);
    var n, after := nodes[k], AllocNodes(nodes, start, head, size);
    forall j | 0 <= j < k
      ensures after[j] == nodes[j]
    {
    }
    assert after[k] == Given(n, size);
    if Remainder(n, size).addr < head {
      assert after[k + 1] == Remainder(n, size);
      FirstFitIs(after, more, 0, k + 1);
    } else {
      DroppedRemainderIsLast(nodes, start, head, k, size);
      FirstFitIs(after, more, 0, |after|);
    }
  }

  // ---------------------------------------------------------------------------------------------
  // kfree

  // The node in use whose payload lies at p, or the number of nodes.
  function FindBlock(nodes: seq<Node>, p: nat, i: nat): (k: nat)
    requires i <= |nodes|
    ensures i <= k <= |nodes|
    decreases |nodes| - i
  {
    if i == |nodes| || IsBlock(nodes[i], p) then i else FindBlock(nodes, p, i + 1)
  }

  function Merged(n: Node, next: Node): Node {
    Node(n.addr, n.size + if next.status == FREE then next.size + NODE else 0, FREE)
  }

  // What follows node k: the next node, or whatever the memory past the end of the chain holds.
  function Follower(nodes: seq<Node>, k: nat, beyond: Node): Node {
    if k + 1 < |nodes| then nodes[k + 1] else beyond
  }

  // Merging with the next node comes before merging with the previous one.
  function FreeAt(nodes: seq<Node>, k: nat, beyond: Node): seq<Node>
    requires k < |nodes|
  {
    var m := Merged(nodes[k], Follower(nodes, k, beyond));
    var drop := if k + 1 < |nodes| && nodes[k + 1].status == FREE then 2 else 1;
    if k > 0 && nodes[k - 1].status == FREE
    then Splice(nodes, k - 1, drop + 1, [Merged(nodes[k - 1], m)])
    else Splice(nodes, k, drop, [m])
  }

  function FreeNodes(nodes: seq<Node>, p: nat, beyond: Node): seq<Node> {
    var k := FindBlock(nodes, p, 0);
    if k < |nodes| then FreeAt(nodes, k, beyond) else nodes
  }

  lemma {:induction false} FindBlockFinds(nodes: seq<Node>, p: nat, i: nat)
    requires i <= |nodes|
    ensures var k := FindBlock(nodes, p, i);
            (k < |nodes| ==> IsBlock(nodes[k], p)) && forall j :: i <= j < k ==> !IsBlock(nodes[j], p)
    decreases |nodes| - i
  {
    if i < |nodes| && !IsBlock(nodes[i], p) {
      FindBlockFinds(nodes, p, i + 1);
    }
  }

  // kfree finds exactly the live pointers; any other pointer changes nothing.
  lemma FindsExactlyLive(nodes: seq<Node>, live: map<nat, nat>, p: nat)
    requires Serves(nodes, live)
    ensures p in live <==> FindBlock(nodes, p, 0) < |nodes|
  {
    FindBlockFinds(nodes, p, 0);
    if p in live {
      var i := IndexOfBlock(nodes, live, p);
    }
  }

  lemma FreeKeepsTiled(nodes: seq<Node>, start: nat, head: nat, k: nat, beyond: Node)
    requires Tiled(nodes, start, head) && k < |nodes|
    ensures Tiled(FreeAt(nodes, k, beyond), start, head)
  {
    hide Splice;
    var m := Merged(nodes[k], Follower(nodes, k, beyond));
    var drop := if k + 1 < |nodes| && nodes[k + 1].status == FREE then 2 else 1;
    if k + 1 < |nodes| {
      assert Linked(nodes, k + 1);
    }
    if k > 0 && nodes[k - 1].status == FREE {
      assert Linked(nodes, k);
      SpliceTiled(nodes, start, head, k - 1, drop + 1, [Merged(nodes[k - 1], m)]);
    } else {
      SpliceTiled(nodes, start, head, k, drop, [m]);
    }
  }

  lemma FreeKeepsNeighbours(nodes: seq<Node>, k: nat, beyond: Node)
    requires NoFreeNeighbours(nodes) && k < |nodes| && nodes[k].status == USED
    ensures NoFreeNeighbours(FreeAt(nodes, k, beyond))
  {
    hide Splice;
    var m := Merged(nodes[k], Follower(nodes, k, beyond));
    var drop := if k + 1 < |nodes| && nodes[k + 1].status == FREE then 2 else 1;
    if k > 0 && nodes[k - 1].status == FREE {
      SpliceNeighbours(nodes, k - 1, drop + 1, [Merged(nodes[k - 1], m)]);
    } else {
      SpliceNeighbours(nodes, k, drop, [m]);
    }
  }

  // Taking out the block at p, together with free nodes around it, leaves the other blocks.
  lemma SpliceFrees(nodes: seq<Node>, start: nat, head: nat, live: map<nat, nat>, k: nat, drop: nat, m: Node, i: nat)
    requires Inv(nodes, start, head, live) && k <= i < k + drop <= |nodes| && nodes[i].status == USED
    requires m.status == FREE
    requires forall j :: k <= j < k + drop && j != i ==> nodes[j].status == FREE
    ensures Serves(Splice(nodes, k, drop, [m]), live - {nodes[i].Payload()})
  {
    hide Tiled, NoFreeNeighbours, Splice;
    var p := nodes[i].Payload();
    var after, live' := Splice(nodes, k, drop, [m]), live - {p};
    SpliceMembers(nodes, k, drop, [m]);
    forall n | n in after && n.status == USED
      ensures n.Payload() in live' && live'[n.Payload()] <= n.size
    {
      var j :| (0 <= j < k || k + drop <= j < |nodes|) && nodes[j] == n;
      if j < i {
        InOrder(nodes, start, head, j, i);
      } else {
        InOrder(nodes, start, head, i, j);
      }
    }
    forall q | q in live'
      ensures exists n :: n in after && IsBlock(n, q)
    {
      var j := IndexOfBlock(nodes, live, q);
      assert nodes[j] in after;
    }
  }

  lemma FreeServes(nodes: seq<Node>, start: nat, head: nat, live: map<nat, nat>, k: nat, beyond: Node)
    requires Inv(nodes, start, head, live) && k < |nodes| && nodes[k].status == USED
    ensures Serves(FreeAt(nodes, k, beyond), live - {nodes[k].Payload()})
  {
    hide Splice, Serves, Tiled;
    var m := Merged(nodes[k], Follower(nodes, k, beyond));
    var drop := if k + 1 < |nodes| && nodes[k + 1].status == FREE then 2 else 1;
    if k > 0 && nodes[k - 1].status == FREE {
      SpliceFrees(nodes, start, head, live, k - 1, drop + 1, Merged(nodes[k - 1], m), k);
    } else {
      SpliceFrees(nodes, start, head, live, k, drop, m, k);
    }
  }

  lemma FreeKeepsInv(nodes: seq<Node>, start: nat, head: nat, live: map<nat, nat>, p: nat, beyond: Node)
    requires Inv(nodes, start, head, live)
    ensures Inv(FreeNodes(nodes, p, beyond), start, head, live - {p})
  {
    hide FindBlock, Splice, FreeAt, Tiled, NoFreeNeighbours, Serves;
    var k := FindBlock(nodes, p, 0);
    FindBlockFinds(nodes, p, 0);
    FindsExactlyLive(nodes, live, p);
    if k < |nodes| {
      FreeKeepsTiled(nodes, start, head, k, beyond);
      FreeKeepsNeighbours(nodes, k, beyond);
      FreeServes(nodes, start, head, live, k, beyond);
    } else {
      assert live - {p} == live;
    }
  }

  // The chain grows by at most what the memory past its end claims to be a free node.
  lemma FreedEnd(nodes: seq<Node>, start: nat, head: nat, p: nat, beyond: Node)
    requires Tiled(nodes, start, head)
    ensures EndOf(nodes, start) <= EndOf(FreeNodes(nodes, p, beyond), start)
    ensures EndOf(FreeNodes(nodes, p, beyond), start)
         <= EndOf(nodes, start) + if beyond.status == FREE then NODE + beyond.size else 0
  {
    hide Splice, Tiled, FindBlock;
    var k := FindBlock(nodes, p, 0);
    if k < |nodes| {
      var m := Merged(nodes[k], Follower(nodes, k, beyond));
      var drop := if k + 1 < |nodes| && nodes[k + 1].status == FREE then 2 else 1;
      if k + 1 < |nodes| {
        Adjacent(nodes, start, head, k + 1);
      }
      if k > 0 && nodes[k - 1].status == FREE {
        Adjacent(nodes, start, head, k);
        SpliceEnd(nodes, start, k - 1, drop + 1, Merged(nodes[k - 1], m));
      } else {
        SpliceEnd(nodes, start, k, drop, m);
      }
    }
  }

  lemma SpliceEnd(nodes: seq<Node>, start: nat, k: nat, drop: nat, m: Node)
    requires k + drop <= |nodes| && 0 < drop
    ensures EndOf(Splice(nodes, k, drop, [m]), start) == if k + drop == |nodes| then m.End() else EndOf(nodes, start)
  {
  }

  lemma Adjacent(nodes: seq<Node>, start: nat, head: nat, k: nat)
    requires Tiled(nodes, start, head) && 0 < k < |nodes|
    ensures nodes[k - 1].End() == nodes[k].addr
  {
    assert Linked(nodes, k);
  }

  // ---------------------------------------------------------------------------------------------
  // Consequences

  function Count(nodes: seq<Node>, status: Status): nat {
    if nodes == [] then 0 else (if nodes[0].status == status then 1 else 0) + Count(nodes[1..], status)
  }

  // Free nodes number at most one more than nodes in use.
  lemma {:induction false} FewFreeNodes(nodes: seq<Node>)
    requires NoFreeNeighbours(nodes)
    ensures Count(nodes, FREE) <= Count(nodes, USED) + 1
    ensures nodes != [] && nodes[0].status == USED ==> Count(nodes, FREE) <= Count(nodes, USED)
    decreases |nodes|
  {
    if nodes != [] {
      FewFreeNodes(nodes[1..]);
    }
  }

  lemma InvCounts(nodes: seq<Node>, start: nat, head: nat, live: map<nat, nat>)
    requires Inv(nodes, start, head, live)
    ensures Count(nodes, FREE) <= Count(nodes, USED) + 1
  {
    FewFreeNodes(nodes);
  }

  // kmalloc out of a hole and kfree of its result, in this order: the chain is back exactly when the
  // hole was split, or was not the last node, or the memory past the end does not look like a free node.
  lemma MallocThenFree(nodes: seq<Node>, start: nat, head: nat, live: map<nat, nat>, size: nat, beyond: Node)
    requires Inv(nodes, start, head, live) && FirstFit(nodes, size, 0) < |nodes|
    requires var n := nodes[FirstFit(nodes, size, 0)];
             Splits(n, size) && head <= Remainder(n, size).addr ==> beyond == Remainder(n, size)
    ensures var k := FirstFit(nodes, size, 0);
            FreeNodes(AllocNodes(nodes, start, head, size), AllocAddr(nodes, start, size), beyond) == nodes
            <==> Splits(nodes[k], size) || k < |nodes| - 1 || beyond.status != FREE
  {
    hide FreeNodes, Splice, Inv, Splits, Replacement, Remainder;
    var k := FirstFit(nodes, size, 0);
    var m := FreeOfGiven(nodes, start, head, live, size, beyond);
    SpliceBack(nodes, k, Replacement(nodes[k], size, head), m);
  }

  // The node that kfree makes of the block that kmalloc has just given out.
  lemma FreeOfGiven(nodes: seq<Node>, start: nat, head: nat, live: map<nat, nat>, size: nat, beyond: Node)
    returns (m: Node)
    requires Inv(nodes, start, head, live) && FirstFit(nodes, size, 0) < |nodes|
    requires var n := nodes[FirstFit(nodes, size, 0)];
             Splits(n, size) && head <= Remainder(n, size).addr ==> beyond == Remainder(n, size)
    ensures var k := FirstFit(nodes, size, 0); var mid := Replacement(nodes[k], size, head);
            && k + |mid| <= |Splice(nodes, k, 1, mid)|
            && FreeNodes(AllocNodes(nodes, start, head, size), AllocAddr(nodes, start, size), beyond)
               == Splice(Splice(nodes, k, 1, mid), k, |mid|, [m])
    ensures var k := FirstFit(nodes, size, 0);
            m == nodes[k] <==> Splits(nodes[k], size) || k < |nodes| - 1 || beyond.status != FREE
  {
    hide Splice, FirstFit, Tiled, Serves, FindBlock;
    var k := FirstFit(nodes, size, 0);
    var n, mid := nodes[k], Replacement(nodes[k], size, head);
    var after := AllocNodes(nodes, start, head, size);
    FirstFitFits(nodes, size, 0);
    AllocKeepsTiled(nodes, start, head, size);
    AroundSplice(nodes, k, mid);
    FindBlockAt(after, start, head, k);
    if Splits(n, size) && head <= Remainder(n, size).addr {
      DroppedRemainderIsLast(nodes, start, head, k, size);
    }
    m := Merged(mid[0], Follower(after, k, beyond));
    assert FreeNodes(after, AllocAddr(nodes, start, size), beyond) == FreeAt(after, k, beyond);
    if k > 0 {
      assert nodes[k - 1].status == USED;
    }
    if k < |nodes| - 1 {
      assert nodes[k + 1].status == USED;
    }
  }

  lemma AroundSplice(nodes: seq<Node>, k: nat, mid: seq<Node>)
    requires k < |nodes| && mid != []
    ensures var after := Splice(nodes, k, 1, mid);
            && |after| == |nodes| + |mid| - 1 && after[k] == mid[0]
            && (k > 0 ==> after[k - 1] == nodes[k - 1])
            && (|mid| > 1 ==> after[k + 1] == mid[1])
            && (|mid| == 1 && k < |nodes| - 1 ==> after[k + 1] == nodes[k + 1])
  {
  }

  lemma FindBlockAt(nodes: seq<Node>, start: nat, head: nat, k: nat)
    requires Tiled(nodes, start, head) && k < |nodes| && nodes[k].status == USED
    ensures FindBlock(nodes, nodes[k].Payload(), 0) == k
  {
    var j := FindBlock(nodes, nodes[k].Payload(), 0);
    FindBlockFinds(nodes, nodes[k].Payload(), 0);
    if j < k {
      InOrder(nodes, start, head, j, k);
    }
  }

  // Splicing one node back in place of what replaced node k gives the old chain exactly if it is node k.
  lemma SpliceBack(nodes: seq<Node>, k: nat, mid: seq<Node>, m: Node)
    requires k < |nodes|
    ensures k + |mid| <= |Splice(nodes, k, 1, mid)|
    ensures Splice(Splice(nodes, k, 1, mid), k, |mid|, [m]) == nodes <==> m == nodes[k]
  {
    var back := Splice(Splice(nodes, k, 1, mid), k, |mid|, [m]);
    assert back == nodes[..k] + [m] + nodes[k + 1..];
    assert back[k] == m;
    if m == nodes[k] {
      assert back == nodes;
    }
  }
}
