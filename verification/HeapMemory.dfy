/** The headers of the heap in memory, and the chain that a walk over them finds. */
module HeapMemory {
  import opened ByteMemory
  import opened HeapBlocks

  const SIZE_BYTES := 8

  // ---------------------------------------------------------------------------------------------
  // Headers

  function SizeAt(m: Bytes, a: nat): nat {
    Load64(m, a)
  }

  function StatusAt(m: Bytes, a: nat): Status {
    if m(a + SIZE_BYTES) == 0 then FREE else if m(a + SIZE_BYTES) == 1 then USED else OTHER
  }

  function NodeAt(m: Bytes, a: nat): Node {
    Node(a, SizeAt(m, a), StatusAt(m, a))
  }

  function StoreSize(m: Bytes, a: nat, v: nat): Bytes {
    Store64(m, a, v)
  }

  function StoreStatus(m: Bytes, a: nat, s: Status): Bytes {
    (x: nat) => if x == a + SIZE_BYTES then (match s case FREE => 0 case USED => 1 case OTHER => 2) else m(x)
  }

  function StoreHeader(m: Bytes, n: Node): Bytes {
    StoreStatus(StoreSize(m, n.addr, n.size), n.addr, n.status)
  }

  lemma SizeStored(m: Bytes, a: nat, v: nat)
    requires v < WORD_LIMIT
    ensures SizeAt(StoreSize(m, a, v), a) == v && StatusAt(StoreSize(m, a, v), a) == StatusAt(m, a)
  {
    LoadStored(m, a, v);
  }

  lemma StatusStored(m: Bytes, a: nat, s: Status)
    ensures StatusAt(StoreStatus(m, a, s), a) == s && SizeAt(StoreStatus(m, a, s), a) == SizeAt(m, a)
  {
    DecodeSame(StoreStatus(m, a, s), m, a, SIZE_BYTES);
  }

  lemma HeaderStored(m: Bytes, n: Node)
    requires n.size < WORD_LIMIT
    ensures NodeAt(StoreHeader(m, n), n.addr) == n
  {
    SizeStored(m, n.addr, n.size);
    StatusStored(StoreSize(m, n.addr, n.size), n.addr, n.status);
  }

  lemma HeaderUntouched(m: Bytes, m': Bytes, from: nat, to: nat, a: nat)
    requires SameOutside(m, m', from, to) && (a + NODE <= from || to <= a)
    ensures NodeAt(m', a) == NodeAt(m, a)
  {
    DecodeSame(m, m', a, SIZE_BYTES);
  }

  lemma SizeIsAWord(m: Bytes, a: nat)
    ensures SizeAt(m, a) < WORD_LIMIT
  {
    LoadIsAWord(m, a);
  }

  lemma {:induction false} OtherByte(m: Bytes, a: nat, k: nat, x: nat, b: byte)
    requires a <= x < a + k && b != m(x)
    ensures LittleEndian(WithByte(m, x, b), a, k) != LittleEndian(m, a, k)
    decreases k
  {
    if x == a {
      DecodeSame(WithByte(m, x, b), m, a + 1, k - 1);
    } else {
      OtherByte(m, a + 1, k - 1, x, b);
    }
  }

  // A header takes up exactly the NODE bytes from its address on.
  lemma HeaderIsItsBytes(m: Bytes, a: nat, x: nat)
    ensures (exists b: byte :: NodeAt(WithByte(m, x, b), a) != NodeAt(m, a)) <==> a <= x < a + NODE
  {
    if a <= x < a + NODE {
      var b: byte := if m(x) == 0 then 1 else 0;
      if x < a + SIZE_BYTES {
        OtherByte(m, a, SIZE_BYTES, x, b);
      }
      assert NodeAt(WithByte(m, x, b), a) != NodeAt(m, a);
    } else {
      forall b: byte
        ensures NodeAt(WithByte(m, x, b), a) == NodeAt(m, a)
      {
        HeaderUntouched(m, WithByte(m, x, b), x, x + 1, a);
      }
    }
  }

  // ---------------------------------------------------------------------------------------------
  // The chain

  // What a walk from `a` finds below `head`.
  function Chain(m: Bytes, a: nat, head: nat): seq<Node>
    decreases head - a
  {
    if a >= head then [] else [NodeAt(m, a)] + Chain(m, NodeAt(m, a).End(), head)
  }

  ghost predicate Holds(m: Bytes, nodes: seq<Node>)
  {
    forall i :: 0 <= i < |nodes| ==> NodeAt(m, nodes[i].addr) == nodes[i]
  }

  lemma {:induction false} ChainIsTiled(m: Bytes, start: nat, head: nat)
    ensures Tiled(Chain(m, start, head), start, head) && Holds(m, Chain(m, start, head))
    decreases head - start
  {
    hide NodeAt;
    if start < head {
      var n := NodeAt(m, start);
      AddressOf(m, start);
      var rest := Chain(m, n.End(), head);
      ChainIsTiled(m, n.End(), head);
      var nodes := [n] + rest;
      forall i | 0 <= i < |nodes|
        ensures nodes[i].addr < head && (0 < i ==> Linked(nodes, i)) && NodeAt(m, nodes[i].addr) == nodes[i]
      {
        if i > 0 {
          assert nodes[i] == rest[i - 1];
          assert i > 1 ==> nodes[i - 1] == rest[i - 2] && Linked(rest, i - 1);
        }
      }
    }
  }

  lemma AddressOf(m: Bytes, a: nat)
    ensures NodeAt(m, a).addr == a
  {
  }

  // A tiled sequence of nodes whose headers are in memory is what the walk finds.
  lemma {:induction false} ChainIsUnique(m: Bytes, nodes: seq<Node>, start: nat, head: nat)
    requires Tiled(nodes, start, head) && Holds(m, nodes)
    ensures Chain(m, start, head) == nodes
    decreases |nodes|
  {
    hide NodeAt;
    if nodes == [] {
    } else {
      var rest := nodes[1..];
      assert rest != [] ==> rest[0] == nodes[1] && Linked(nodes, 1);
      forall i | 0 < i < |rest|
        ensures Linked(rest, i)
      {
        assert Linked(nodes, i + 1);
      }
      ChainIsUnique(m, rest, nodes[0].End(), head);
      assert nodes == [nodes[0]] + rest;
    }
  }

  // Rewriting headers inside the bytes of nodes k, ..., k + drop - 1 replaces exactly those nodes.
  lemma ChainAfterSplice(m: Bytes, m': Bytes, nodes: seq<Node>, start: nat, head: nat, k: nat,
                         drop: nat, mid: seq<Node>)
    requires Tiled(nodes, start, head) && Holds(m, nodes) && 0 < drop && k + drop <= |nodes|
    requires SameOutside(m, m', nodes[k].addr, nodes[k + drop - 1].End()) && Holds(m', mid)
    requires Tiled(Splice(nodes, k, drop, mid), start, head)
    ensures Chain(m', start, head) == Splice(nodes, k, drop, mid)
  {
    hide NodeAt, Tiled, SameOutside;
    var after := Splice(nodes, k, drop, mid);
    forall i | 0 <= i < |after|
      ensures NodeAt(m', after[i].addr) == after[i]
    {
      if i < k {
        assert after[i] == nodes[i];
        InOrder(nodes, start, head, i, k);
        HeaderUntouched(m, m', nodes[k].addr, nodes[k + drop - 1].End(), nodes[i].addr);
      } else if i < k + |mid| {
        assert after[i] == mid[i - k];
      } else {
        var o := i - |mid| + drop;
        assert after[i] == nodes[o];
        InOrder(nodes, start, head, k + drop - 1, o);
        HeaderUntouched(m, m', nodes[k].addr, nodes[k + drop - 1].End(), nodes[o].addr);
      }
    }
    ChainIsUnique(m', after, start, head);
  }
}
