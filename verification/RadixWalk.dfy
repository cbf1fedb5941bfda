/** The recursive walks over the packed nodes: visit_keys and free_nodes. */
module RadixWalk {
  import opened Bytes
  import opened NodeLayout
  import opened Heap
  import opened RadixShape
  import opened RadixKeys
  import opened RadixEdits

  /** What apply is given: the shared buffer, and the keys the supplied function was called with. */
  class Visitor {
    var buffer: seq<Byte>
    var calls: seq<Key>

    constructor ()
      ensures buffer == [] && calls == []
    {
      buffer, calls := [], [];
    }

    method Push(b: Byte)
      modifies this`buffer
      ensures buffer == old(buffer) + [b]
    {
      buffer := buffer + [b];
    }

    method Pop()
      requires buffer != []
      modifies this`buffer
      ensures buffer == old(buffer)[..|old(buffer)| - 1]
    {
      buffer := buffer[..|buffer| - 1];
    }

    method Call()
      modifies this`calls
      ensures calls == old(calls) + [buffer]
    {
      calls := calls + [buffer];
    }
  }

  method PushPrefix(heap: Heap, n: Addr, v: Visitor, ghost w: NodeView)
    requires Stores(heap.mem, n, w)
    modifies v`buffer
    ensures v.buffer == old(v.buffer) + w.prefix
  {
    EncodeReads(w);
    var i := 0;
    while i < PrefixLength(heap.mem[n])
      invariant i <= |w.prefix| && v.buffer == old(v.buffer) + w.prefix[..i]
    {
      assert PrefixOf(heap.mem[n])[i] == w.prefix[i];
      v.Push(heap.mem[n][HEADER + i]);
      i := i + 1;
    }
    assert w.prefix[..|w.prefix|] == w.prefix;
  }

  method PopPrefix(heap: Heap, n: Addr, v: Visitor, ghost w: NodeView, ghost before: seq<Byte>)
    requires Stores(heap.mem, n, w) && v.buffer == before + w.prefix
    modifies v`buffer
    ensures v.buffer == before
  {
    EncodeReads(w);
    var i := 0;
    while i < PrefixLength(heap.mem[n])
      invariant i <= |w.prefix| && v.buffer == before + w.prefix[..|w.prefix| - i]
    {
      v.Pop();
      i := i + 1;
    }
  }

  /** node_at: the child behind an edge. */
  method ChildAt(heap: Heap, n: Addr, i: nat, ghost t: Tree) returns (child: Addr)
    requires Stores(heap.mem, n, View(t)) && i < |t.kids|
    ensures child == t.kids[i].addr
  {
    NodeAtReads(View(t), i);
    child := NodeAt(heap.mem[n], i);
  }

  lemma EdgesRead(mem: Memory, n: Addr, t: Tree)
    requires Stores(mem, n, View(t))
    ensures |mem[n]| >= HEADER && EdgeCount(mem[n]) == |t.kids|
  {
    EncodeReads(View(t));
  }

  lemma Joined<T>(a: seq<T>, b: seq<T>, c: seq<T>)
    ensures a + b + c == a + (b + c)
  {
  }

  /** Calls the visitor on every key stored in the subtree, the node's own key first, then in edge order. */
  method VisitKeys(heap: Heap, n: Addr, v: Visitor, ghost t: Tree)
    requires Holds(heap.mem, t) && n == t.addr
    modifies v
    ensures v.buffer == old(v.buffer)
    ensures v.calls == old(v.calls) + KeyList(old(v.buffer), t)
    ensures t.refs > 0 ==> |v.calls| > |old(v.calls)| && v.calls[|old(v.calls)|] == old(v.buffer) + t.prefix
    decreases t, 1
  {
    PushPrefix(heap, n, v, View(t));
    EncodeReads(View(t));
    ghost var key := v.buffer;
    ghost var own := if t.refs > 0 then [key] else [];
    if Refcount(heap.mem[n]) > 0 {
      v.Call();
    }
    assert v.calls == old(v.calls) + own;
    VisitChildren(heap, n, v, t);
    Joined(old(v.calls), own, KidsKeyList(key, t.kids));
    PopPrefix(heap, n, v, View(t), old(v.buffer));
  }

  method VisitChildren(heap: Heap, n: Addr, v: Visitor, ghost t: Tree)
    requires Holds(heap.mem, t) && n == t.addr
    modifies v
    ensures v.buffer == old(v.buffer)
    ensures v.calls == old(v.calls) + KidsKeyList(old(v.buffer), t.kids)
    decreases t, 0, 1
  {
    EdgesRead(heap.mem, n, t);
    var i := 0;
    while i < EdgeCount(heap.mem[n])
      invariant i <= |t.kids| && v.buffer == old(v.buffer)
      invariant v.calls == old(v.calls) + KidsKeyList(old(v.buffer), t.kids[..i])
    {
      VisitKid(heap, n, i, v, t, old(v.calls));
      i := i + 1;
    }
    assert t.kids[..|t.kids|] == t.kids;
  }

  method VisitKid(heap: Heap, n: Addr, i: nat, v: Visitor, ghost t: Tree, ghost before: seq<Key>)
    requires Holds(heap.mem, t) && n == t.addr && i < |t.kids|
    requires v.calls == before + KidsKeyList(v.buffer, t.kids[..i])
    modifies v
    ensures v.buffer == old(v.buffer) && v.calls == before + KidsKeyList(v.buffer, t.kids[..i + 1])
    decreases t, 0, 0
  {
    var child := ChildAt(heap, n, i, t);
    VisitKeys(heap, child, v, t.kids[i]);
    KidsKeyListGrows(v.buffer, t.kids, i);
    Joined(before, KidsKeyList(v.buffer, t.kids[..i]), KeyList(v.buffer, t.kids[i]));
  }

  /** Frees the subtree, children first; returns the blocks in the order they were freed. */
  method FreeNodes(heap: Heap, n: Addr, ghost t: Tree) returns (order: seq<Addr>)
    requires Holds(heap.mem, t) && Distinct(t) && n == t.addr
    modifies heap
    ensures heap.mem == old(heap.mem) - Owned(t)
    ensures multiset(order) == multiset(Owned(t))
    decreases t, 2
  {
    NodeParts(t);
    order := FreeChildren(heap, n, t);
    heap.Free(n);
    order := order + [n];
  }

  method FreeChildren(heap: Heap, n: Addr, ghost t: Tree) returns (order: seq<Addr>)
    requires Holds(heap.mem, t) && Distinct(t) && n == t.addr
    modifies heap
    ensures heap.mem == old(heap.mem) - KidsOwned(t.kids)
    ensures multiset(order) == multiset(KidsOwned(t.kids))
    decreases t, 1
  {
    EdgesRead(heap.mem, n, t);
    NodeParts(t);
    order := [];
    var i := 0;
    while i < EdgeCount(heap.mem[n])
      invariant i <= |t.kids| && heap.mem == old(heap.mem) - KidsOwned(t.kids[..i])
      invariant Stores(heap.mem, n, View(t)) && heap.mem[n] == old(heap.mem)[n]
      invariant multiset(order) == multiset(KidsOwned(t.kids[..i]))
    {
      KidApart(t, i);
      var freed := FreeKid(heap, n, i, t, old(heap.mem));
      DisjointUnion(KidsOwned(t.kids[..i]), Owned(t.kids[i]));
      order := order + freed;
      i := i + 1;
    }
    assert i == |t.kids| && t.kids[..i] == t.kids;
  }

  method FreeKid(heap: Heap, n: Addr, i: nat, ghost t: Tree, ghost mem: Memory) returns (freed: seq<Addr>)
    requires Holds(mem, t) && Distinct(t) && n == t.addr && i < |t.kids|
    requires heap.mem == mem - KidsOwned(t.kids[..i]) && Stores(heap.mem, n, View(t))
    modifies heap
    ensures heap.mem == mem - (KidsOwned(t.kids[..i]) + Owned(t.kids[i])) && Stores(heap.mem, n, View(t))
    ensures multiset(freed) == multiset(Owned(t.kids[i]))
    decreases t, 0
  {
    var child := ChildAt(heap, n, i, t);
    KidApart(t, i);
    KidStillHolds(mem, heap.mem, t, i);
    freed := FreeNodes(heap, child, t.kids[i]);
  }

  lemma DisjointUnion(a: set<Addr>, b: set<Addr>)
    requires a !! b
    ensures multiset(a + b) == multiset(a) + multiset(b)
  {}

  lemma KidStillHolds(mem: Memory, mem': Memory, t: Tree, i: nat)
    requires i < |t.kids| && Holds(mem, t) && Distinct(t) && mem' == mem - KidsOwned(t.kids[..i])
    requires Owned(t.kids[i]) !! KidsOwned(t.kids[..i])
    ensures Holds(mem', t.kids[i])
  {
    HoldsOwned(mem, t.kids[i]);
    HoldsFrame(mem, mem', t.kids[i]);
  }

  /** The subtree at an edge owns none of the addresses of the subtrees before it, nor the node's. */
  lemma KidApart(t: Tree, i: nat)
    requires i < |t.kids| && Distinct(t)
    ensures Owned(t.kids[i]) !! KidsOwned(t.kids[..i]) && t.addr !in Owned(t.kids[i])
    ensures KidsOwned(t.kids[..i + 1]) == KidsOwned(t.kids[..i]) + Owned(t.kids[i])
  {
    NodeParts(t);
    KidBehind(t, i);
    KidsAppend(t.kids[..i], t.kids[i]);
    TakeMore(t.kids, i);
  }

  lemma TakeMore(kids: seq<Tree>, i: nat)
    requires i < |kids|
    ensures kids[..i + 1] == kids[..i] + [kids[i]]
  {
  }

  lemma KidBehind(t: Tree, i: nat)
    requires i < |t.kids| && Distinct(t)
    ensures KidsDistinct(t.kids[..i]) && Owned(t.kids[i]) !! KidsOwned(t.kids[..i])
  {
    forall a | a in KidsOwned(t.kids[..i]) ensures a !in Owned(t.kids[i]) {
      var k: nat :| k < i && a in Owned(t.kids[..i][k]);
      assert Owned(t.kids[k]) !! Owned(t.kids[i]);
    }
  }
}
