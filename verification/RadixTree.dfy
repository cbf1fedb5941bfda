/** The radix tree: a root pointer and a key count over a heap of packed nodes. */
module RadixTree {
  import opened Bytes
  import opened NodeLayout
  import opened Heap
  import opened RadixShape
  import opened RadixKeys
  import opened RadixOrder
  import opened RadixEdits
  import opened RadixBranches
  import opened RadixWalk

  datatype MatchResult = MatchResult(nkey: nat, nprefix: nat, edgeIndex: nat, gpEdgeIndex: nat,
                                     current: Addr, parent: Addr, grandparent: Addr)

  /** A nonempty C string of the given length: no NUL inside, one behind. */
  predicate CString(buf: seq<Byte>, size: nat) {
    0 < size < |buf| && buf[size] == 0 && forall i :: 0 <= i < size ==> buf[i] != 0
  }

  /** The match stopped in the node at path, for a reason that shows in the node itself. */
  ghost predicate Matched(t: Tree, path: seq<nat>, key: Key, i: nat, j: nat) {
    && ValidPath(t, path)
    && var c := At(t, path);
    && i <= |key| && j <= |c.prefix| && (path != [] ==> j > 0)
    && Above(t, path) + c.prefix[..j] == key[..i]
    && (i < |key| ==> if j < |c.prefix| then c.prefix[j] != key[i]
                      else forall k :: 0 <= k < |c.kids| ==> First(c.kids[k]) != key[i])
  }

  /** The handles a match returns are the node at path and its two ancestors, with the edges that lead there. */
  ghost predicate Handles(t: Tree, path: seq<nat>, r: MatchResult)
    requires ValidPath(t, path)
  {
    && r.current == At(t, path).addr
    && (path == [] ==> r.parent == t.addr)
    && (path != [] ==> ValidPath(t, Parent(path)) && r.parent == At(t, Parent(path)).addr
                       && r.edgeIndex == Last(path))
    && (|path| > 1 ==> ValidPath(t, Parent(Parent(path))) && r.grandparent == At(t, Parent(Parent(path))).addr
                       && r.gpEdgeIndex == Last(Parent(path)))
  }

  /** The shape invariant, with the counter right and every key short enough for the header. */
  ghost predicate Stands(t: Tree, size: nat) {
    WellFormedRoot(t) && size == |Keys(t)| && ShortKeys(t)
  }

  ghost predicate ShortKeys(t: Tree) {
    forall k :: k in Keys(t) ==> |k| < U32_LIMIT
  }

  class RadixTree {
    const heap: Heap
    var root: Addr
    var size: nat
    ghost var shape: Tree
    // the blocks that are not the tree's, as they were when the current operation began
    ghost var foreign: Memory

    /** Every node of the tree is packed in a block of its own. */
    ghost predicate Houses()
      reads this, heap
    {
      root == shape.addr && Holds(heap.mem, shape) && Distinct(shape)
    }

    /** The live blocks that are not the tree's. */
    ghost function Foreign(): Memory
      reads this, heap
    {
      heap.mem - Owned(shape)
    }

    /** In the middle of an operation: the live blocks are those of the tree and the foreign ones, which are
        untouched. */
    ghost predicate Owns()
      reads this, heap
    {
      root == shape.addr && Inhabits(heap.mem, foreign, shape)
    }

    /** What is left of Valid once a count has wrapped; enough to look keys up. */
    ghost predicate Readable()
      reads this, heap
    {
      Houses() && FormedRoot(shape)
    }

    ghost predicate Valid()
      reads this, heap
    {
      Houses() && Stands(shape, size)
    }

    ghost function Contents(): multiset<Key>
      reads this
    {
      Keys(shape)
    }

    constructor (h: Heap)
      requires HasRoom(h.mem)
      modifies h
      ensures heap == h && Valid() && Contents() == multiset{} && Foreign() == old(h.mem)
    {
      heap := h;
      new;
      var a := heap.MakeNode(0, 0, 0);
      root := a;
      size := 0;
      shape := Node(a, 0, [], []);
      var v := NodeView(0, [], [], []);
      FilledPacks(heap.mem[a], v);
      PrefixOnlyPacks(heap.mem[a], v);
      EmptyPrefix(heap.mem[a], v);
      LeafHolds(heap.mem, shape);
      EmptyKeys(a);
    }

    /** The loop over one node's prefix: how many of its bytes the key continues with. */
    method MatchPrefix(a: Addr, buf: seq<Byte>, size: nat, start: nat, ghost v: NodeView)
      returns (i: nat, j: nat)
      requires CString(buf, size) && start <= size
      requires Stores(heap.mem, a, v) && NulFree(v.prefix)
      ensures j <= |v.prefix| && i == start + j <= size && buf[start..i] == v.prefix[..j]
      ensures j < |v.prefix| ==> v.prefix[j] != buf[i]
    {
      EncodeReads(v);
      i, j := start, 0;
      while j < PrefixLength(heap.mem[a])
        invariant j <= |v.prefix| && i == start + j <= size && buf[start..i] == v.prefix[..j]
      {
        assert PrefixOf(heap.mem[a])[j] == v.prefix[j];
        if heap.mem[a][HEADER + j] != buf[i] {
          break;
        }
        assert v.prefix[j] != 0;
        assert buf[start..i + 1] == buf[start..i] + [buf[i]];
        assert v.prefix[..j + 1] == v.prefix[..j] + [v.prefix[j]];
        i, j := i + 1, j + 1;
      }
    }

    /** One node of a match: its prefix, then its edges. */
    method MatchNode(current: Addr, buf: seq<Byte>, size: nat, start: nat, ghost path: seq<nat>)
      returns (i: nat, j: nat, k: nat)
      requires Readable() && CString(buf, size) && Poised(heap.mem, shape, path, buf, size, start, current)
      ensures var c := At(shape, path);
              && i <= size && j <= |c.prefix| && (path != [] ==> j > 0)
              && Above(shape, path) + c.prefix[..j] == buf[..size][..i]
              && k <= EdgeCount(heap.mem[current])
              && (k == EdgeCount(heap.mem[current]) ==> Matched(shape, path, buf[..size], i, j))
              && (k < EdgeCount(heap.mem[current]) ==>
                    && j == |c.prefix| && i < size && First(c.kids[k]) == buf[i]
                    && Above(shape, path) + c.prefix == buf[..i])
    {
      ghost var c := At(shape, path);
      NodeInPlace(heap.mem, shape, path);
      i, j := MatchPrefix(current, buf, size, start, View(c));
      MatchGrows(shape, path, buf, size, start, i, j);
      k := EdgeCount(heap.mem[current]);
      if j == PrefixLength(heap.mem[current]) {
        k := FindEdge(current, buf, size, i, View(c));
        assert c.prefix[..|c.prefix|] == c.prefix;
        if k == EdgeCount(heap.mem[current]) {
          NoEdge(shape, path, buf, size, i);
        }
      }
    }

    /** The child at an edge the key continues with. */
    method Follow(current: Addr, k: nat, buf: seq<Byte>, size: nat, i: nat, ghost path: seq<nat>) returns (next: Addr)
      requires Readable() && size <= |buf| && ValidPath(shape, path)
      requires current == At(shape, path).addr && k < |At(shape, path).kids| && i < size
      requires Above(shape, path) + At(shape, path).prefix == buf[..i] && First(At(shape, path).kids[k]) == buf[i]
      ensures next != current && Poised(heap.mem, shape, path + [k], buf, size, i, next)
      ensures Parent(path + [k]) == path && Last(path + [k]) == k && At(shape, path + [k]) == At(shape, path).kids[k]
    {
      EdgeLeads(heap.mem, shape, path, k);
      PoisedBelow(heap.mem, shape, path, buf, size, i, current, k);
      next := NodeAt(heap.mem[current], k);
    }

    /** Walks down from the root as long as the key follows the prefixes. */
    method Match(buf: seq<Byte>, size: nat) returns (r: MatchResult, ghost path: seq<nat>)
      requires Readable() && CString(buf, size)
      ensures Matched(shape, path, buf[..size], r.nkey, r.nprefix) && Handles(shape, path, r)
    {
      var i: nat, j: nat, edge: nat, gpEdge: nat := 0, 0, 0, 0;
      var current: Addr, parent: Addr, grandparent: Addr := root, root, root;
      path := [];
      PoisedAtRoot(heap.mem, shape, buf, size);
      while (PrefixLength(heap.mem[current]) > 0 || EdgeCount(heap.mem[current]) > 0) && i < size
        invariant Poised(heap.mem, shape, path, buf, size, i, current)
        invariant Handles(shape, path, MatchResult(i, j, edge, gpEdge, current, parent, grandparent))
        invariant path == [] ==> j == 0
        decreases At(shape, path)
      {
        var k;
        i, j, k := MatchNode(current, buf, size, i, path);
        var next: Addr := current;
        if k < EdgeCount(heap.mem[current]) {
          gpEdge, edge := edge, k;
          next := Follow(current, k, buf, size, i, path);
        }
        if next == current {
          break;
        }
        grandparent, parent, current := parent, current, next;
        path := path + [k];
      }
      return MatchResult(i, j, edge, gpEdge, current, parent, grandparent), path;
    }

    /** The loop over one node's edges: the edge whose first byte the key continues with, if any. */
    method FindEdge(a: Addr, buf: seq<Byte>, size: nat, i: nat, ghost v: NodeView) returns (k: nat)
      requires CString(buf, size) && i <= size && Stores(heap.mem, a, v)
      ensures k <= |v.firsts|
      ensures k < |v.firsts| ==> i < size && v.firsts[k] == buf[i]
      ensures k == |v.firsts| && i < size ==> forall l :: 0 <= l < |v.firsts| ==> v.firsts[l] != buf[i]
    {
      EncodeReads(v);
      k := 0;
      while k < EdgeCount(heap.mem[a])
        invariant k <= |v.firsts|
        invariant i < size ==> forall l :: 0 <= l < k ==> v.firsts[l] != buf[i]
      {
        assert FirstBytesOf(heap.mem[a])[k] == v.firsts[k];
        if i < size && heap.mem[a][FirstBytes(heap.mem[a]) + k] == buf[i] {
          break;
        }
        k := k + 1;
      }
    }

    /** Points the parent's edge to the block a that replaced the node there. */
    method Relink(parent: Addr, edge: nat, a: Addr, ghost path: seq<nat>, ghost u: Tree)
      requires path != [] && ValidPath(shape, path) && ValidPath(shape, Parent(path))
      requires parent == At(shape, Parent(path)).addr && edge == Last(path) && a == u.addr
      requires Pending(heap.mem, foreign, shape, path, u)
      modifies this`shape, heap
      ensures shape == Replace(old(shape), path, u) && Inhabits(heap.mem, foreign, shape)
    {
      NodeAtPacks(View(At(shape, Parent(path))), edge, a);
      heap.SetNodeAt(parent, edge, a);
      shape := Replace(shape, path, u);
    }

    /** Takes down which blocks are foreign. */
    ghost method Begin()
      requires Houses()
      modifies this`foreign
      ensures Owns() && foreign == Foreign()
    {
      foreign := Foreign();
      InhabitsForeign(heap.mem, foreign, shape);
    }

    // ----- insert, branch by branch

    /** No outgoing edge continues with the key: a new leaf with the rest of it. */
    method BuildLeaf(current: Addr, rest: seq<Byte>, ghost path: seq<nat>) returns (current': Addr, ghost u: Tree)
      requires Owns() && WellFormedRoot(shape) && ValidPath(shape, path) && current == At(shape, path).addr
      requires rest != [] && |rest| < U32_LIMIT && |heap.mem| + 1 < 0xFFFF_FFFF_FFFF_FFFF
      modifies heap
      ensures LeafAdded(At(shape, path), u, rest) && u.addr == current' && Stores(heap.mem, current', View(u))
      ensures Pending(heap.mem, foreign, shape, path, u)
    {
      ghost var before, c := heap.mem, At(shape, path);
      Isolate(heap.mem, foreign.Keys, shape, path);
      AtWellFormed(shape, path);
      FewKids(c.kids);
      RoomFor(heap.mem);
      var keyNode := heap.NewLeaf(rest);
      current' := heap.AppendEdge(current, rest[0], keyNode, View(c));
      AppendExchanges(before, heap.mem, View(c), c.addr, keyNode, current', rest);
      u := StageAppend(before, heap.mem, Aside(foreign.Keys, shape, path), c, keyNode, rest, current');
      Complete(before, heap.mem, foreign, shape, path, u);
    }

    /** Makes the root pointer or the parent's edge point to the block that replaced the node at path. */
    method Link(parent: Addr, edge: nat, a: Addr, ghost path: seq<nat>, ghost u: Tree)
      requires ValidPath(shape, path) && a == u.addr && root == shape.addr && Stores(heap.mem, a, View(u))
      requires path != [] ==>
                 ValidPath(shape, Parent(path)) && parent == At(shape, Parent(path)).addr && edge == Last(path)
      requires (path == [] <==> u.prefix == []) && Pending(heap.mem, foreign, shape, path, u)
      modifies this`root, this`shape, heap
      ensures Owns() && shape == Replace(old(shape), path, u)
    {
      EncodeReads(View(u));
      if PrefixLength(heap.mem[a]) == 0 {
        root := a;
        shape := u;
      } else {
        Relink(parent, edge, a, path, u);
      }
    }

    method InsertLeaf(r: MatchResult, rest: seq<Byte>, ghost path: seq<nat>) returns (ghost u: Tree)
      requires Owns() && WellFormedRoot(shape) && ValidPath(shape, path) && Handles(shape, path, r)
      requires rest != [] && |rest| < U32_LIMIT && |heap.mem| + 1 < 0xFFFF_FFFF_FFFF_FFFF
      modifies this`root, this`shape, heap
      ensures Owns() && shape == Replace(old(shape), path, u) && LeafAdded(At(old(shape), path), u, rest)
    {
      var current;
      current, u := BuildLeaf(r.current, rest, path);
      AtWellFormed(shape, path);
      Link(r.parent, r.edgeIndex, current, path, u);
    }

    /** The key leaves the node's prefix after j bytes: split it and hang the rest of the key beside the back half. */
    method BuildFork(current: Addr, j: nat, rest: seq<Byte>, ghost path: seq<nat>)
      returns (current': Addr, ghost u: Tree)
      requires Owns() && ValidPath(shape, path) && current == At(shape, path).addr && 0 < j < |At(shape, path).prefix|
      requires rest != [] && |rest| < U32_LIMIT && |heap.mem| + 1 < 0xFFFF_FFFF_FFFF_FFFF
      modifies heap
      ensures Forked(At(shape, path), u, j, rest) && u.addr == current' && Pending(heap.mem, foreign, shape, path, u)
    {
      ghost var before := heap.mem;
      AtHolds(heap.mem, shape, path);
      var keyNode, splitNode;
      keyNode, splitNode, current' := ForkBlocks(current, j, rest, View(At(shape, path)));
      u := ForkBuilt(before, heap.mem, foreign, shape, path, j, rest, keyNode, splitNode, current');
    }

    method ForkBlocks(current: Addr, j: nat, rest: seq<Byte>, ghost v: NodeView)
      returns (keyNode: Addr, splitNode: Addr, current': Addr)
      requires Stores(heap.mem, current, v) && j < |v.prefix|
      requires rest != [] && |rest| < U32_LIMIT && |heap.mem| + 1 < 0xFFFF_FFFF_FFFF_FFFF
      modifies heap
      ensures Exchanged(old(heap.mem), heap.mem, {current} + {}, {keyNode, splitNode} + {current'})
      ensures keyNode !in old(heap.mem) && splitNode !in old(heap.mem)
      ensures keyNode != splitNode && current' != keyNode && current' != splitNode
      ensures Stores(heap.mem, keyNode, NodeView(1, rest, [], []))
      ensures Stores(heap.mem, splitNode, v.(prefix := v.prefix[j..]))
      ensures Stores(heap.mem, current', NodeView(0, v.prefix[..j], [rest[0], v.prefix[j]], [keyNode, splitNode]))
    {
      ghost var before := heap.mem;
      RoomFor(heap.mem);
      keyNode := heap.NewLeaf(rest);
      RoomFor(heap.mem);
      splitNode := heap.CopyTail(current, j, v);
      current' := ForkAt(current, j, keyNode, splitNode, v, rest);
      ForkExchanges(before, heap.mem, v, current, j, rest, keyNode, splitNode, current');
    }

    method ForkAt(current: Addr, j: nat, keyNode: Addr, splitNode: Addr, ghost v: NodeView, ghost rest: seq<Byte>)
      returns (current': Addr)
      requires Stores(heap.mem, current, v) && j < |v.prefix| && rest != []
      requires Stores(heap.mem, keyNode, NodeView(1, rest, [], []))
      requires Stores(heap.mem, splitNode, v.(prefix := v.prefix[j..]))
      modifies heap
      ensures Moved(old(heap.mem), heap.mem, current, current',
                    Encode(NodeView(0, v.prefix[..j], [rest[0], v.prefix[j]], [keyNode, splitNode])))
    {
      EncodeReads(NodeView(1, rest, [], []));
      EncodeReads(v.(prefix := v.prefix[j..]));
      var x0, x1 := PrefixOf(heap.mem[keyNode])[0], PrefixOf(heap.mem[splitNode])[0];
      current' := heap.Fork(current, j, x0, keyNode, x1, splitNode, v);
    }

    /** The key ends after j bytes of the node's prefix: split it there. */
    method BuildFront(current: Addr, j: nat, ghost path: seq<nat>) returns (current': Addr, ghost u: Tree)
      requires Owns() && ValidPath(shape, path) && current == At(shape, path).addr && 0 < j < |At(shape, path).prefix|
      requires |heap.mem| + 1 < 0xFFFF_FFFF_FFFF_FFFF
      modifies heap
      ensures Fronted(At(shape, path), u, j) && u.addr == current' && Pending(heap.mem, foreign, shape, path, u)
    {
      ghost var before := heap.mem;
      AtHolds(heap.mem, shape, path);
      var splitNode;
      splitNode, current' := FrontBlocks(current, j, View(At(shape, path)));
      u := FrontBuilt(before, heap.mem, foreign, shape, path, j, splitNode, current');
    }

    method FrontBlocks(current: Addr, j: nat, ghost v: NodeView) returns (splitNode: Addr, current': Addr)
      requires Stores(heap.mem, current, v) && j < |v.prefix| && |heap.mem| + 1 < 0xFFFF_FFFF_FFFF_FFFF
      modifies heap
      ensures Exchanged(old(heap.mem), heap.mem, {current} + {}, {splitNode} + {current'})
      ensures splitNode !in old(heap.mem) && current' != splitNode
      ensures Stores(heap.mem, splitNode, v.(prefix := v.prefix[j..]))
      ensures Stores(heap.mem, current', NodeView(1, v.prefix[..j], [v.prefix[j]], [splitNode]))
    {
      ghost var before := heap.mem;
      RoomFor(heap.mem);
      splitNode := heap.CopyTail(current, j, v);
      EncodeReads(v.(prefix := v.prefix[j..]));
      current' := heap.KeepFront(current, j, PrefixOf(heap.mem[splitNode])[0], splitNode, v);
      FrontExchanges(before, heap.mem, v, current, j, splitNode, current');
    }

    method WriteRefs(current: Addr, n: nat, ghost rest: set<Addr>, ghost c: Tree)
      requires Resides(heap.mem, rest, c) && current == c.addr
      modifies heap
      ensures Resides(heap.mem, rest, Counted(c, n)) && Kept(old(heap.mem), heap.mem, rest)
      ensures current in heap.mem && |heap.mem[current]| >= HEADER && Refcount(heap.mem[current]) == Counted(c, n).refs
    {
      ghost var before, v, word := heap.mem, View(c), Counted(c, n).refs;
      RefcountPacks(v, n);
      EncodeReads(v.(refs := word));
      heap.SetRefcount(current, n);
      assert heap.mem == before[current := Encode(v.(refs := word))];
      RefsExchange(before, heap.mem, v, current, word);
      StageRefs(before, heap.mem, rest, c, word);
    }

    /** set_refcount on the node at path, which keeps the low 32 bits; the block stays where it is. */
    method SetRefs(current: Addr, n: nat, ghost path: seq<nat>, ghost u: Tree)
      requires Owns() && path != [] && ValidPath(shape, path) && current == At(shape, path).addr
      requires u == Counted(At(shape, path), n)
      modifies this`shape, heap
      ensures Owns() && shape == Replace(old(shape), path, u)
      ensures current in heap.mem && |heap.mem[current]| >= HEADER && Refcount(heap.mem[current]) == u.refs
    {
      ghost var before, c := heap.mem, At(shape, path);
      Isolate(heap.mem, foreign.Keys, shape, path);
      WriteRefs(current, n, Aside(foreign.Keys, shape, path), c);
      ReuniteInPlace(before, heap.mem, foreign, shape, path, u);
      shape := Replace(shape, path, u);
    }

    method InsertFork(r: MatchResult, rest: seq<Byte>, ghost path: seq<nat>) returns (ghost u: Tree)
      requires Owns() && ValidPath(shape, path) && path != [] && Handles(shape, path, r)
      requires 0 < r.nprefix < |At(shape, path).prefix|
      requires rest != [] && |rest| < U32_LIMIT && |heap.mem| + 1 < 0xFFFF_FFFF_FFFF_FFFF
      modifies this`shape, heap
      ensures Owns() && shape == Replace(old(shape), path, u) && Forked(At(old(shape), path), u, r.nprefix, rest)
    {
      var current;
      current, u := BuildFork(r.current, r.nprefix, rest, path);
      Relink(r.parent, r.edgeIndex, current, path, u);
    }

    method InsertFront(r: MatchResult, ghost path: seq<nat>) returns (ghost u: Tree)
      requires Owns() && ValidPath(shape, path) && path != [] && Handles(shape, path, r)
      requires 0 < r.nprefix < |At(shape, path).prefix| && |heap.mem| + 1 < 0xFFFF_FFFF_FFFF_FFFF
      modifies this`shape, heap
      ensures Owns() && shape == Replace(old(shape), path, u) && Fronted(At(old(shape), path), u, r.nprefix)
    {
      var current;
      current, u := BuildFront(r.current, r.nprefix, path);
      Relink(r.parent, r.edgeIndex, current, path, u);
    }

    /** Some byte of the key does not match; rest is the key from there on. */
    method InsertMismatch(r: MatchResult, rest: seq<Byte>, ghost key: Key, ghost path: seq<nat>)
      requires Owns() && WellFormedRoot(shape) && NulFree(key) && |key| < U32_LIMIT
      requires r.nkey < |key| && rest == key[r.nkey..]
      requires Matched(shape, path, key, r.nkey, r.nprefix) && Handles(shape, path, r)
      requires |heap.mem| + 1 < 0xFFFF_FFFF_FFFF_FFFF
      modifies this`root, this`shape, heap
      ensures Owns() && WellFormedRoot(shape) && Contents() == old(Contents()) + multiset{key}
    {
      ghost var t := shape;
      ghost var u;
      var long := LongerPrefix(r, path);
      if r.nkey == 0 || !long {
        MatchedAtRoot(shape, path, key, r.nkey, r.nprefix);
        u := InsertLeaf(r, rest, path);
        LeafAddedKeeps(t, path, u, key, r.nkey);
      } else {
        assert path != [];
        u := InsertFork(r, rest, path);
        ForkedKeeps(t, path, u, key, r.nkey, r.nprefix);
      }
    }

    /** All bytes of the key match, and the node's prefix goes on. */
    method InsertInside(r: MatchResult, ghost key: Key, ghost path: seq<nat>)
      requires Owns() && WellFormedRoot(shape) && key != [] && Matched(shape, path, key, |key|, r.nprefix)
      requires Handles(shape, path, r) && r.nprefix < |At(shape, path).prefix|
      requires |heap.mem| + 1 < 0xFFFF_FFFF_FFFF_FFFF
      modifies this`shape, heap
      ensures Owns() && WellFormedRoot(shape) && Contents() == old(Contents()) + multiset{key}
    {
      ghost var t := shape;
      ghost var u;
      MatchedInside(shape, path, key, r.nprefix);
      u := InsertFront(r, path);
      FrontedKeeps(t, path, u, key, r.nprefix);
    }

    /** set_refcount(refcount() + 1), and whether it then reads 1. */
    method AddRef(current: Addr, ghost path: seq<nat>) returns (added: bool)
      requires Owns() && path != [] && ValidPath(shape, path) && current == At(shape, path).addr
      modifies this`shape, heap
      ensures Owns() && shape == Replace(old(shape), path, Counted(At(old(shape), path), At(old(shape), path).refs + 1))
      ensures added <==> At(old(shape), path).refs == 0
    {
      ghost var c := At(shape, path);
      ghost var u := Counted(c, c.refs + 1);
      var refs, edges := Counts(current, path);
      OneOnlyFromNone(c);
      SetRefs(current, refs + 1, path, u);
      added := Refcount(heap.mem[current]) == 1;
    }

    /** The key ends where a node ends: one more reference, or none at all if the count wraps. */
    method InsertAgain(r: MatchResult, ghost key: Key, ghost path: seq<nat>) returns (added: bool)
      requires Owns() && WellFormedRoot(shape) && key != [] && Matched(shape, path, key, |key|, r.nprefix)
      requires Handles(shape, path, r) && r.nprefix == |At(shape, path).prefix|
      modifies this`shape, heap
      ensures Owns() && Grown(old(shape), shape, key)
      ensures added <==> At(old(shape), path).refs == 0
    {
      MatchedInside(shape, path, key, r.nprefix);
      BumpedKeeps(shape, path, key);
      added := AddRef(r.current, path);
    }

    /** The four branches of insert behind the match. */
    method InsertMatched(r: MatchResult, buf: seq<Byte>, size: nat, ghost path: seq<nat>) returns (added: bool)
      requires Owns() && WellFormedRoot(shape) && CString(buf, size) && size < U32_LIMIT && r.nkey <= size
      requires |heap.mem| + 1 < 0xFFFF_FFFF_FFFF_FFFF
      requires Matched(shape, path, buf[..size], r.nkey, r.nprefix) && Handles(shape, path, r)
      modifies this`root, this`shape, heap
      ensures Owns() && Grown(old(shape), shape, buf[..size])
      ensures added <==> buf[..size] !in old(Contents())
    {
      WellIsFormed(shape.kids);
      MatchedCount(shape, path, buf[..size], r.nkey, r.nprefix);
      var long := LongerPrefix(r, path);
      if r.nkey != size {
        assert buf[r.nkey..size] == buf[..size][r.nkey..];
        InsertMismatch(r, buf[r.nkey..size], buf[..size], path);
        GrownWell(old(shape), shape, buf[..size]);
        added := true;
      } else if long {
        InsertInside(r, buf[..size], path);
        GrownWell(old(shape), shape, buf[..size]);
        added := true;
      } else {
        added := InsertAgain(r, buf[..size], path);
      }
    }

    method InsertBeside(r: MatchResult, buf: seq<Byte>, size: nat, ghost path: seq<nat>) returns (added: bool)
      requires Houses() && WellFormedRoot(shape) && CString(buf, size) && size < U32_LIMIT && r.nkey <= size
      requires |heap.mem| + 1 < 0xFFFF_FFFF_FFFF_FFFF
      requires Matched(shape, path, buf[..size], r.nkey, r.nprefix) && Handles(shape, path, r)
      modifies this`root, this`shape, this`foreign, heap
      ensures Houses() && Foreign() == old(Foreign()) && Grown(old(shape), shape, buf[..size])
      ensures added <==> buf[..size] !in old(Contents())
    {
      Begin();
      added := InsertMatched(r, buf, size, path);
      InhabitsForeign(heap.mem, foreign, shape);
    }

    method InsertKey(buf: seq<Byte>, size: nat) returns (added: bool)
      requires Valid() && CString(buf, size) && size < U32_LIMIT && |heap.mem| + 1 < 0xFFFF_FFFF_FFFF_FFFF
      modifies this`root, this`shape, this`foreign, heap
      ensures Houses() && Foreign() == old(Foreign()) && Grown(old(shape), shape, buf[..size])
      ensures added <==> buf[..size] !in old(Contents())
    {
      ghost var path;
      var r;
      WellIsFormed(shape.kids);
      r, path := Match(buf, size);
      added := InsertBeside(r, buf, size, path);
    }

    /** Adds one occurrence of the key; true if there was none before. A key stored 2^32 - 1 times is forgotten,
        which is exactly when the tree does not stay valid. */
    method Insert(buf: seq<Byte>, size: nat) returns (added: bool)
      requires Valid() && CString(buf, size) && size < U32_LIMIT
      requires |heap.mem| + 1 < 0xFFFF_FFFF_FFFF_FFFF
      modifies this, heap
      ensures Readable() && Contents() == OneMoreOrNone(old(Contents()), buf[..size])
      ensures this.size == old(this.size) + 1
      ensures Foreign() == old(Foreign())
      ensures Valid() <==> old(Contents())[buf[..size]] + 1 < U32_LIMIT
      ensures added <==> buf[..size] !in old(Contents())
    {
      added := InsertKey(buf, size);
      this.size := this.size + 1;
      GrownStands(old(shape), shape, buf[..size], old(this.size));
    }

    /** The node's prefix goes on behind the matched bytes. */
    method LongerPrefix(r: MatchResult, ghost path: seq<nat>) returns (long: bool)
      requires Houses() && ValidPath(shape, path) && Handles(shape, path, r) && r.nprefix <= |At(shape, path).prefix|
      ensures long <==> r.nprefix < |At(shape, path).prefix|
    {
      AtHolds(heap.mem, shape, path);
      EncodeReads(View(At(shape, path)));
      long := r.nprefix != PrefixLength(heap.mem[r.current]);
    }

    // ----- erase, branch by branch

    /** q absorbs its child d; the blocks of d and of the leaf, if any, are freed. */
    method Merge(a: Addr, child: Addr, ghost rest: set<Addr>, ghost q: Tree, ghost d: Tree)
      returns (a': Addr, ghost u: Tree)
      requires Resides(heap.mem, rest, q) && a == q.addr && q.kids == [d] && child == d.addr
      requires |q.prefix| + |d.prefix| < U32_LIMIT
      modifies heap
      ensures Fused(q, d, u) && u.addr == a' && Resides(heap.mem, rest, u) && Kept(old(heap.mem), heap.mem, rest)
    {
      ghost var before := heap.mem;
      Unsettle(heap.mem, rest, q);
      KidsSingle(d);
      a' := heap.Absorb(a, child, View(q), View(d));
      heap.Free(child);
      MergeExchanges(before, heap.mem, View(q), View(d), a, child, {}, a');
      u := StageMerge(before, heap.mem, rest, q, d, {}, a');
    }

    /** q loses the leaf at edge e and absorbs its other child d. */
    method Collapse(a: Addr, leaf: Addr, other: Addr, ghost rest: set<Addr>, ghost q: Tree, ghost e: nat)
      returns (a': Addr, ghost u: Tree)
      requires Resides(heap.mem, rest, q) && a == q.addr && |q.kids| == 2 && e < 2 && q.kids[e].kids == []
      requires leaf == q.kids[e].addr && other == q.kids[1 - e].addr
      requires |q.prefix| + |q.kids[1 - e].prefix| < U32_LIMIT
      modifies heap
      ensures Collapsed(q, e, u) && u.addr == a' && Resides(heap.mem, rest, u) && Kept(old(heap.mem), heap.mem, rest)
    {
      ghost var before, d := heap.mem, q.kids[1 - e];
      Unsettle(heap.mem, rest, q);
      LeafAndOther(q.kids, e);
      a' := heap.Absorb(a, other, View(q), View(d));
      heap.Free(leaf);
      heap.Free(other);
      MergeExchanges(before, heap.mem, View(q), View(d), a, other, {leaf}, a');
      u := StageMerge(before, heap.mem, rest, q, d, {leaf}, a');
    }

    /** q loses the leaf at edge e. */
    method Prune(a: Addr, e: nat, leaf: Addr, ghost rest: set<Addr>, ghost q: Tree) returns (a': Addr, ghost u: Tree)
      requires Resides(heap.mem, rest, q) && a == q.addr && e < |q.kids|
      requires q.kids[e].kids == [] && leaf == q.kids[e].addr
      modifies heap
      ensures Pruned(q, u, e) && u.addr == a' && Resides(heap.mem, rest, u) && Kept(old(heap.mem), heap.mem, rest)
    {
      ghost var before := heap.mem;
      Unsettle(heap.mem, rest, q);
      KidAddr(q.kids, e);
      a' := heap.RemoveEdge(a, e, View(q));
      heap.Free(leaf);
      PruneExchanges(before, heap.mem, View(q), a, e, leaf, a');
      u := StageRemove(before, heap.mem, rest, q, e, a');
    }

    method MergeAt(current: Addr, ghost path: seq<nat>) returns (current': Addr, ghost u: Tree)
      requires Owns() && ValidPath(shape, path) && current == At(shape, path).addr && |At(shape, path).kids| == 1
      requires var c := At(shape, path); c.prefix != [] && |c.prefix| + |c.kids[0].prefix| < U32_LIMIT
      modifies heap
      ensures Fused(At(shape, path), At(shape, path).kids[0], u) && u.addr == current'
      ensures Pending(heap.mem, foreign, shape, path, u)
    {
      ghost var before, c := heap.mem, At(shape, path);
      Isolate(heap.mem, foreign.Keys, shape, path);
      var child := ChildAt(heap, current, 0, c);
      current', u := Merge(current, child, Aside(foreign.Keys, shape, path), c, c.kids[0]);
      Complete(before, heap.mem, foreign, shape, path, u);
    }

    /** The node lost its key and has one child: merge them. */
    method EraseMerge(r: MatchResult, ghost t: Tree, ghost path: seq<nat>) returns (ghost u: Tree)
      requires Owns() && Unkeyed(t, path, shape) && Handles(t, path, r) && |At(t, path).kids| == 1
      modifies this`shape, heap
      ensures Owns() && shape == Replace(t, path, u) && Fused(At(t, path), At(t, path).kids[0], u)
    {
      UnkeyedNode(t, path, shape);
      MergeFits(t, path, 0);
      var current;
      current, u := MergeAt(r.current, path);
      ReplaceAgain(t, path, At(t, path).(refs := 0), u);
      Relink(r.parent, r.edgeIndex, current, path, u);
    }

    method CollapseAt(parent: Addr, leaf: Addr, e: nat, ghost path: seq<nat>) returns (parent': Addr, ghost u: Tree)
      requires Owns() && ValidPath(shape, path) && parent == At(shape, path).addr
      requires LeafAndSibling(At(shape, path), e, leaf)
      modifies heap
      ensures Collapsed(At(shape, path), e, u) && u.addr == parent' && Pending(heap.mem, foreign, shape, path, u)
    {
      ghost var before := heap.mem;
      Isolate(heap.mem, foreign.Keys, shape, path);
      var other := ChildAt(heap, parent, 1 - e, At(shape, path));
      parent', u := Collapse(parent, leaf, other, Aside(foreign.Keys, shape, path), At(shape, path), e);
      Complete(before, heap.mem, foreign, shape, path, u);
    }

    /** The leaf's parent holds no key and keeps one other child: merge these two. */
    method EraseCollapse(r: MatchResult, ghost t: Tree, ghost path: seq<nat>) returns (ghost u: Tree)
      requires Owns() && Unkeyed(t, path, shape) && Handles(t, path, r) && At(t, path).kids == [] && |path| > 1
      requires |At(t, Parent(path)).kids| == 2
      modifies this`shape, heap
      ensures Owns() && shape == Replace(t, Parent(path), u)
      ensures Collapsed(At(t, Parent(path)), Last(path), u)
    {
      ghost var up := Parent(path);
      UnkeyedPair(t, path, shape);
      var parent;
      parent, u := CollapseAt(r.parent, r.current, r.edgeIndex, up);
      UnkeyedFused(t, path, shape, u);
      Relink(r.grandparent, r.gpEdgeIndex, parent, up, u);
    }

    /** The leaf's parent keeps a key or at least two other children: drop the edge. */
    method ErasePrune(r: MatchResult, ghost t: Tree, ghost path: seq<nat>) returns (ghost u: Tree)
      requires Owns() && Unkeyed(t, path, shape) && Handles(t, path, r) && At(t, path).kids == []
      modifies this`root, this`shape, heap
      ensures Owns() && path != [] && ValidPath(t, Parent(path)) && shape == Replace(t, Parent(path), u)
      ensures Pruned(At(t, Parent(path)), u, r.edgeIndex)
    {
      ghost var up, c := Parent(path), At(t, path).(refs := 0);
      PathParent(t, path);
      UnkeyedParent(t, path, shape);
      ghost var q := At(shape, up);
      ghost var before := heap.mem;
      Isolate(heap.mem, foreign.Keys, shape, up);
      var parent;
      parent, u := Prune(r.parent, r.edgeIndex, r.current, Aside(foreign.Keys, shape, up), q);
      PrunedIgnores(At(t, up), u, r.edgeIndex, c);
      ReplaceParent(t, path, c, u);
      AtWellFormed(t, up);
      Complete(before, heap.mem, foreign, shape, up, u);
      Link(r.grandparent, r.gpEdgeIndex, parent, up, u);
    }

    /** The reference count and edge count of the node at path. */
    method Counts(a: Addr, ghost path: seq<nat>) returns (refs: nat, edges: nat)
      requires Houses() && ValidPath(shape, path) && a == At(shape, path).addr
      ensures refs == At(shape, path).refs < U32_LIMIT && edges == |At(shape, path).kids|
    {
      AtHolds(heap.mem, shape, path);
      EncodeReads(View(At(shape, path)));
      refs, edges := Refcount(heap.mem[a]), EdgeCount(heap.mem[a]);
    }

    /** The key's last occurrence is gone: restore the shape around its node. */
    method EraseNode(r: MatchResult, ghost t: Tree, ghost path: seq<nat>, ghost key: Key)
      requires Owns() && Unkeyed(t, path, shape) && Handles(t, path, r)
      requires Matched(t, path, key, |key|, |At(t, path).prefix|) && At(t, path).refs == 1
      modifies this`root, this`shape, heap
      ensures Owns() && WellFormedRoot(shape) && Keys(t) == Contents() + multiset{key}
    {
      ghost var u;
      UnkeyedNode(t, path, shape);
      UnkeyedParent(t, path, shape);
      var _, edges := Counts(r.current, path);
      if edges > 1 {
        UnkeyedKeeps(t, path, key);
        return;
      }
      if edges == 1 {
        u := EraseMerge(r, t, path);
        FusedKeeps(t, path, u, key);
        return;
      }
      var parentRefs, parentEdges := Counts(r.parent, Parent(path));
      RootIsParent(t, shape, path, r.parent);
      if parentEdges == 2 && parentRefs == 0 && r.parent != root {
        u := EraseCollapse(r, t, path);
        CollapsedKeeps(t, path, u, key);
        return;
      }
      u := ErasePrune(r, t, path);
      PrunedKeeps(t, path, u, key);
    }

    /** set_refcount(refcount() - 1) */
    method DropRef(current: Addr, refs: nat, ghost path: seq<nat>)
      requires Owns() && path != [] && ValidPath(shape, path) && current == At(shape, path).addr
      requires refs == At(shape, path).refs > 0
      modifies this`shape, heap
      ensures Owns() && shape == Replace(old(shape), path, Lessened(At(old(shape), path)))
    {
      ghost var c := At(shape, path);
      RefsFit(heap.mem, shape, path);
      CountedSmall(c, refs - 1);
      SetRefs(current, refs - 1, path, Lessened(c));
    }

    method EraseOne(r: MatchResult, refs: nat, ghost path: seq<nat>, ghost key: Key)
      requires Owns() && WellFormedRoot(shape) && ShortKeys(shape)
      requires key != [] && ValidPath(shape, path) && Handles(shape, path, r) && refs == At(shape, path).refs > 0
      requires Matched(shape, path, key, |key|, |At(shape, path).prefix|)
      modifies this`root, this`shape, heap
      ensures Owns() && WellFormedRoot(shape) && old(Contents()) == Contents() + multiset{key}
    {
      ghost var t := shape;
      MatchedInside(shape, path, key, |At(shape, path).prefix|);
      if refs > 1 {
        DecreasedKeeps(t, path, key);
      } else {
        assert Unkeyed(t, path, Replace(t, path, Lessened(At(t, path))));
      }
      DropRef(r.current, refs, path);
      if refs - 1 == 0 {
        EraseNode(r, t, path, key);
      }
    }

    method EraseFound(r: MatchResult, refs: nat, ghost path: seq<nat>, ghost key: Key)
      requires Valid() && key != [] && ValidPath(shape, path) && Handles(shape, path, r)
      requires refs == At(shape, path).refs > 0 && Matched(shape, path, key, |key|, |At(shape, path).prefix|)
      modifies this`root, this`shape, this`foreign, heap
      ensures Houses() && Foreign() == old(Foreign()) && WellFormedRoot(shape)
      ensures old(Contents()) == Contents() + multiset{key}
    {
      Begin();
      EraseOne(r, refs, path, key);
      InhabitsForeign(heap.mem, foreign, shape);
    }

    method EraseCounted(r: MatchResult, refs: nat, ghost path: seq<nat>, ghost key: Key)
      requires Valid() && key != [] && ValidPath(shape, path) && Handles(shape, path, r)
      requires refs == At(shape, path).refs > 0 && Matched(shape, path, key, |key|, |At(shape, path).prefix|)
      modifies this, heap
      ensures Valid() && Contents() == old(Contents()) - multiset{key} && Foreign() == old(Foreign())
    {
      EraseFound(r, refs, path, key);
      OneLess(old(Contents()), Contents(), key);
      size := size - 1;
    }

    /** Where a match ended, and whether the key ends exactly where that node ends. */
    method Locate(buf: seq<Byte>, size: nat) returns (r: MatchResult, exact: bool, refs: nat, ghost path: seq<nat>)
      requires Readable() && CString(buf, size)
      ensures ValidPath(shape, path) && Handles(shape, path, r) && refs == At(shape, path).refs
      ensures exact ==> Matched(shape, path, buf[..size], size, |At(shape, path).prefix|)
      ensures Contents()[buf[..size]] == if exact then refs else 0
    {
      r, path := Match(buf, size);
      MatchedCount(shape, path, buf[..size], r.nkey, r.nprefix);
      var long := LongerPrefix(r, path);
      var edges;
      refs, edges := Counts(r.current, path);
      exact := r.nkey == size && !long;
    }

    method EraseIf(found: bool, r: MatchResult, refs: nat, ghost path: seq<nat>, ghost key: Key)
      requires Valid() && key != [] && ValidPath(shape, path) && Handles(shape, path, r)
      requires found ==> refs == At(shape, path).refs > 0 && Matched(shape, path, key, |key|, |At(shape, path).prefix|)
      requires !found ==> key !in Contents()
      modifies this, heap
      ensures Valid() && Contents() == old(Contents()) - multiset{key} && Foreign() == old(Foreign())
    {
      if found {
        EraseCounted(r, refs, path, key);
      }
    }

    /** Removes one occurrence of the key; true if there was one. */
    method Erase(buf: seq<Byte>, size: nat) returns (removed: bool)
      requires Valid() && CString(buf, size)
      modifies this, heap
      ensures Valid() && Contents() == old(Contents()) - multiset{buf[..size]} && Foreign() == old(Foreign())
      ensures removed <==> buf[..size] in old(Contents())
    {
      ghost var path;
      var r, exact, refs;
      WellIsFormed(shape.kids);
      r, exact, refs, path := Locate(buf, size);
      removed := exact && refs > 0;
      EraseIf(removed, r, refs, path, buf[..size]);
    }

    /** Whether the key is stored. */
    method Contains(buf: seq<Byte>, size: nat) returns (found: bool)
      requires Readable() && CString(buf, size)
      ensures found <==> buf[..size] in Contents()
    {
      ghost var path;
      var r, exact, refs;
      r, exact, refs, path := Locate(buf, size);
      found := exact && refs > 0;
    }

    /** The number of stored occurrences. */
    method Size() returns (n: nat)
      requires Valid()
      ensures n == |Contents()|
    {
      n := size;
    }

    // ----- traversals

    /** Calls the visitor once on each distinct stored key, in the order of the edge paths; so a key comes before the
        keys that extend it. */
    method Apply(v: Visitor)
      requires Readable() && v.buffer == []
      modifies v
      ensures v.buffer == []
      ensures old(v.calls) <= v.calls
      ensures forall k :: multiset(v.calls[|old(v.calls)|..])[k] == if k in Contents() then 1 else 0
      ensures PrefixesFirst(v.calls[|old(v.calls)|..])
      ensures InPathOrder(v.calls[|old(v.calls)|..], shape)
    {
      VisitKeys(heap, root, v, shape);
      assert v.calls[|old(v.calls)|..] == KeyList([], shape);
      forall k ensures multiset(KeyList([], shape))[k] == if k in Contents() then 1 else 0 {
        EachKeyOnce([], shape, k);
      }
      ListPrefixesFirst([], shape);
      ListInPathOrder(shape);
    }

    /** The destructor: every block of the tree is freed, and freed once; the others stay. */
    method Destroy() returns (order: seq<Addr>)
      requires Houses()
      modifies heap
      ensures heap.mem == old(Foreign()) && multiset(order) == multiset(old(heap.mem.Keys) - old(Foreign().Keys))
    {
      HoldsOwned(heap.mem, shape);
      assert heap.mem.Keys - Foreign().Keys == Owned(shape);
      order := FreeNodes(heap, root, shape);
    }
  }

  /** One step of a match down an edge. */
  lemma Descend(mem: Memory, t: Tree, path: seq<nat>, k: nat)
    requires ValidPath(t, path) && k < |At(t, path).kids| && Holds(mem, t) && Distinct(t)
    ensures ValidPath(t, path + [k]) && Parent(path + [k]) == path && Last(path + [k]) == k
    ensures At(t, path + [k]) == At(t, path).kids[k] && At(t, path + [k]).addr != At(t, path).addr
    ensures Above(t, path + [k]) == Above(t, path) + At(t, path).prefix
  {
    PathStep(t, path, k);
    AtDistinct(t, path);
    assert (path + [k])[..|path|] == path;
  }

  /** A match has come to the node at path, and its first byte if it is not the root. */
  ghost predicate Poised(mem: Memory, t: Tree, path: seq<nat>, buf: seq<Byte>, size: nat, i: nat, current: Addr)
    requires size <= |buf|
  {
    && ValidPath(t, path) && i <= size && Above(t, path) == buf[..i]
    && (path == [] ==> i == 0) && (path != [] ==> i < size && First(At(t, path)) == buf[i])
    && var c := At(t, path);
    && current == c.addr && current in mem && WellSized(mem[current])
    && PrefixLength(mem[current]) == |c.prefix| && EdgeCount(mem[current]) == |c.kids|
    && (path != [] ==> c.prefix != [])
  }

  lemma PoisedAtRoot(mem: Memory, t: Tree, buf: seq<Byte>, size: nat)
    requires Holds(mem, t) && 0 < size < |buf|
    ensures Poised(mem, t, [], buf, size, 0, t.addr)
  {
    EncodeReads(View(t));
  }

  lemma PoisedBelow(mem: Memory, t: Tree, path: seq<nat>, buf: seq<Byte>, size: nat, i: nat, current: Addr, k: nat)
    requires Holds(mem, t) && Distinct(t) && FormedKids(t.kids) && size <= |buf|
    requires ValidPath(t, path) && current == At(t, path).addr && k < |At(t, path).kids| && i < size
    requires Above(t, path) + At(t, path).prefix == buf[..i] && First(At(t, path).kids[k]) == buf[i]
    ensures ValidPath(t, path + [k]) && Parent(path + [k]) == path && Last(path + [k]) == k
    ensures At(t, path + [k]) == At(t, path).kids[k]
    ensures At(t, path + [k]).addr != current
    ensures Poised(mem, t, path + [k], buf, size, i, At(t, path).kids[k].addr)
  {
    Descend(mem, t, path, k);
    NodeInPlace(mem, t, path + [k]);
    EncodeReads(View(At(t, path + [k])));
  }

  /** The pointer stored at an edge is the address of the child there. */
  lemma EdgeLeads(mem: Memory, t: Tree, path: seq<nat>, k: nat)
    requires Holds(mem, t) && ValidPath(t, path) && k < |At(t, path).kids|
    ensures var c := At(t, path);
            c.addr in mem && WellSized(mem[c.addr]) && k < EdgeCount(mem[c.addr])
            && NodeAt(mem[c.addr], k) == c.kids[k].addr
  {
    AtHolds(mem, t, path);
    NodeAtReads(View(At(t, path)), k);
  }

  /** What a match can read off the block of the node at path. */
  lemma NodeInPlace(mem: Memory, t: Tree, path: seq<nat>)
    requires ValidPath(t, path) && Holds(mem, t) && FormedKids(t.kids)
    ensures var c := At(t, path); Stores(mem, c.addr, View(c)) && FormedKids(c.kids)
    ensures path != [] ==> Formed(At(t, path))
  {
    AtHolds(mem, t, path);
    AtFormed(t, path);
  }

  lemma MatchGrows(t: Tree, path: seq<nat>, buf: seq<Byte>, size: nat, start: nat, i: nat, j: nat)
    requires ValidPath(t, path) && j <= |At(t, path).prefix| && start + j == i <= size <= |buf|
    requires Above(t, path) == buf[..start] && buf[start..i] == At(t, path).prefix[..j]
    ensures Above(t, path) + At(t, path).prefix[..j] == buf[..i] == buf[..size][..i]
  {
    assert buf[..i] == buf[..start] + buf[start..i];
  }

  lemma NoEdge(t: Tree, path: seq<nat>, buf: seq<Byte>, size: nat, i: nat)
    requires ValidPath(t, path) && i <= size <= |buf| && (path != [] ==> At(t, path).prefix != [])
    requires Above(t, path) + At(t, path).prefix[..|At(t, path).prefix|] == buf[..size][..i]
    requires i < size ==> forall l :: 0 <= l < |At(t, path).kids| ==> Firsts(At(t, path).kids)[l] != buf[i]
    ensures Matched(t, path, buf[..size], i, |At(t, path).prefix|)
  {
    var c := At(t, path);
    assert forall l :: 0 <= l < |c.kids| ==> Firsts(c.kids)[l] == First(c.kids[l]);
  }

  lemma AppendExchanges(before: Memory, after: Memory, v: NodeView, c: Addr, leaf: Addr, a: Addr, rest: seq<Byte>)
    requires c in before && leaf !in before && Fits(v) && rest != [] && |rest| < U32_LIMIT && |v.firsts| + 1 < U32_LIMIT
    requires var w := v.(firsts := v.firsts + [rest[0]], ptrs := v.ptrs + [leaf]);
             Moved(before[leaf := Encode(NodeView(1, rest, [], []))], after, c, a, Encode(w))
    ensures Exchanged(before, after, {c} + {}, {leaf} + {a}) && leaf != a
    ensures Stores(after, leaf, NodeView(1, rest, [], []))
    ensures Stores(after, a, v.(firsts := v.firsts + [rest[0]], ptrs := v.ptrs + [leaf]))
  {}

  lemma ForkExchanges(before: Memory, after: Memory, v: NodeView, c: Addr, j: nat, rest: seq<Byte>,
                      leaf: Addr, t: Addr, a: Addr)
    requires c in before && leaf !in before && t !in before && t != leaf && Fits(v) && j < |v.prefix|
    requires rest != [] && |rest| < U32_LIMIT
    requires Moved(before[leaf := Encode(NodeView(1, rest, [], []))][t := Encode(v.(prefix := v.prefix[j..]))],
                   after, c, a, Encode(NodeView(0, v.prefix[..j], [rest[0], v.prefix[j]], [leaf, t])))
    ensures Exchanged(before, after, {c} + {}, {leaf, t} + {a}) && leaf != a && t != a
    ensures Stores(after, leaf, NodeView(1, rest, [], [])) && Stores(after, t, v.(prefix := v.prefix[j..]))
    ensures Stores(after, a, NodeView(0, v.prefix[..j], [rest[0], v.prefix[j]], [leaf, t]))
  {}

  lemma FrontExchanges(before: Memory, after: Memory, v: NodeView, c: Addr, j: nat, t: Addr, a: Addr)
    requires c in before && t !in before && Fits(v) && j < |v.prefix|
    requires Moved(before[t := Encode(v.(prefix := v.prefix[j..]))], after, c, a,
                   Encode(NodeView(1, v.prefix[..j], [v.prefix[j]], [t])))
    ensures Exchanged(before, after, {c} + {}, {t} + {a}) && t != a
    ensures Stores(after, t, v.(prefix := v.prefix[j..]))
    ensures Stores(after, a, NodeView(1, v.prefix[..j], [v.prefix[j]], [t]))
  {}

  // ----- what a match says about the stored keys

  /** The key's count is the reference count of the node it ends at exactly, and 0 otherwise. */
  lemma MatchedCount(t: Tree, path: seq<nat>, key: Key, i: nat, j: nat)
    requires FormedRoot(t) && Matched(t, path, key, i, j)
    ensures var c := At(t, path);
            Keys(t)[key] == if i == |key| && j == |c.prefix| then c.refs else 0
  {
    var c, acc := At(t, path), Above(t, path);
    assert [] + acc == acc;
    if path != [] {
      assert acc + [First(c)] <= acc + c.prefix[..j];
    }
    CountAt([], t, path, key);
    AtFormed(t, path);
    if j < |c.prefix| {
      if key in KeysFrom(acc, c) {
        KeysExtend(acc, c, key);
        assert false;
      }
    } else {
      assert c.prefix[..j] == c.prefix;
      assert acc + c.prefix == key[..i];
      assert i == |key| ==> key[..i] == key;
      NoKidCount(acc + c.prefix, c.kids, key);
    }
  }

  /** A match that consumed nothing stayed at the root. */
  lemma MatchedAtRoot(t: Tree, path: seq<nat>, key: Key, i: nat, j: nat)
    requires WellFormedRoot(t) && ValidPath(t, path) && Matched(t, path, key, i, j)
    requires i == 0 || j == |At(t, path).prefix|
    ensures j == |At(t, path).prefix|
  {
    if i == 0 {
      assert |Above(t, path) + At(t, path).prefix[..j]| == 0;
    }
  }

  /** A match that consumed a nonempty key left the root. */
  lemma MatchedInside(t: Tree, path: seq<nat>, key: Key, j: nat)
    requires WellFormedRoot(t) && Matched(t, path, key, |key|, j) && key != []
    ensures path != [] && j > 0
  {
    assert key[..|key|] == key;
  }

  lemma LeafAddedKeeps(t: Tree, path: seq<nat>, u: Tree, key: Key, i: nat)
    requires WellFormedRoot(t) && NulFree(key) && i < |key| && ValidPath(t, path)
    requires Matched(t, path, key, i, |At(t, path).prefix|)
    requires LeafAdded(At(t, path), u, key[i..])
    ensures WellFormedRoot(Replace(t, path, u)) && Keys(Replace(t, path, u)) == Keys(t) + multiset{key}
  {
    var c, acc := At(t, path), Above(t, path);
    assert c.prefix[..|c.prefix|] == c.prefix;
    assert acc + c.prefix + key[i..] == key;
    KeysAppend(acc, c, u.kids[|c.kids|].addr, key[i..], u.addr);
    KeysGrow(t, path, u, key);
    AtWellFormed(t, path);
    WellFormedAppend(c.kids, u.kids[|c.kids|]);
    if path != [] {
      WellFormedReplace(t, path, u);
    }
  }

  lemma ForkedKeeps(t: Tree, path: seq<nat>, u: Tree, key: Key, i: nat, j: nat)
    requires WellFormedRoot(t) && NulFree(key) && i < |key| && Matched(t, path, key, i, j) && path != []
    requires j < |At(t, path).prefix| && Forked(At(t, path), u, j, key[i..])
    ensures WellFormedRoot(Replace(t, path, u)) && Keys(Replace(t, path, u)) == Keys(t) + multiset{key}
    ensures First(u) == First(At(t, path))
  {
    var c, acc := At(t, path), Above(t, path);
    assert acc + c.prefix[..j] + key[i..] == key;
    KeysFork(acc, c, j, u.kids[0].addr, key[i..], u.kids[1].addr, u.addr);
    KeysGrow(t, path, u, key);
    AtWellFormed(t, path);
    WellFormedFork(c, j, u.kids[0].addr, key[i..], u.kids[1].addr, u.addr);
    WellFormedReplace(t, path, u);
  }

  lemma FrontedKeeps(t: Tree, path: seq<nat>, u: Tree, key: Key, j: nat)
    requires WellFormedRoot(t) && Matched(t, path, key, |key|, j) && path != []
    requires j < |At(t, path).prefix| && Fronted(At(t, path), u, j)
    ensures WellFormedRoot(Replace(t, path, u)) && Keys(Replace(t, path, u)) == Keys(t) + multiset{key}
    ensures First(u) == First(At(t, path))
  {
    var c, acc := At(t, path), Above(t, path);
    assert acc + c.prefix[..j] == key;
    KeysFront(acc, c, j, u.kids[0].addr, u.addr);
    KeysGrow(t, path, u, key);
    AtWellFormed(t, path);
    WellFormedFront(c, j, u.kids[0].addr, u.addr);
    WellFormedReplace(t, path, u);
  }

  /** The blocks of a split are the split node in the place of the node at path. */
  lemma ForkBuilt(before: Memory, mem: Memory, foreign: Memory, t: Tree, path: seq<nat>, j: nat, rest: seq<Byte>,
                  leaf: Addr, tail: Addr, a: Addr)
    returns (u: Tree)
    requires ValidPath(t, path) && Inhabits(before, foreign, t) && rest != [] && 0 < j < |At(t, path).prefix|
    requires Exchanged(before, mem, {At(t, path).addr} + {}, {leaf, tail} + {a})
    requires leaf !in before && tail !in before && leaf != tail && a != leaf && a != tail
    requires Stores(mem, leaf, NodeView(1, rest, [], []))
    requires var c := At(t, path);
             && Stores(mem, tail, View(c).(prefix := c.prefix[j..]))
             && Stores(mem, a, NodeView(0, c.prefix[..j], [rest[0], c.prefix[j]], [leaf, tail]))
    ensures Forked(At(t, path), u, j, rest) && u.addr == a && Pending(mem, foreign, t, path, u)
  {
    var c := At(t, path);
    Isolate(before, foreign.Keys, t, path);
    u := StageFork(before, mem, Aside(foreign.Keys, t, path), c, j, leaf, rest, tail, a);
    FrontFirst(c, u, j);
    Complete(before, mem, foreign, t, path, u);
  }

  lemma FrontBuilt(before: Memory, mem: Memory, foreign: Memory, t: Tree, path: seq<nat>, j: nat, tail: Addr, a: Addr)
    returns (u: Tree)
    requires ValidPath(t, path) && Inhabits(before, foreign, t) && 0 < j < |At(t, path).prefix|
    requires Exchanged(before, mem, {At(t, path).addr} + {}, {tail} + {a}) && tail !in before && a != tail
    requires var c := At(t, path);
             && Stores(mem, tail, View(c).(prefix := c.prefix[j..]))
             && Stores(mem, a, NodeView(1, c.prefix[..j], [c.prefix[j]], [tail]))
    ensures Fronted(At(t, path), u, j) && u.addr == a && Pending(mem, foreign, t, path, u)
  {
    var c := At(t, path);
    Isolate(before, foreign.Keys, t, path);
    u := StageFront(before, mem, Aside(foreign.Keys, t, path), c, j, tail, a);
    FrontFirst(c, u, j);
    Complete(before, mem, foreign, t, path, u);
  }

  lemma FrontFirst(c: Tree, u: Tree, j: nat)
    requires 0 < j <= |c.prefix| && u.prefix == c.prefix[..j]
    ensures First(u) == First(c)
  {
  }

  /** The node with what is left of a count in a 32-bit word. */
  ghost function Counted(c: Tree, n: nat): Tree {
    c.(refs := n % U32_LIMIT)
  }

  ghost function Lessened(c: Tree): Tree
    requires c.refs > 0
  {
    c.(refs := c.refs - 1)
  }

  lemma RefsFit(mem: Memory, t: Tree, path: seq<nat>)
    requires ValidPath(t, path) && Holds(mem, t)
    ensures At(t, path).refs < U32_LIMIT
  {
    AtHolds(mem, t, path);
  }

  lemma CountedSmall(c: Tree, n: nat)
    requires n < U32_LIMIT
    ensures Counted(c, n) == c.(refs := n)
  {
    SmallModU32(n);
  }

  lemma OneOnlyFromNone(c: Tree)
    requires c.refs < U32_LIMIT
    ensures Counted(c, c.refs + 1).refs == 1 <==> c.refs == 0
  {
  }

  /** What a 32-bit count makes of one more occurrence. */
  ghost function OneMoreOrNone(m: multiset<Key>, key: Key): multiset<Key> {
    if m[key] + 1 < U32_LIMIT then m + multiset{key} else m[key := 0]
  }

  /** The tree after an insert; it has the right shape unless the count wrapped. */
  ghost predicate Grown(t: Tree, u: Tree, key: Key) {
    Keys(u) == OneMoreOrNone(Keys(t), key) && FormedRoot(u) && (Keys(t)[key] + 1 < U32_LIMIT ==> WellFormedRoot(u))
  }

  lemma GrownWell(t: Tree, u: Tree, key: Key)
    requires WellFormedRoot(u) && Keys(u) == Keys(t) + multiset{key} && Keys(t)[key] + 1 < U32_LIMIT
    ensures Grown(t, u, key)
  {
    WellIsFormed(u.kids);
  }

  /** The increment of a 32-bit count, for every count. */
  lemma BumpedKeeps(t: Tree, path: seq<nat>, key: Key)
    requires WellFormedRoot(t) && path != [] && ValidPath(t, path)
    requires Matched(t, path, key, |key|, |At(t, path).prefix|)
    ensures Grown(t, Replace(t, path, Counted(At(t, path), At(t, path).refs + 1)), key)
  {
    var c, acc := At(t, path), Above(t, path);
    var u := Counted(c, c.refs + 1);
    WellIsFormed(t.kids);
    MatchedCount(t, path, key, |key|, |c.prefix|);
    MatchedSpells(t, path, key);
    AtWellFormed(t, path);
    if c.refs + 1 < U32_LIMIT {
      CountedSmall(c, c.refs + 1);
      KeysGrow(t, path, u, key);
      WellFormedReplace(t, path, u);
      GrownWell(t, Replace(t, path, u), key);
    } else {
      assert c.refs + 1 == U32_LIMIT;
      WrappedKeeps(t, path, u, key);
    }
  }

  lemma WrappedKeeps(t: Tree, path: seq<nat>, u: Tree, key: Key)
    requires WellFormedRoot(t) && path != [] && ValidPath(t, path) && u == At(t, path).(refs := 0)
    requires Above(t, path) + At(t, path).prefix == key && Keys(t)[key] == At(t, path).refs
    ensures FormedRoot(Replace(t, path, u)) && Keys(Replace(t, path, u)) == Keys(t)[key := 0]
  {
    var c := At(t, path);
    WellIsFormed(t.kids);
    AtFormed(t, path);
    FormedReplace(t, path, u);
    RootReplace(t, path, u);
    AllGone(Keys(t), Keys(Replace(t, path, u)), KidsKeys(key, c.kids), key, c.refs);
  }

  lemma AllGone(before: multiset<Key>, after: multiset<Key>, kids: multiset<Key>, key: Key, n: nat)
    requires after + (Copies(key, n) + kids) == before + (Copies(key, 0) + kids) && before[key] == n
    ensures after == before[key := 0]
  {
    forall k: Key ensures after[k] == before[key := 0][k] {
      assert (after + (Copies(key, n) + kids))[k] == (before + (Copies(key, 0) + kids))[k];
    }
  }

  lemma RefsExchange(before: Memory, after: Memory, v: NodeView, a: Addr, n: nat)
    requires Stores(before, a, v) && n < U32_LIMIT && after == before[a := Encode(v.(refs := n))]
    ensures Exchanged(before, after, {a}, {a}) && Stores(after, a, v.(refs := n))
  {}

  lemma MergeExchanges(before: Memory, after: Memory, v: NodeView, w: NodeView, a: Addr, d: Addr,
                       leaves: set<Addr>, a': Addr)
    requires Fits(v) && Fits(w) && |v.prefix| + |w.prefix| < U32_LIMIT
    requires a in before && d in before && a != d && leaves <= before.Keys && a !in leaves && d !in leaves
    requires a' == a || a' !in before
    requires after == (before - {a})[a' := Encode(Merged(v, w))] - leaves - {d}
    ensures Exchanged(before, after, {a} + ({d} + leaves), {} + {a'}) && Stores(after, a', Merged(v, w))
  {}

  lemma PruneExchanges(before: Memory, after: Memory, v: NodeView, a: Addr, e: nat, leaf: Addr, a': Addr)
    requires Fits(v) && e < |v.ptrs| && a in before && leaf in before && a != leaf && (a' == a || a' !in before)
    requires after == (before - {a})[a' := Encode(WithoutEdge(v, e))] - {leaf}
    ensures Exchanged(before, after, {a} + {leaf}, {} + {a'}) && Stores(after, a', WithoutEdge(v, e))
  {}

  lemma KidAddr(kids: seq<Tree>, e: nat)
    requires e < |kids|
    ensures kids[e].addr in KidsOwned(kids)
  {
    assert kids[e].addr in Owned(kids[e]);
  }

  lemma LeafAndOther(kids: seq<Tree>, e: nat)
    requires |kids| == 2 && e < 2 && kids[e].kids == [] && KidsDistinct(kids)
    ensures kids[1 - e] in kids && KidsOwned(kids) == Owned(kids[1 - e]) + {kids[e].addr}
    ensures {kids[e].addr} !! Owned(kids[1 - e]) && kids[1 - e].addr in Owned(kids[1 - e])
  {
    assert kids == [kids[0], kids[1]];
    assert Owned(kids[0]) !! Owned(kids[1]);
    KidsPair(kids[0], kids[1]);
    NodeParts(kids[e]);
    assert KidsOwned(kids[e].kids) == {};
  }

  // ----- erase

  /** t' is the well-formed tree t after the node at path lost its key. */
  ghost predicate Unkeyed(t: Tree, path: seq<nat>, t': Tree) {
    && WellFormedRoot(t) && ShortKeys(t) && path != [] && ValidPath(t, path)
    && t' == Replace(t, path, At(t, path).(refs := 0))
  }

  lemma UnkeyedNode(t: Tree, path: seq<nat>, t': Tree)
    requires Unkeyed(t, path, t')
    ensures ValidPath(t', path) && At(t', path) == At(t, path).(refs := 0)
    ensures ValidPath(t, Parent(path)) && ValidPath(t', Parent(path))
    ensures At(t', Parent(path)).addr == At(t, Parent(path)).addr
    ensures WellFormed(At(t, path))
  {
    var c := At(t, path).(refs := 0);
    ReplaceAgain(t, path, c, c);
    PathParent(t, path);
    PathParent(t', path);
    ReplaceAddr(t, path, c, Parent(path));
    AtWellFormed(t, path);
  }

  lemma UnkeyedParent(t: Tree, path: seq<nat>, t': Tree)
    requires Unkeyed(t, path, t')
    ensures ValidPath(t, Parent(path)) && ValidPath(t', Parent(path)) && Last(path) < |At(t, Parent(path)).kids|
    ensures var q, e := At(t, Parent(path)), Last(path);
            At(t', Parent(path)) == q.(kids := q.kids[e := At(t, path).(refs := 0)]) && At(t, path) == q.kids[e]
    ensures |path| > 1 ==> ValidPath(t', Parent(Parent(path))) && ValidPath(t, Parent(Parent(path)))
                           && At(t', Parent(Parent(path))).addr == At(t, Parent(Parent(path))).addr
  {
    var c := At(t, path).(refs := 0);
    PathParent(t, path);
    ReplaceParent(t, path, c, c);
    if |path| > 1 {
      ReplaceAddr(t, path, c, Parent(Parent(path)));
    }
  }

  /** q has a leaf at edge e and one other child, whose prefix can be appended to its own. */
  ghost predicate LeafAndSibling(q: Tree, e: nat, leaf: Addr) {
    q.prefix != [] && |q.kids| == 2 && e < 2 && q.kids[e].kids == [] && q.kids[e].addr == leaf
    && |q.prefix| + |q.kids[1 - e].prefix| < U32_LIMIT
  }

  /** The leaf that lost its key and its only sibling, ready to be collapsed. */
  lemma UnkeyedPair(t: Tree, path: seq<nat>, t': Tree)
    requires Unkeyed(t, path, t') && |path| > 1 && At(t, path).kids == []
    requires ValidPath(t, Parent(path)) && |At(t, Parent(path)).kids| == 2
    ensures ValidPath(t', Parent(path)) && At(t', Parent(path)).addr == At(t, Parent(path)).addr
    ensures LeafAndSibling(At(t', Parent(path)), Last(path), At(t, path).addr)
    ensures ValidPath(t', Parent(Parent(path))) && ValidPath(t, Parent(Parent(path)))
            && At(t', Parent(Parent(path))).addr == At(t, Parent(Parent(path))).addr
  {
    UnkeyedParent(t, path, t');
    AtWellFormed(t, Parent(path));
    MergeFits(t, Parent(path), 1 - Last(path));
  }

  /** The collapsed pair takes the same place in the tree before the key was lost. */
  lemma UnkeyedFused(t: Tree, path: seq<nat>, t': Tree, u: Tree)
    requires Unkeyed(t, path, t') && |path| > 1 && ValidPath(t', Parent(path))
    requires Collapsed(At(t', Parent(path)), Last(path), u)
    ensures ValidPath(t, Parent(path)) && Replace(t', Parent(path), u) == Replace(t, Parent(path), u)
    ensures Collapsed(At(t, Parent(path)), Last(path), u)
  {
    PathParent(t, path);
    UnkeyedParent(t, path, t');
    ReplaceParent(t, path, At(t, path).(refs := 0), u);
  }

  /** What was in the dropped slot does not matter. */
  lemma PrunedIgnores(q: Tree, u: Tree, e: nat, c: Tree)
    requires e < |q.kids| && Pruned(q.(kids := q.kids[e := c]), u, e)
    ensures Pruned(q, u, e)
  {
    assert Dropped(q.kids[e := c], e) == Dropped(q.kids, e);
  }

  /** A node's prefix and a child's prefix together are no longer than a stored key. */
  lemma MergeFits(t: Tree, path: seq<nat>, k: nat)
    requires WellFormedRoot(t) && ShortKeys(t)
    requires ValidPath(t, path) && k < |At(t, path).kids|
    ensures |At(t, path).prefix| + |At(t, path).kids[k].prefix| < U32_LIMIT
  {
    PathStep(t, path, k);
    AtWellFormed(t, path + [k]);
    var x := SomeKey(Above(t, path + [k]), At(t, path + [k]));
    assert [] + Above(t, path + [k]) == Above(t, path + [k]);
    KeysBelow([], t, path + [k], x);
  }

  /** The parent of a node is the root exactly if the node is one edge below the root. */
  lemma RootIsParent(t: Tree, t': Tree, path: seq<nat>, parent: Addr)
    requires path != [] && ValidPath(t', Parent(path)) && Distinct(t') && parent == At(t', Parent(path)).addr
    ensures parent == t'.addr <==> |path| == 1
  {
    AtOwned(t', Parent(path));
  }

  lemma DecreasedKeeps(t: Tree, path: seq<nat>, key: Key)
    requires WellFormedRoot(t) && path != [] && ValidPath(t, path) && At(t, path).refs > 1
    requires Matched(t, path, key, |key|, |At(t, path).prefix|)
    ensures var u := Lessened(At(t, path));
            WellFormedRoot(Replace(t, path, u)) && Keys(t) == Keys(Replace(t, path, u)) + multiset{key}
  {
    var c, acc := At(t, path), Above(t, path);
    var u := c.(refs := c.refs - 1);
    MatchedSpells(t, path, key);
    KeysShrink(t, path, u, key);
    AtWellFormed(t, path);
    WellFormedReplace(t, path, u);
  }

  lemma MatchedSpells(t: Tree, path: seq<nat>, key: Key)
    requires ValidPath(t, path) && Matched(t, path, key, |key|, |At(t, path).prefix|)
    ensures Above(t, path) + At(t, path).prefix == key
  {
    var c := At(t, path);
    assert c.prefix[..|c.prefix|] == c.prefix && key[..|key|] == key;
  }

  lemma UnkeyedKeeps(t: Tree, path: seq<nat>, key: Key)
    requires WellFormedRoot(t) && path != [] && ValidPath(t, path) && At(t, path).refs == 1 && |At(t, path).kids| > 1
    requires Matched(t, path, key, |key|, |At(t, path).prefix|)
    ensures var u := At(t, path).(refs := 0);
            WellFormedRoot(Replace(t, path, u)) && Keys(t) == Keys(Replace(t, path, u)) + multiset{key}
  {
    var u := At(t, path).(refs := 0);
    MatchedSpells(t, path, key);
    KeysShrink(t, path, u, key);
    AtWellFormed(t, path);
    WellFormedReplace(t, path, u);
  }

  lemma FusedKeeps(t: Tree, path: seq<nat>, u: Tree, key: Key)
    requires WellFormedRoot(t) && path != [] && ValidPath(t, path) && At(t, path).refs == 1 && |At(t, path).kids| == 1
    requires Matched(t, path, key, |key|, |At(t, path).prefix|) && Fused(At(t, path), At(t, path).kids[0], u)
    ensures WellFormedRoot(Replace(t, path, u)) && Keys(t) == Keys(Replace(t, path, u)) + multiset{key}
  {
    var c, acc := At(t, path), Above(t, path);
    var d := c.kids[0];
    MatchedSpells(t, path, key);
    assert c.kids == [d];
    KidsOne(acc + c.prefix, d);
    KeysMerge(acc, c.(refs := 0), d, u.addr);
    KeysShrink(t, path, u, key);
    AtWellFormed(t, path);
    WellFormedMerge(c, d, u.addr);
    WellFormedReplace(t, path, u);
  }

  lemma LeafHoldsKey(t: Tree, path: seq<nat>, key: Key)
    requires path != [] && ValidPath(t, path) && ValidPath(t, Parent(path))
    requires At(t, path).refs == 1 && At(t, path).kids == []
    requires Matched(t, path, key, |key|, |At(t, path).prefix|)
    ensures KeysFrom(Above(t, Parent(path)) + At(t, Parent(path)).prefix, At(t, path)) == multiset{key}
  {
    PathParent(t, path);
    MatchedSpells(t, path, key);
  }

  lemma CollapsedKeeps(t: Tree, path: seq<nat>, u: Tree, key: Key)
    requires WellFormedRoot(t) && |path| > 1 && ValidPath(t, path) && ValidPath(t, Parent(path))
    requires At(t, path).refs == 1 && At(t, path).kids == []
    requires Matched(t, path, key, |key|, |At(t, path).prefix|)
    requires At(t, Parent(path)).refs == 0 && Collapsed(At(t, Parent(path)), Last(path), u)
    ensures WellFormedRoot(Replace(t, Parent(path), u)) && Keys(t) == Keys(Replace(t, Parent(path), u)) + multiset{key}
  {
    var up, e := Parent(path), Last(path);
    PathParent(t, path);
    LeafHoldsKey(t, path, key);
    CollapseKeys(Above(t, up), At(t, up), e, u, key);
    KeysShrink(t, up, u, key);
    CollapseShape(t, up, e, u);
  }

  lemma CollapseKeys(acc: Key, q: Tree, e: nat, u: Tree, key: Key)
    requires q.refs == 0 && Collapsed(q, e, u)
    requires KeysFrom(acc + q.prefix, q.kids[e]) == multiset{key}
    ensures KeysFrom(acc, q) == KeysFrom(acc, u) + multiset{key}
  {
    KeysPair(acc, q);
    KeysMerge(acc, q, q.kids[1 - e], u.addr);
  }

  lemma CollapseShape(t: Tree, up: seq<nat>, e: nat, u: Tree)
    requires WellFormedRoot(t) && up != [] && ValidPath(t, up) && Collapsed(At(t, up), e, u)
    ensures WellFormedRoot(Replace(t, up, u))
  {
    var q := At(t, up);
    AtWellFormed(t, up);
    WellFormedMerge(q, q.kids[1 - e], u.addr);
    WellFormedReplace(t, up, u);
  }

  lemma KeysPair(acc: Key, q: Tree)
    requires q.refs == 0 && |q.kids| == 2
    ensures KeysFrom(acc, q) == KeysFrom(acc + q.prefix, q.kids[0]) + KeysFrom(acc + q.prefix, q.kids[1])
  {
    assert q.kids == [q.kids[0]] + [q.kids[1]];
    KidsConcat(acc + q.prefix, [q.kids[0]], [q.kids[1]]);
    KidsOne(acc + q.prefix, q.kids[0]);
    KidsOne(acc + q.prefix, q.kids[1]);
    assert Copies(acc + q.prefix, 0) == multiset{};
  }

  lemma PrunedKeeps(t: Tree, path: seq<nat>, u: Tree, key: Key)
    requires WellFormedRoot(t) && path != [] && ValidPath(t, path) && ValidPath(t, Parent(path))
    requires At(t, path).refs == 1 && At(t, path).kids == []
    requires Matched(t, path, key, |key|, |At(t, path).prefix|)
    requires var q := At(t, Parent(path));
             Pruned(q, u, Last(path)) && (|path| == 1 || q.refs > 0 || |q.kids| != 2)
    ensures WellFormedRoot(Replace(t, Parent(path), u)) && Keys(t) == Keys(Replace(t, Parent(path), u)) + multiset{key}
  {
    var up, e := Parent(path), Last(path);
    var q, acc := At(t, up), Above(t, up);
    PathParent(t, path);
    LeafHoldsKey(t, path, key);
    KeysDrop(acc + q.prefix, q.kids, e);
    SumAssociates(Copies(acc + q.prefix, q.refs), KidsKeys(acc + q.prefix, u.kids), multiset{key});
    KeysShrink(t, up, u, key);
    AtWellFormed(t, up);
    WellFormedDrop(q.kids, e);
    if up != [] {
      WellFormedReplace(t, up, u);
    }
  }

  lemma GrownStands(t: Tree, u: Tree, key: Key, size: nat)
    requires Stands(t, size) && Grown(t, u, key) && |key| < U32_LIMIT
    ensures Stands(u, size + 1) <==> Keys(t)[key] + 1 < U32_LIMIT
  {
  }

  lemma OneLess(before: multiset<Key>, after: multiset<Key>, key: Key)
    requires before == after + multiset{key}
    ensures after == before - multiset{key} && |before| == |after| + 1 && forall k :: k in after ==> k in before
  {}

  lemma EmptyPrefix(b: seq<Byte>, v: NodeView)
    requires v.prefix == [] && WellSized(b) && PrefixLength(b) == 0
    ensures WithPrefix(b, v.prefix) == b
  {
    assert b[..HEADER] + [] + b[HEADER..] == b;
  }
}
