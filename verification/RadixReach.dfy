/** What a packed memory looks like to someone who only follows the stored pointers. */
module RadixReach {
  import opened Bytes
  import opened NodeLayout
  import opened Heap
  import opened RadixShape

  datatype Reached = Dangling | Block(addr: Addr)

  /** Following the stored pointers from a block along a list of edge indices. */
  ghost function Follow(mem: Memory, a: Addr, path: seq<nat>): Reached
    decreases |path|
  {
    if path == [] then Block(a)
    else if a in mem && WellSized(mem[a]) && path[0] < EdgeCount(mem[a])
            && 0 < NodeAt(mem[a], path[0]) < 0x1_0000_0000_0000_0000 then
      Follow(mem, NodeAt(mem[a], path[0]), path[1..])
    else Dangling
  }

  lemma {:induction false} FollowsShape(mem: Memory, t: Tree, path: seq<nat>)
    requires Holds(mem, t)
    ensures Follow(mem, t.addr, path) == if ValidPath(t, path) then Block(At(t, path).addr) else Dangling
    decreases |path|
  {
    if path != [] {
      EncodeReads(View(t));
      if path[0] < |t.kids| {
        NodeAtReads(View(t), path[0]);
        FollowsShape(mem, t.kids[path[0]], path[1..]);
      }
    }
  }

  lemma {:induction false} PathTo(t: Tree, a: Addr) returns (path: seq<nat>)
    requires a in Owned(t)
    ensures ValidPath(t, path) && At(t, path).addr == a
    decreases t
  {
    if a == t.addr {
      path := [];
    } else {
      var k: nat :| k < |t.kids| && a in Owned(t.kids[k]);
      var rest := PathTo(t.kids[k], a);
      path := [k] + rest;
      assert path[1..] == rest;
    }
  }

  lemma AtAddrOwned(t: Tree, path: seq<nat>)
    requires ValidPath(t, path)
    ensures At(t, path).addr in Owned(t)
  {
    AtOwned(t, path);
  }

  lemma {:induction false} PathUnique(t: Tree, p: seq<nat>, q: seq<nat>)
    requires Distinct(t) && ValidPath(t, p) && ValidPath(t, q) && At(t, p).addr == At(t, q).addr
    ensures p == q
    decreases |p|
  {
    AtOwned(t, p);
    AtOwned(t, q);
    if p != [] && q != [] {
      var i, j := p[0], q[0];
      AtAddrOwned(t.kids[i], p[1..]);
      AtAddrOwned(t.kids[j], q[1..]);
      PathUnique(t.kids[i], p[1..], q[1..]);
      assert p == [p[0]] + p[1..] && q == [q[0]] + q[1..];
    }
  }

  /** No path of stored pointers leaves the live blocks. */
  ghost predicate NothingDangles(mem: Memory, root: Addr) {
    forall path: seq<nat> :: Follow(mem, root, path).Block? ==> Follow(mem, root, path).addr in mem
  }

  /** Every live block but the foreign ones is at the end of some path. */
  ghost predicate NothingLeaks(mem: Memory, root: Addr, foreign: set<Addr>) {
    forall a :: a in mem && a !in foreign ==> exists path: seq<nat> :: Follow(mem, root, path) == Block(a)
  }

  /** No block is at the end of two paths. */
  ghost predicate NothingShared(mem: Memory, root: Addr) {
    forall p: seq<nat>, q: seq<nat> ::
      Follow(mem, root, p).Block? && Follow(mem, root, p) == Follow(mem, root, q) ==> p == q
  }

  lemma NeverDangles(mem: Memory, t: Tree)
    requires Holds(mem, t)
    ensures NothingDangles(mem, t.addr)
  {
    forall path: seq<nat> | Follow(mem, t.addr, path).Block?
      ensures Follow(mem, t.addr, path).addr in mem
    {
      FollowsShape(mem, t, path);
      AtAddrOwned(t, path);
      HoldsOwned(mem, t);
    }
  }

  lemma NeverLeaks(mem: Memory, t: Tree, foreign: set<Addr>)
    requires Holds(mem, t) && mem.Keys == foreign + Owned(t)
    ensures NothingLeaks(mem, t.addr, foreign)
  {
    forall a | a in mem && a !in foreign ensures exists path: seq<nat> :: Follow(mem, t.addr, path) == Block(a) {
      var path := PathTo(t, a);
      FollowsShape(mem, t, path);
    }
  }

  lemma NeverShared(mem: Memory, t: Tree)
    requires Holds(mem, t) && Distinct(t)
    ensures NothingShared(mem, t.addr)
  {
    forall p: seq<nat>, q: seq<nat> | Follow(mem, t.addr, p).Block? && Follow(mem, t.addr, p) == Follow(mem, t.addr, q)
      ensures p == q
    {
      FollowsShape(mem, t, p);
      FollowsShape(mem, t, q);
      PathUnique(t, p, q);
    }
  }
}
