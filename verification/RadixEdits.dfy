/** The local edits of insert and erase: each exchanges one subtree for another in memory. */
module RadixEdits {
  import opened Bytes
  import opened NodeLayout
  import opened Heap
  import opened RadixShape

  ghost function KidsOwned(kids: seq<Tree>): set<Addr> {
    set k: nat, a: Addr | k < |kids| && a in Owned(kids[k]) :: a
  }

  ghost predicate KidsDistinct(kids: seq<Tree>) {
    && (forall k :: 0 <= k < |kids| ==> Distinct(kids[k]))
    && (forall i, j :: 0 <= i < j < |kids| ==> Owned(kids[i]) !! Owned(kids[j]))
  }

  ghost predicate KidsHold(mem: Memory, kids: seq<Tree>) {
    forall k :: 0 <= k < |kids| ==> Holds(mem, kids[k])
  }

  /** The blocks at `at` are the same in both memories. */
  ghost predicate Kept(mem: Memory, mem': Memory, at: set<Addr>) {
    forall a :: a in at ==> a in mem && a in mem' && mem'[a] == mem[a]
  }

  /** The live blocks are exactly those of the subtree t and the addresses in rest. */
  ghost predicate Resides(mem: Memory, rest: set<Addr>, t: Tree) {
    Holds(mem, t) && Distinct(t) && Owned(t) !! rest && mem.Keys == rest + Owned(t)
  }

  lemma NodeParts(t: Tree)
    ensures Owned(t) == {t.addr} + KidsOwned(t.kids)
    ensures Distinct(t) <==> t.addr !in KidsOwned(t.kids) && KidsDistinct(t.kids)
  {
    assert (forall k :: 0 <= k < |t.kids| ==> t.addr !in Owned(t.kids[k])) <==> t.addr !in KidsOwned(t.kids);
  }

  lemma KidsKept(mem: Memory, mem': Memory, kids: seq<Tree>)
    requires KidsHold(mem, kids) && Kept(mem, mem', KidsOwned(kids))
    ensures KidsHold(mem', kids)
  {
    forall k | 0 <= k < |kids| ensures Holds(mem', kids[k]) {
      assert Owned(kids[k]) <= KidsOwned(kids);
      HoldsFrame(mem, mem', kids[k]);
    }
  }

  lemma KidsAppend(kids: seq<Tree>, u: Tree)
    requires KidsDistinct(kids) && Distinct(u) && KidsOwned(kids) !! Owned(u)
    ensures KidsOwned(kids + [u]) == KidsOwned(kids) + Owned(u)
    ensures KidsDistinct(kids + [u])
  {
    var x := kids + [u];
    forall a | a in KidsOwned(x) ensures a in KidsOwned(kids) + Owned(u) {
      var k: nat :| k < |x| && a in Owned(x[k]);
      if k < |kids| { assert x[k] == kids[k]; }
    }
    forall a | a in KidsOwned(kids) + Owned(u) ensures a in KidsOwned(x) {
      if a in Owned(u) {
        assert x[|kids|] == u;
      } else {
        var k: nat :| k < |kids| && a in Owned(kids[k]);
        assert x[k] == kids[k];
      }
    }
    forall i, j | 0 <= i < j < |x| ensures Owned(x[i]) !! Owned(x[j]) {
      if j == |kids| {
        assert Owned(kids[i]) <= KidsOwned(kids);
      } else {
        assert x[i] == kids[i] && x[j] == kids[j];
      }
    }
  }

  lemma KidsSingle(u: Tree)
    requires Distinct(u)
    ensures KidsOwned([u]) == Owned(u) && KidsDistinct([u])
  {
    assert [u][0] == u;
  }

  lemma KidsPair(x: Tree, y: Tree)
    requires Distinct(x) && Distinct(y) && Owned(x) !! Owned(y)
    ensures KidsOwned([x, y]) == Owned(x) + Owned(y) && KidsDistinct([x, y])
  {
    KidsSingle(x);
    KidsAppend([x], y);
    assert [x] + [y] == [x, y];
  }

  /** A node is in place once its block and its children are. */
  lemma Settle(mem: Memory, rest: set<Addr>, u: Tree)
    requires Stores(mem, u.addr, View(u)) && KidsHold(mem, u.kids) && KidsDistinct(u.kids)
    requires u.addr !in KidsOwned(u.kids) && u.addr !in rest && KidsOwned(u.kids) !! rest
    requires mem.Keys == rest + ({u.addr} + KidsOwned(u.kids))
    ensures Resides(mem, rest, u)
  {
    NodeParts(u);
  }

  /** The parts of a node in place. */
  lemma Unsettle(mem: Memory, rest: set<Addr>, c: Tree)
    requires Resides(mem, rest, c)
    ensures Stores(mem, c.addr, View(c)) && KidsHold(mem, c.kids) && KidsDistinct(c.kids)
    ensures c.addr !in KidsOwned(c.kids) && c.addr !in rest && KidsOwned(c.kids) !! rest
    ensures mem.Keys == rest + ({c.addr} + KidsOwned(c.kids))
  {
    NodeParts(c);
  }

  /** The blocks in `gone` were given up and those in `came` are new; all others are as before. */
  ghost predicate Exchanged(mem: Memory, mem': Memory, gone: set<Addr>, came: set<Addr>) {
    mem'.Keys == (mem.Keys - gone) + came && came !! (mem.Keys - gone) && Kept(mem, mem', mem.Keys - gone)
  }

  /** A rebuilt node u in the place of a node at address c whose children owned `kids`: of these
      the blocks in `gone` were given up, and those in `came` were added below u. */
  lemma SettleExchanged(mem: Memory, mem': Memory, rest: set<Addr>, c: Addr, kids: set<Addr>,
                        gone: set<Addr>, came: set<Addr>, u: Tree)
    requires mem.Keys == rest + ({c} + kids) && c !in kids && c !in rest && kids !! rest && gone <= kids
    requires Exchanged(mem, mem', {c} + gone, came + {u.addr}) && u.addr !in came
    requires KidsOwned(u.kids) == (kids - gone) + came
    requires Stores(mem', u.addr, View(u)) && KidsHold(mem', u.kids) && KidsDistinct(u.kids)
    ensures Resides(mem', rest, u)
  {
    var all, out, new' := mem.Keys, {c} + gone, came + {u.addr};
    assert all - out == rest + (kids - gone);
    assert mem'.Keys == (all - out) + new' == rest + ({u.addr} + KidsOwned(u.kids));
    Settle(mem', rest, u);
  }

  // ----- insert

  /** A new leaf hung below c. */
  lemma StageAppend(mem: Memory, mem': Memory, rest: set<Addr>, c: Tree, leaf: Addr, bytes: seq<Byte>, a: Addr)
    returns (u: Tree)
    requires Resides(mem, rest, c) && bytes != [] && leaf != a && leaf !in mem
    requires Exchanged(mem, mem', {c.addr} + {}, {leaf} + {a})
    requires Stores(mem', leaf, NodeView(1, bytes, [], []))
    requires var v := View(c); Stores(mem', a, v.(firsts := v.firsts + [bytes[0]], ptrs := v.ptrs + [leaf]))
    ensures u == Node(a, c.refs, c.prefix, c.kids + [Node(leaf, 1, bytes, [])])
    ensures Resides(mem', rest, u)
  {
    var l := Node(leaf, 1, bytes, []);
    u := Node(a, c.refs, c.prefix, c.kids + [l]);
    Unsettle(mem, rest, c);
    ViewAppend(c, l, a);
    HangLeaf(mem, mem', c.kids, l);
    SettleExchanged(mem, mem', rest, c.addr, KidsOwned(c.kids), {}, {leaf}, u);
  }

  lemma HangLeaf(mem: Memory, mem': Memory, kids: seq<Tree>, l: Tree)
    requires KidsHold(mem, kids) && KidsDistinct(kids) && Kept(mem, mem', KidsOwned(kids))
    requires l.kids == [] && Stores(mem', l.addr, NodeView(l.refs, l.prefix, [], [])) && l.addr !in KidsOwned(kids)
    ensures KidsHold(mem', kids + [l]) && KidsDistinct(kids + [l])
    ensures KidsOwned(kids + [l]) == KidsOwned(kids) + {l.addr}
  {
    LeafHolds(mem', l);
    KidsAppend(kids, l);
    KidsKept(mem, mem', kids);
  }

  lemma ViewAppend(c: Tree, l: Tree, a: Addr)
    ensures View(Node(a, c.refs, c.prefix, c.kids + [l]))
         == View(c).(firsts := Firsts(c.kids) + [First(l)], ptrs := Pointers(c.kids) + [l.addr])
  {
    assert Firsts(c.kids + [l]) == Firsts(c.kids) + [First(l)];
    assert Pointers(c.kids + [l]) == Pointers(c.kids) + [l.addr];
  }

  lemma ViewPair(a: Addr, refs: nat, p: seq<Byte>, x: Tree, y: Tree)
    ensures View(Node(a, refs, p, [x, y])) == NodeView(refs, p, [First(x), First(y)], [x.addr, y.addr])
  {
    assert Firsts([x, y]) == [First(x), First(y)];
    assert Pointers([x, y]) == [x.addr, y.addr];
  }

  lemma ViewSingle(a: Addr, refs: nat, p: seq<Byte>, x: Tree)
    ensures View(Node(a, refs, p, [x])) == NodeView(refs, p, [First(x)], [x.addr])
  {
    assert Firsts([x]) == [First(x)];
    assert Pointers([x]) == [x.addr];
  }

  lemma LeafHolds(mem: Memory, l: Tree)
    requires l.kids == [] && Stores(mem, l.addr, NodeView(l.refs, l.prefix, [], []))
    ensures Holds(mem, l) && Distinct(l) && Owned(l) == {l.addr}
  {
    assert View(l) == NodeView(l.refs, l.prefix, [], []);
  }

  /** The back half of a split node: the old key and edges behind a shorter prefix. */
  lemma TailHolds(mem: Memory, mem': Memory, c: Tree, t: Addr, p: seq<Byte>)
    requires KidsHold(mem, c.kids) && KidsDistinct(c.kids) && Kept(mem, mem', KidsOwned(c.kids))
    requires t !in KidsOwned(c.kids) && Stores(mem', t, View(c).(prefix := p))
    ensures var u := Node(t, c.refs, p, c.kids);
            Holds(mem', u) && Distinct(u) && Owned(u) == {t} + KidsOwned(c.kids)
  {
    var u := Node(t, c.refs, p, c.kids);
    KidsKept(mem, mem', c.kids);
    NodeParts(u);
    assert View(u) == View(c).(prefix := p);
  }

  /** The node c split after j bytes, with a new leaf beside its back half. */
  lemma StageFork(mem: Memory, mem': Memory, rest: set<Addr>, c: Tree, j: nat,
                  leaf: Addr, bytes: seq<Byte>, t: Addr, a: Addr)
    returns (u: Tree)
    requires Resides(mem, rest, c) && bytes != [] && j < |c.prefix|
    requires Exchanged(mem, mem', {c.addr} + {}, {leaf, t} + {a})
    requires leaf !in mem && t !in mem && leaf != t && a != leaf && a != t
    requires Stores(mem', leaf, NodeView(1, bytes, [], []))
    requires Stores(mem', t, View(c).(prefix := c.prefix[j..]))
    requires Stores(mem', a, NodeView(0, c.prefix[..j], [bytes[0], c.prefix[j]], [leaf, t]))
    ensures u == Node(a, 0, c.prefix[..j], [Node(leaf, 1, bytes, []), Node(t, c.refs, c.prefix[j..], c.kids)])
    ensures Resides(mem', rest, u)
  {
    var l, tail := Node(leaf, 1, bytes, []), Node(t, c.refs, c.prefix[j..], c.kids);
    u := Node(a, 0, c.prefix[..j], [l, tail]);
    Unsettle(mem, rest, c);
    ForkKids(mem, mem', c, l, t, c.prefix[j..]);
    ViewPair(a, 0, c.prefix[..j], l, tail);
    SettleExchanged(mem, mem', rest, c.addr, KidsOwned(c.kids), {}, {leaf, t}, u);
  }

  lemma ForkKids(mem: Memory, mem': Memory, c: Tree, l: Tree, t: Addr, p: seq<Byte>)
    requires KidsHold(mem, c.kids) && KidsDistinct(c.kids) && Kept(mem, mem', KidsOwned(c.kids))
    requires t !in KidsOwned(c.kids) && l.addr !in KidsOwned(c.kids) && t != l.addr
    requires Stores(mem', t, View(c).(prefix := p))
    requires l.kids == [] && Stores(mem', l.addr, NodeView(l.refs, l.prefix, [], []))
    ensures var kids := [l, Node(t, c.refs, p, c.kids)];
            KidsHold(mem', kids) && KidsDistinct(kids) && KidsOwned(kids) == (KidsOwned(c.kids) - {}) + {l.addr, t}
  {
    LeafHolds(mem', l);
    TailHolds(mem, mem', c, t, p);
    KidsPair(l, Node(t, c.refs, p, c.kids));
  }

  /** The node c split after j bytes, where a key ends. */
  lemma StageFront(mem: Memory, mem': Memory, rest: set<Addr>, c: Tree, j: nat, t: Addr, a: Addr)
    returns (u: Tree)
    requires Resides(mem, rest, c) && j < |c.prefix|
    requires Exchanged(mem, mem', {c.addr} + {}, {t} + {a}) && t !in mem && a != t
    requires Stores(mem', t, View(c).(prefix := c.prefix[j..]))
    requires Stores(mem', a, NodeView(1, c.prefix[..j], [c.prefix[j]], [t]))
    ensures u == Node(a, 1, c.prefix[..j], [Node(t, c.refs, c.prefix[j..], c.kids)])
    ensures Resides(mem', rest, u)
  {
    var tail := Node(t, c.refs, c.prefix[j..], c.kids);
    u := Node(a, 1, c.prefix[..j], [tail]);
    Unsettle(mem, rest, c);
    TailHolds(mem, mem', c, t, c.prefix[j..]);
    KidsSingle(tail);
    ViewSingle(a, 1, c.prefix[..j], tail);
    SettleExchanged(mem, mem', rest, c.addr, KidsOwned(c.kids), {}, {t}, u);
  }

  // ----- erase

  /** Only the reference count of c changed, in place. */
  lemma StageRefs(mem: Memory, mem': Memory, rest: set<Addr>, c: Tree, n: nat)
    requires Resides(mem, rest, c)
    requires Exchanged(mem, mem', {c.addr}, {c.addr}) && Stores(mem', c.addr, View(c).(refs := n))
    ensures Resides(mem', rest, c.(refs := n))
  {
    var u := c.(refs := n);
    Unsettle(mem, rest, c);
    KidsKept(mem, mem', c.kids);
    assert View(u) == View(c).(refs := n);
    Settle(mem', rest, u);
  }

  /** A node q that absorbed its child d, and lost the leaf e if it had one. */
  lemma StageMerge(mem: Memory, mem': Memory, rest: set<Addr>, q: Tree, d: Tree, leaves: set<Addr>, a: Addr)
    returns (u: Tree)
    requires Resides(mem, rest, q) && d in q.kids
    requires KidsOwned(q.kids) == Owned(d) + leaves && leaves !! Owned(d)
    requires Exchanged(mem, mem', {q.addr} + ({d.addr} + leaves), {} + {a})
    requires Stores(mem', a, Merged(View(q), View(d)))
    ensures u == Node(a, d.refs, q.prefix + d.prefix, d.kids)
    ensures Resides(mem', rest, u)
  {
    u := Node(a, d.refs, q.prefix + d.prefix, d.kids);
    Unsettle(mem, rest, q);
    NodeParts(d);
    KidsKept(mem, mem', d.kids);
    assert View(u) == Merged(View(q), View(d));
    SettleExchanged(mem, mem', rest, q.addr, KidsOwned(q.kids), {d.addr} + leaves, {}, u);
  }

  /** The children with child e taken over by the last one. */
  ghost function Dropped(kids: seq<Tree>, e: nat): seq<Tree>
    requires e < |kids|
  {
    kids[e := kids[|kids| - 1]][..|kids| - 1]
  }

  lemma DroppedFrom(kids: seq<Tree>, e: nat, k: nat) returns (i: nat)
    requires e < |kids| && k < |kids| - 1
    ensures i < |kids| && i != e && Dropped(kids, e)[k] == kids[i]
    ensures i == if k == e then |kids| - 1 else k
  {
    i := if k == e then |kids| - 1 else k;
  }

  lemma DroppedOwned(kids: seq<Tree>, e: nat)
    requires e < |kids| && KidsDistinct(kids)
    ensures KidsOwned(Dropped(kids, e)) == KidsOwned(kids) - Owned(kids[e])
  {
    var x := Dropped(kids, e);
    forall a | a in KidsOwned(x) ensures a in KidsOwned(kids) - Owned(kids[e]) {
      var k: nat :| k < |x| && a in Owned(x[k]);
      var i := DroppedFrom(kids, e, k);
      assert if i < e then Owned(kids[i]) !! Owned(kids[e]) else Owned(kids[e]) !! Owned(kids[i]);
    }
    forall a | a in KidsOwned(kids) - Owned(kids[e]) ensures a in KidsOwned(x) {
      var i: nat :| i < |kids| && a in Owned(kids[i]);
      assert x[if i == |kids| - 1 then e else i] == kids[i];
    }
  }

  lemma DroppedDistinct(kids: seq<Tree>, e: nat)
    requires e < |kids| && KidsDistinct(kids)
    ensures KidsDistinct(Dropped(kids, e))
  {
    var x := Dropped(kids, e);
    forall k, l | 0 <= k < l < |x| ensures Owned(x[k]) !! Owned(x[l]) {
      var i := DroppedFrom(kids, e, k);
      var j := DroppedFrom(kids, e, l);
      assert if i < j then Owned(kids[i]) !! Owned(kids[j]) else Owned(kids[j]) !! Owned(kids[i]);
    }
  }

  lemma ViewDropped(q: Tree, e: nat, a: Addr)
    requires e < |q.kids|
    ensures View(Node(a, q.refs, q.prefix, Dropped(q.kids, e))) == WithoutEdge(View(q), e)
  {
    assert Firsts(Dropped(q.kids, e)) == WithoutEdge(View(q), e).firsts;
    assert Pointers(Dropped(q.kids, e)) == WithoutEdge(View(q), e).ptrs;
  }

  /** The leaf at edge e of q removed. */
  lemma StageRemove(mem: Memory, mem': Memory, rest: set<Addr>, q: Tree, e: nat, a: Addr)
    returns (u: Tree)
    requires Resides(mem, rest, q) && e < |q.kids| && q.kids[e].kids == []
    requires Exchanged(mem, mem', {q.addr} + {q.kids[e].addr}, {} + {a})
    requires Stores(mem', a, WithoutEdge(View(q), e))
    ensures u == Node(a, q.refs, q.prefix, Dropped(q.kids, e))
    ensures Resides(mem', rest, u)
  {
    var x := Dropped(q.kids, e);
    u := Node(a, q.refs, q.prefix, x);
    Unsettle(mem, rest, q);
    DropKid(mem, mem', q.kids, e);
    ViewDropped(q, e, a);
    SettleExchanged(mem, mem', rest, q.addr, KidsOwned(q.kids), {q.kids[e].addr}, {}, u);
  }

  lemma DropKid(mem: Memory, mem': Memory, kids: seq<Tree>, e: nat)
    requires e < |kids| && kids[e].kids == [] && KidsHold(mem, kids) && KidsDistinct(kids)
    requires Kept(mem, mem', KidsOwned(kids) - {kids[e].addr})
    ensures var x := Dropped(kids, e);
            KidsHold(mem', x) && KidsDistinct(x) && {kids[e].addr} <= KidsOwned(kids)
            && KidsOwned(x) == (KidsOwned(kids) - {kids[e].addr}) + {}
  {
    DroppedOwned(kids, e);
    DroppedDistinct(kids, e);
    NodeParts(kids[e]);
    assert KidsOwned(kids[e].kids) == {};
    assert Owned(kids[e]) <= KidsOwned(kids);
    assert KidsHold(mem, Dropped(kids, e));
    KidsKept(mem, mem', Dropped(kids, e));
  }

  // ----- a subtree within the whole tree

  /** The live blocks are those of the tree and the foreign ones, which are as they were. */
  ghost predicate Inhabits(mem: Memory, foreign: Memory, t: Tree) {
    Resides(mem, foreign.Keys, t) && Kept(foreign, mem, foreign.Keys)
  }

  /** Inhabiting says what the foreign blocks are: whatever the tree does not own. */
  lemma InhabitsForeign(mem: Memory, foreign: Memory, t: Tree)
    ensures Inhabits(mem, foreign, t) <==> Holds(mem, t) && Distinct(t) && foreign == mem - Owned(t)
  {
    if Holds(mem, t) {
      HoldsOwned(mem, t);
    }
  }

  /** The addresses outside the subtree at path: those of the other nodes, and those in rest. */
  ghost function Aside(rest: set<Addr>, t: Tree, path: seq<nat>): set<Addr>
    requires ValidPath(t, path)
  {
    rest + (Owned(t) - Owned(At(t, path)))
  }

  lemma Isolate(mem: Memory, rest: set<Addr>, t: Tree, path: seq<nat>)
    requires ValidPath(t, path) && Resides(mem, rest, t)
    ensures Resides(mem, Aside(rest, t, path), At(t, path))
  {
    AtHolds(mem, t, path);
    AtDistinct(t, path);
    AtOwned(t, path);
  }

  /** Memory holds the whole tree again once the parent points to the new subtree. */
  lemma Reunite(before: Memory, mem: Memory, mem': Memory, rest: set<Addr>, t: Tree, path: seq<nat>, u: Tree)
    requires path != [] && ValidPath(t, path) && ValidPath(t, Parent(path)) && Last(path) < |At(t, Parent(path)).kids|
    requires Resides(before, rest, t) && Resides(mem, Aside(rest, t, path), u) && First(u) == First(At(t, path))
    requires Kept(before, mem, Aside(rest, t, path))
    requires var q := At(t, Parent(path));
             q.addr in Owned(t) - Owned(At(t, path)) && Exchanged(mem, mem', {q.addr}, {q.addr})
             && Stores(mem', q.addr, Repointed(q, Last(path), u.addr))
    ensures Resides(mem', rest, Replace(t, path, u)) && Kept(before, mem', rest)
  {
    ReuniteHolds(before, mem, mem', rest, t, path, u);
    ReuniteOwned(mem, mem', rest, t, path, u);
    ReuniteKept(before, mem, mem', rest, Aside(rest, t, path), At(t, Parent(path)).addr);
  }

  lemma ReuniteKept(before: Memory, mem: Memory, mem': Memory, rest: set<Addr>, aside: set<Addr>, q: Addr)
    requires rest <= aside && Kept(before, mem, aside) && q !in rest && Exchanged(mem, mem', {q}, {q})
    ensures Kept(before, mem', rest)
  {
  }

  lemma ReuniteOwned(mem: Memory, mem': Memory, rest: set<Addr>, t: Tree, path: seq<nat>, u: Tree)
    requires path != [] && ValidPath(t, path) && ValidPath(t, Parent(path)) && Distinct(t) && Distinct(u)
    requires Owned(t) !! rest && Owned(u) !! Aside(rest, t, path) && mem.Keys == Aside(rest, t, path) + Owned(u)
    requires var q := At(t, Parent(path)).addr; q in Aside(rest, t, path) && Exchanged(mem, mem', {q}, {q})
    ensures Distinct(Replace(t, path, u)) && mem'.Keys == rest + Owned(Replace(t, path, u))
    ensures Owned(Replace(t, path, u)) !! rest
  {
    assert mem'.Keys == mem.Keys;
    OwnedReplace(t, path, u);
  }

  lemma NewKept(mem: Memory, mem': Memory, u: Tree, q: Addr)
    requires Holds(mem, u) && q !in Owned(u) && Exchanged(mem, mem', {q}, {q})
    ensures Holds(mem', u)
  {
    HoldsOwned(mem, u);
    HoldsFrame(mem, mem', u);
  }

  lemma OldKept(before: Memory, mem: Memory, mem': Memory, rest: set<Addr>, whole: set<Addr>, part: set<Addr>, q: Addr)
    requires Kept(before, mem, rest + (whole - part)) && Exchanged(mem, mem', {q}, {q})
    ensures forall a :: a in whole && a !in part && a != q ==> a in mem' && a in before && mem'[a] == before[a]
  {
  }

  lemma ReuniteHolds(before: Memory, mem: Memory, mem': Memory, rest: set<Addr>, t: Tree, path: seq<nat>, u: Tree)
    requires path != [] && ValidPath(t, path) && ValidPath(t, Parent(path)) && Last(path) < |At(t, Parent(path)).kids|
    requires Holds(before, t) && Distinct(t) && Holds(mem, u) && First(u) == First(At(t, path))
    requires var aside := Aside(rest, t, path);
             mem.Keys == aside + Owned(u) && Owned(u) !! aside && Kept(before, mem, aside)
    requires var q := At(t, Parent(path));
             q.addr in Aside(rest, t, path) && Exchanged(mem, mem', {q.addr}, {q.addr})
             && Stores(mem', q.addr, Repointed(q, Last(path), u.addr))
    ensures Holds(mem', Replace(t, path, u))
  {
    var q := At(t, Parent(path)).addr;
    NewKept(mem, mem', u, q);
    OldKept(before, mem, mem', rest, Owned(t), Owned(At(t, path)), q);
    HoldsReplace(before, mem', t, path, u);
  }

  lemma ParentAside(t: Tree, path: seq<nat>)
    requires path != [] && ValidPath(t, path) && ValidPath(t, Parent(path)) && Distinct(t)
    requires Last(path) < |At(t, Parent(path)).kids| && At(t, path) == At(t, Parent(path)).kids[Last(path)]
    ensures At(t, Parent(path)).addr in Owned(t) - Owned(At(t, path))
  {
    AtOwned(t, Parent(path));
    AtDistinct(t, Parent(path));
  }

  /** The subtree at path was rebuilt as u, and every other block is as before. */
  ghost predicate Rebuilt(before: Memory, mem: Memory, foreign: Memory, t: Tree, path: seq<nat>, u: Tree)
    requires ValidPath(t, path)
  {
    && Inhabits(before, foreign, t) && Resides(mem, Aside(foreign.Keys, t, path), u)
    && Kept(before, mem, Aside(foreign.Keys, t, path))
  }

  lemma ParentInPlace(before: Memory, mem: Memory, foreign: Memory, t: Tree, path: seq<nat>, u: Tree)
    requires path != [] && ValidPath(t, path) && ValidPath(t, Parent(path)) && Rebuilt(before, mem, foreign, t, path, u)
    ensures var q := At(t, Parent(path));
            Last(path) < |q.kids| && q.addr in Owned(t) - Owned(At(t, path)) && Stores(mem, q.addr, View(q))
  {
    PathParent(t, path);
    ParentAside(t, path);
    AtHolds(before, t, Parent(path));
  }

  /** The parent's block with its pointer to the subtree redirected completes the tree. */
  lemma Relinked(before: Memory, mem: Memory, mem': Memory, foreign: Memory, t: Tree, path: seq<nat>, u: Tree)
    requires path != [] && ValidPath(t, path) && ValidPath(t, Parent(path)) && Rebuilt(before, mem, foreign, t, path, u)
    requires Last(path) < |At(t, Parent(path)).kids| && First(u) == First(At(t, path))
    requires var q := At(t, Parent(path));
             && q.addr in Owned(t) - Owned(At(t, path)) && Stores(mem, q.addr, View(q))
             && mem' == mem[q.addr := Encode(Repointed(q, Last(path), u.addr))]
    ensures Inhabits(mem', foreign, Replace(t, path, u))
  {
    Reunite(before, mem, mem', foreign.Keys, t, path, u);
  }

  /** All that is missing is the pointer to u: the root's, or one in the parent's block. */
  ghost predicate Pending(mem: Memory, foreign: Memory, t: Tree, path: seq<nat>, u: Tree)
    requires ValidPath(t, path)
  {
    if path == [] then Inhabits(mem, foreign, u)
    else
      && ValidPath(t, Parent(path)) && Last(path) < |At(t, Parent(path)).kids|
      && var q := At(t, Parent(path));
      && Stores(mem, q.addr, View(q))
      && Inhabits(mem[q.addr := Encode(Repointed(q, Last(path), u.addr))], foreign, Replace(t, path, u))
  }

  lemma Complete(before: Memory, mem: Memory, foreign: Memory, t: Tree, path: seq<nat>, u: Tree)
    requires ValidPath(t, path) && Rebuilt(before, mem, foreign, t, path, u)
    requires path != [] ==> First(u) == First(At(t, path))
    ensures Pending(mem, foreign, t, path, u)
  {
    if path == [] {
      assert Aside(foreign.Keys, t, path) == foreign.Keys;
    } else {
      PathParent(t, path);
      ParentInPlace(before, mem, foreign, t, path, u);
      var q := At(t, Parent(path));
      Relinked(before, mem, mem[q.addr := Encode(Repointed(q, Last(path), u.addr))], foreign, t, path, u);
    }
  }

  lemma RepointedSame(q: Tree, k: nat, a: Addr)
    requires k < |q.kids| && a == q.kids[k].addr
    ensures Repointed(q, k, a) == View(q)
  {
    assert Pointers(q.kids)[k := a] == Pointers(q.kids);
  }

  /** A subtree rebuilt at its old address needs no relinking. */
  lemma ReuniteInPlace(before: Memory, mem: Memory, foreign: Memory, t: Tree, path: seq<nat>, u: Tree)
    requires path != [] && ValidPath(t, path) && u.addr == At(t, path).addr && First(u) == First(At(t, path))
    requires Rebuilt(before, mem, foreign, t, path, u)
    ensures Inhabits(mem, foreign, Replace(t, path, u))
  {
    Complete(before, mem, foreign, t, path, u);
    PathParent(t, path);
    var q := At(t, Parent(path));
    RepointedSame(q, Last(path), u.addr);
    assert mem[q.addr := Encode(View(q))] == mem;
  }
}
