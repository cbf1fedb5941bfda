/** The tree a radix tree's memory holds: which node sits at which address, and which keys it denotes. */
module RadixShape {
  import opened Bytes
  import opened NodeLayout
  import opened Heap

  type Key = seq<Byte>

  /** A node at an address with its children in edge order. */
  datatype Tree = Node(addr: Addr, refs: nat, prefix: seq<Byte>, kids: seq<Tree>)

  function First(t: Tree): Byte {
    if t.prefix == [] then 0 else t.prefix[0]
  }

  ghost function Firsts(kids: seq<Tree>): (s: seq<Byte>)
    ensures |s| == |kids|
  {
    seq(|kids|, i requires 0 <= i < |kids| => First(kids[i]))
  }

  ghost function Pointers(kids: seq<Tree>): (s: seq<Addr>)
    ensures |s| == |kids|
  {
    seq(|kids|, i requires 0 <= i < |kids| => kids[i].addr)
  }

  /** What the block of a node says. */
  ghost function View(t: Tree): NodeView {
    NodeView(t.refs, t.prefix, Firsts(t.kids), Pointers(t.kids))
  }

  // ----- memory

  /** Every node of t is packed in its block. */
  ghost predicate Holds(mem: Memory, t: Tree) {
    Stores(mem, t.addr, View(t)) && forall k :: 0 <= k < |t.kids| ==> Holds(mem, t.kids[k])
  }

  /** The addresses of the nodes of t. */
  ghost function Owned(t: Tree): set<Addr> {
    {t.addr} + set k: nat, a: Addr | k < |t.kids| && a in Owned(t.kids[k]) :: a
  }

  /** No two nodes of t share an address. */
  ghost predicate Distinct(t: Tree) {
    && (forall k :: 0 <= k < |t.kids| ==> t.addr !in Owned(t.kids[k]) && Distinct(t.kids[k]))
    && (forall i, j :: 0 <= i < j < |t.kids| ==> Owned(t.kids[i]) !! Owned(t.kids[j]))
  }

  lemma {:induction false} HoldsFrame(mem: Memory, mem': Memory, t: Tree)
    requires Holds(mem, t)
    requires forall a :: a in Owned(t) ==> a in mem' && a in mem && mem'[a] == mem[a]
    ensures Holds(mem', t)
  {
    forall k | 0 <= k < |t.kids| ensures Holds(mem', t.kids[k]) {
      assert Owned(t.kids[k]) <= Owned(t);
      HoldsFrame(mem, mem', t.kids[k]);
    }
  }

  lemma {:induction false} HoldsOwned(mem: Memory, t: Tree)
    requires Holds(mem, t)
    ensures Owned(t) <= mem.Keys
  {
    forall a | a in Owned(t) ensures a in mem {
      if a != t.addr {
        var k: nat :| k < |t.kids| && a in Owned(t.kids[k]);
        HoldsOwned(mem, t.kids[k]);
      }
    }
  }

  // ----- positions

  ghost predicate ValidPath(t: Tree, path: seq<nat>) {
    path == [] || (path[0] < |t.kids| && ValidPath(t.kids[path[0]], path[1..]))
  }

  /** The node reached by following the edges of path. */
  ghost function At(t: Tree, path: seq<nat>): Tree
    requires ValidPath(t, path)
  {
    if path == [] then t else At(t.kids[path[0]], path[1..])
  }

  /** t with the node at path replaced by u. */
  ghost function Replace(t: Tree, path: seq<nat>, u: Tree): Tree
    requires ValidPath(t, path)
  {
    if path == [] then u
    else t.(kids := t.kids[path[0] := Replace(t.kids[path[0]], path[1..], u)])
  }

  /** The bytes spelled by the nodes strictly above the one at path. */
  ghost function Above(t: Tree, path: seq<nat>): seq<Byte>
    requires ValidPath(t, path)
  {
    if path == [] then [] else t.prefix + Above(t.kids[path[0]], path[1..])
  }

  ghost function Parent(path: seq<nat>): seq<nat>
    requires path != []
  {
    path[..|path| - 1]
  }

  ghost function Last(path: seq<nat>): nat
    requires path != []
  {
    path[|path| - 1]
  }

  lemma {:induction false} PathStep(t: Tree, path: seq<nat>, k: nat)
    requires ValidPath(t, path) && k < |At(t, path).kids|
    ensures ValidPath(t, path + [k])
    ensures At(t, path + [k]) == At(t, path).kids[k]
    ensures Above(t, path + [k]) == Above(t, path) + At(t, path).prefix
  {
    if path == [] {
      assert [k][1..] == [];
    } else {
      PathStep(t.kids[path[0]], path[1..], k);
      assert (path + [k])[1..] == path[1..] + [k];
    }
  }

  lemma {:induction false} PathParent(t: Tree, path: seq<nat>)
    requires ValidPath(t, path) && path != []
    ensures ValidPath(t, Parent(path)) && Last(path) < |At(t, Parent(path)).kids|
    ensures At(t, path) == At(t, Parent(path)).kids[Last(path)]
    ensures Above(t, path) == Above(t, Parent(path)) + At(t, Parent(path)).prefix
  {
    if |path| > 1 {
      PathParent(t.kids[path[0]], path[1..]);
      assert Parent(path)[1..] == Parent(path[1..]);
      assert Last(path[1..]) == Last(path);
    }
  }

  lemma {:induction false} AtOwned(t: Tree, path: seq<nat>)
    requires ValidPath(t, path)
    ensures Owned(At(t, path)) <= Owned(t)
    ensures path != [] && Distinct(t) ==> t.addr !in Owned(At(t, path))
  {
    if path != [] {
      AtOwned(t.kids[path[0]], path[1..]);
    }
  }

  lemma {:induction false} AtHolds(mem: Memory, t: Tree, path: seq<nat>)
    requires ValidPath(t, path) && Holds(mem, t)
    ensures Holds(mem, At(t, path))
  {
    if path != [] {
      AtHolds(mem, t.kids[path[0]], path[1..]);
    }
  }

  lemma {:induction false} AtDistinct(t: Tree, path: seq<nat>)
    requires ValidPath(t, path) && Distinct(t)
    ensures Distinct(At(t, path))
  {
    if path != [] {
      AtDistinct(t.kids[path[0]], path[1..]);
    }
  }

  /** Reading back a replaced subtree, and replacing it again. */
  lemma {:induction false} ReplaceAgain(t: Tree, path: seq<nat>, u: Tree, w: Tree)
    requires ValidPath(t, path)
    ensures var t' := Replace(t, path, u);
            ValidPath(t', path) && At(t', path) == u && Above(t', path) == Above(t, path)
            && Replace(t', path, w) == Replace(t, path, w)
  {
    if path != [] {
      ReplaceAgain(t.kids[path[0]], path[1..], u, w);
    }
  }

  /** The parent of a replaced subtree, and replacing the parent. */
  lemma {:induction false} ReplaceParent(t: Tree, path: seq<nat>, u: Tree, w: Tree)
    requires ValidPath(t, path) && path != [] && ValidPath(t, Parent(path)) && Last(path) < |At(t, Parent(path)).kids|
    ensures var t', q := Replace(t, path, u), At(t, Parent(path));
            ValidPath(t', Parent(path)) && At(t', Parent(path)) == q.(kids := q.kids[Last(path) := u])
            && Above(t', Parent(path)) == Above(t, Parent(path))
            && Replace(t', Parent(path), w) == Replace(t, Parent(path), w)
  {
    if |path| > 1 {
      assert Parent(path)[1..] == Parent(path[1..]);
      assert Last(path[1..]) == Last(path);
      ReplaceParent(t.kids[path[0]], path[1..], u, w);
    }
  }

  lemma {:induction false} ReplaceAddr(t: Tree, path: seq<nat>, u: Tree, above: seq<nat>)
    requires ValidPath(t, path) && above <= path && u.addr == At(t, path).addr
    ensures ValidPath(t, above) && ValidPath(Replace(t, path, u), above)
    ensures At(Replace(t, path, u), above).addr == At(t, above).addr
  {
    if above != [] {
      assert above[1..] <= path[1..];
      ReplaceAddr(t.kids[path[0]], path[1..], u, above[1..]);
    }
  }

  // ----- replacing a subtree, in memory

  /** The block of the parent once its pointer to the replaced node was updated. */
  ghost function Repointed(q: Tree, k: nat, a: Addr): NodeView
    requires k < |q.kids|
  {
    View(q).(ptrs := Pointers(q.kids)[k := a])
  }

  lemma ViewUpdate(t: Tree, k: nat, u: Tree)
    requires k < |t.kids| && First(u) == First(t.kids[k])
    ensures View(t.(kids := t.kids[k := u])) == Repointed(t, k, u.addr)
  {
    assert Firsts(t.kids[k := u]) == Firsts(t.kids);
    assert Pointers(t.kids[k := u]) == Pointers(t.kids)[k := u.addr];
  }

  lemma OwnedReplaceKid(t: Tree, k: nat, u: Tree)
    requires k < |t.kids| && Distinct(t)
    ensures Owned(t.(kids := t.kids[k := u])) == (Owned(t) - Owned(t.kids[k])) + Owned(u)
  {
    var t' := t.(kids := t.kids[k := u]);
    forall a | a in Owned(t') ensures a in (Owned(t) - Owned(t.kids[k])) + Owned(u) {
      if a != t.addr {
        var i: nat :| i < |t'.kids| && a in Owned(t'.kids[i]);
        if i != k { assert a in Owned(t.kids[i]); }
      }
    }
    forall a | a in (Owned(t) - Owned(t.kids[k])) + Owned(u) ensures a in Owned(t') {
      if a in Owned(u) {
        assert t'.kids[k] == u;
      } else if a != t.addr {
        var i: nat :| i < |t.kids| && a in Owned(t.kids[i]);
        assert t'.kids[i] == t.kids[i];
      }
    }
  }

  lemma DistinctReplaceKid(t: Tree, k: nat, u: Tree)
    requires k < |t.kids| && Distinct(t) && Distinct(u)
    requires Owned(u) !! (Owned(t) - Owned(t.kids[k]))
    ensures Distinct(t.(kids := t.kids[k := u]))
  {
    var t' := t.(kids := t.kids[k := u]);
    assert t.addr in Owned(t) - Owned(t.kids[k]);
    forall i | 0 <= i < |t.kids| && i != k ensures Owned(t.kids[i]) !! Owned(u) {
      assert Owned(t.kids[i]) <= Owned(t) - Owned(t.kids[k]) by {
        assert Owned(t.kids[i]) <= Owned(t);
        assert if i < k then Owned(t.kids[i]) !! Owned(t.kids[k]) else Owned(t.kids[k]) !! Owned(t.kids[i]);
      }
    }
  }

  /** Replacing a subtree exchanges exactly its addresses and keeps all addresses distinct. */
  lemma {:induction false} OwnedReplace(t: Tree, path: seq<nat>, u: Tree)
    requires ValidPath(t, path) && Distinct(t) && Distinct(u)
    requires Owned(u) !! (Owned(t) - Owned(At(t, path)))
    ensures Owned(Replace(t, path, u)) == (Owned(t) - Owned(At(t, path))) + Owned(u)
    ensures Distinct(Replace(t, path, u))
  {
    if path != [] {
      var k, rest := path[0], path[1..];
      var c, s := t.kids[k], At(t, path);
      AtOwned(c, rest);
      KidOwned(t, k);
      ExchangeInside(Owned(t), Owned(c), Owned(s), Owned(u));
      OwnedReplace(c, rest, u);
      var c' := Replace(c, rest, u);
      OwnedReplaceKid(t, k, c');
      DistinctReplaceKid(t, k, c');
    }
  }

  lemma KidOwned(t: Tree, k: nat)
    requires k < |t.kids|
    ensures Owned(t.kids[k]) <= Owned(t)
  {}

  lemma ExchangeInside<T>(all: set<T>, part: set<T>, out: set<T>, fresh': set<T>)
    requires out <= part <= all && fresh' !! (all - out)
    ensures fresh' !! (part - out) && ((part - out) + fresh') !! (all - part)
    ensures (all - part) + ((part - out) + fresh') == (all - out) + fresh'
  {}

  lemma TailPath(path: seq<nat>)
    requires |path| > 1
    ensures Parent(path)[1..] == Parent(path[1..]) && Last(path[1..]) == Last(path)
  {
  }

  /** After the parent's pointer was updated, memory holds the tree with the new subtree. */
  lemma {:induction false} HoldsReplace(mem: Memory, mem': Memory, t: Tree, path: seq<nat>, u: Tree)
    requires path != [] && ValidPath(t, path) && ValidPath(t, Parent(path)) && Last(path) < |At(t, Parent(path)).kids|
    requires Holds(mem, t) && Distinct(t) && Holds(mem', u) && First(u) == First(At(t, path))
    requires var q := At(t, Parent(path));
             Stores(mem', q.addr, Repointed(q, Last(path), u.addr))
             && forall a :: a in Owned(t) && a !in Owned(At(t, path)) && a != q.addr ==>
                  a in mem' && a in mem && mem'[a] == mem[a]
    ensures Holds(mem', Replace(t, path, u))
  {
    var k, rest := path[0], path[1..];
    var c := t.kids[k];
    if rest == [] {
      assert Parent(path) == [];
      HoldsReplaceKid(mem, mem', t, k, u);
    } else {
      TailPath(path);
      KidOwned(t, k);
      HoldsReplace(mem, mem', c, rest, u);
      HoldsReplaceStep(mem, mem', t, path, u);
    }
  }

  lemma HoldsReplaceKid(mem: Memory, mem': Memory, t: Tree, k: nat, u: Tree)
    requires k < |t.kids| && Holds(mem, t) && Distinct(t) && Holds(mem', u) && First(u) == First(t.kids[k])
    requires Stores(mem', t.addr, Repointed(t, k, u.addr))
    requires forall a :: a in Owned(t) && a !in Owned(t.kids[k]) && a != t.addr ==>
               a in mem' && a in mem && mem'[a] == mem[a]
    ensures Holds(mem', t.(kids := t.kids[k := u]))
  {
    ViewUpdate(t, k, u);
    OtherKidsHold(mem, mem', t, k, Owned(t.kids[k]) + {t.addr});
  }

  lemma SameView(t: Tree, k: nat, u: Tree)
    requires k < |t.kids| && First(u) == First(t.kids[k]) && u.addr == t.kids[k].addr
    ensures View(t.(kids := t.kids[k := u])) == View(t)
  {
    ViewUpdate(t, k, u);
    assert Pointers(t.kids)[k := u.addr] == Pointers(t.kids);
  }

  lemma HoldsReplaceStep(mem: Memory, mem': Memory, t: Tree, path: seq<nat>, u: Tree)
    requires |path| > 1 && ValidPath(t, path) && ValidPath(t, Parent(path))
    requires Holds(mem, t) && Distinct(t)
    requires forall a :: a in Owned(t) && a !in Owned(At(t, path)) && a != At(t, Parent(path)).addr ==>
               a in mem' && a in mem && mem'[a] == mem[a]
    requires Holds(mem', Replace(t.kids[path[0]], path[1..], u))
    ensures Holds(mem', Replace(t, path, u))
  {
    var k, rest := path[0], path[1..];
    var c, q := t.kids[k], At(t, Parent(path));
    var c' := Replace(c, rest, u);
    assert Parent(path)[1..] == Parent(rest);
    AtOwned(c, rest);
    AtOwned(c, Parent(rest));
    SameView(t, k, c');
    OtherKidsHold(mem, mem', t, k, Owned(At(t, path)) + {q.addr});
  }

  lemma OtherKidsHold(mem: Memory, mem': Memory, t: Tree, k: nat, touched: set<Addr>)
    requires Holds(mem, t) && Distinct(t) && k < |t.kids| && touched <= Owned(t.kids[k]) + {t.addr}
    requires forall a :: a in Owned(t) && a !in touched ==> a in mem' && a in mem && mem'[a] == mem[a]
    ensures forall i :: 0 <= i < |t.kids| && i != k ==> Holds(mem', t.kids[i])
  {
    forall i | 0 <= i < |t.kids| && i != k ensures Holds(mem', t.kids[i]) {
      assert if i < k then Owned(t.kids[i]) !! Owned(t.kids[k]) else Owned(t.kids[k]) !! Owned(t.kids[i]);
      assert Owned(t.kids[i]) <= Owned(t);
      HoldsFrame(mem, mem', t.kids[i]);
    }
  }
}
