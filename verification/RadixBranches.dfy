/** What each branch of insert and erase does to the keys and to the shape invariant. */
module RadixBranches {
  import opened Bytes
  import opened RadixShape
  import opened RadixKeys
  import opened RadixEdits
  import opened Sets

  lemma LeafKeys(acc: Key, a: Addr, bytes: seq<Byte>)
    ensures KeysFrom(acc, Node(a, 1, bytes, [])) == multiset{acc + bytes}
  {}

  lemma EmptyKeys(a: Addr)
    ensures Keys(Node(a, 0, [], [])) == multiset{}
  {
    var t := Node(a, 0, [], []);
    assert forall k :: k in Copies([] + t.prefix, 0) ==> false;
    assert KidsKeys([] + t.prefix, t.kids) == multiset{};
  }

  // ----- insert

  lemma KeysAppend(acc: Key, c: Tree, leaf: Addr, bytes: seq<Byte>, a: Addr)
    ensures KeysFrom(acc, Node(a, c.refs, c.prefix, c.kids + [Node(leaf, 1, bytes, [])]))
         == KeysFrom(acc, c) + multiset{acc + c.prefix + bytes}
  {
    var l := Node(leaf, 1, bytes, []);
    KidsConcat(acc + c.prefix, c.kids, [l]);
    KidsOne(acc + c.prefix, l);
    LeafKeys(acc + c.prefix, leaf, bytes);
  }

  lemma WellFormedAppend(kids: seq<Tree>, l: Tree)
    requires WellFormedKids(kids) && WellFormed(l)
    requires forall k :: 0 <= k < |kids| ==> First(kids[k]) != First(l)
    ensures WellFormedKids(kids + [l])
  {
    var x := kids + [l];
    forall i, j | 0 <= i < j < |x| ensures First(x[i]) != First(x[j]) {
      if j < |kids| { assert First(kids[i]) != First(kids[j]); }
    }
  }

  lemma KeysTail(acc: Key, c: Tree, j: nat, t: Addr)
    requires j <= |c.prefix|
    ensures KeysFrom(acc + c.prefix[..j], Node(t, c.refs, c.prefix[j..], c.kids)) == KeysFrom(acc, c)
  {
    assert acc + c.prefix[..j] + c.prefix[j..] == acc + c.prefix;
  }

  lemma KeysFork(acc: Key, c: Tree, j: nat, leaf: Addr, bytes: seq<Byte>, t: Addr, a: Addr)
    requires j <= |c.prefix|
    ensures KeysFrom(acc, Node(a, 0, c.prefix[..j], [Node(leaf, 1, bytes, []), Node(t, c.refs, c.prefix[j..], c.kids)]))
         == KeysFrom(acc, c) + multiset{acc + c.prefix[..j] + bytes}
  {
    var l, tail := Node(leaf, 1, bytes, []), Node(t, c.refs, c.prefix[j..], c.kids);
    var acc' := acc + c.prefix[..j];
    assert [l, tail] == [l] + [tail];
    KidsConcat(acc', [l], [tail]);
    KidsOne(acc', l);
    KidsOne(acc', tail);
    LeafKeys(acc', leaf, bytes);
    KeysTail(acc, c, j, t);
  }

  lemma WellFormedFork(c: Tree, j: nat, leaf: Addr, bytes: seq<Byte>, t: Addr, a: Addr)
    requires WellFormed(c) && 0 < j < |c.prefix| && bytes != [] && NulFree(bytes) && bytes[0] != c.prefix[j]
    ensures var u := Node(a, 0, c.prefix[..j], [Node(leaf, 1, bytes, []), Node(t, c.refs, c.prefix[j..], c.kids)]);
            WellFormed(u) && First(u) == First(c)
  {
    var l, tail := Node(leaf, 1, bytes, []), Node(t, c.refs, c.prefix[j..], c.kids);
    assert WellFormed(l) && WellFormed(tail);
    assert First(l) != First(tail);
  }

  lemma KeysFront(acc: Key, c: Tree, j: nat, t: Addr, a: Addr)
    requires j <= |c.prefix|
    ensures KeysFrom(acc, Node(a, 1, c.prefix[..j], [Node(t, c.refs, c.prefix[j..], c.kids)]))
         == KeysFrom(acc, c) + multiset{acc + c.prefix[..j]}
  {
    KidsOne(acc + c.prefix[..j], Node(t, c.refs, c.prefix[j..], c.kids));
    KeysTail(acc, c, j, t);
  }

  lemma WellFormedFront(c: Tree, j: nat, t: Addr, a: Addr)
    requires WellFormed(c) && 0 < j < |c.prefix|
    ensures var u := Node(a, 1, c.prefix[..j], [Node(t, c.refs, c.prefix[j..], c.kids)]);
            WellFormed(u) && First(u) == First(c)
  {}

  lemma KeysMerge(acc: Key, q: Tree, d: Tree, a: Addr)
    ensures KeysFrom(acc, Node(a, d.refs, q.prefix + d.prefix, d.kids)) == KeysFrom(acc + q.prefix, d)
  {
    assert acc + (q.prefix + d.prefix) == acc + q.prefix + d.prefix;
  }

  lemma WellFormedMerge(q: Tree, d: Tree, a: Addr)
    requires q.prefix != [] && NulFree(q.prefix) && WellFormed(d)
    ensures var u := Node(a, d.refs, q.prefix + d.prefix, d.kids);
            WellFormed(u) && First(u) == First(q)
  {}

  lemma KeysDrop(acc: Key, kids: seq<Tree>, e: nat)
    requires e < |kids|
    ensures KidsKeys(acc, kids) == KidsKeys(acc, Dropped(kids, e)) + KeysFrom(acc, kids[e])
  {
    var last := kids[|kids| - 1];
    KidsUpdate(acc, kids, e, last);
    KeysMoved(acc, kids, e);
    SumCancels(KidsKeys(acc, Dropped(kids, e)), KeysFrom(acc, last), KeysFrom(acc, kids[e]), KidsKeys(acc, kids));
  }

  lemma KeysMoved(acc: Key, kids: seq<Tree>, e: nat)
    requires e < |kids|
    ensures var last := kids[|kids| - 1];
            KidsKeys(acc, kids[e := last]) == KidsKeys(acc, Dropped(kids, e)) + KeysFrom(acc, last)
  {
    var last := kids[|kids| - 1];
    DroppedLast(kids, e);
    KidsConcat(acc, Dropped(kids, e), [last]);
    KidsOne(acc, last);
  }

  lemma DroppedLast(kids: seq<Tree>, e: nat)
    requires e < |kids|
    ensures kids[e := kids[|kids| - 1]] == Dropped(kids, e) + [kids[|kids| - 1]]
  {
  }

  lemma SumCancels(x: multiset<Key>, l: multiset<Key>, c: multiset<Key>, r: multiset<Key>)
    requires (x + l) + c == r + l
    ensures r == x + c
  {
    forall k: Key ensures r[k] == (x + c)[k] {
      assert ((x + l) + c)[k] == (r + l)[k];
    }
  }

  lemma WellFormedDrop(kids: seq<Tree>, e: nat)
    requires e < |kids| && WellFormedKids(kids)
    ensures WellFormedKids(Dropped(kids, e))
  {
    var x := Dropped(kids, e);
    forall k, l | 0 <= k < l < |x| ensures First(x[k]) != First(x[l]) {
      var i := DroppedFrom(kids, e, k);
      var j := DroppedFrom(kids, e, l);
      assert if i < j then First(kids[i]) != First(kids[j]) else First(kids[j]) != First(kids[i]);
    }
  }

  // ----- the replaced subtree of each branch

  /** u is c with one more child, a leaf holding the bytes `rest`. */
  ghost predicate LeafAdded(c: Tree, u: Tree, rest: seq<Byte>) {
    |u.kids| == |c.kids| + 1
    && u == Node(u.addr, c.refs, c.prefix, c.kids + [Node(u.kids[|c.kids|].addr, 1, rest, [])])
  }

  /** u is c split after j bytes, with a leaf holding `rest` beside the back half. */
  ghost predicate Forked(c: Tree, u: Tree, j: nat, rest: seq<Byte>) {
    |u.kids| == 2 && j <= |c.prefix|
    && u == Node(u.addr, 0, c.prefix[..j], [Node(u.kids[0].addr, 1, rest, []),
                                            Node(u.kids[1].addr, c.refs, c.prefix[j..], c.kids)])
  }

  /** u is c split after j bytes, with a key where the front half ends. */
  ghost predicate Fronted(c: Tree, u: Tree, j: nat) {
    |u.kids| == 1 && j <= |c.prefix|
    && u == Node(u.addr, 1, c.prefix[..j], [Node(u.kids[0].addr, c.refs, c.prefix[j..], c.kids)])
  }

  /** u is q grown by the prefix, key and children of d. */
  ghost predicate Fused(q: Tree, d: Tree, u: Tree) {
    u == Node(u.addr, d.refs, q.prefix + d.prefix, d.kids)
  }

  /** u is q grown by its other child than e. */
  ghost predicate Collapsed(q: Tree, e: nat, u: Tree) {
    |q.kids| == 2 && e < 2 && Fused(q, q.kids[1 - e], u)
  }

  /** u is q without child e. */
  ghost predicate Pruned(q: Tree, u: Tree, e: nat) {
    e < |q.kids| && u == Node(u.addr, q.refs, q.prefix, Dropped(q.kids, e))
  }

  // ----- whole tree

  lemma RootReplace(t: Tree, path: seq<nat>, u: Tree)
    requires ValidPath(t, path)
    ensures Keys(Replace(t, path, u)) + KeysFrom(Above(t, path), At(t, path)) == Keys(t) + KeysFrom(Above(t, path), u)
  {
    KeysReplace([], t, path, u);
    assert [] + Above(t, path) == Above(t, path);
  }

  /** Replacing a subtree changes the tree's keys as it changes the subtree's. */
  lemma KeysGrow(t: Tree, path: seq<nat>, u: Tree, k: Key)
    requires ValidPath(t, path)
    requires KeysFrom(Above(t, path), u) == KeysFrom(Above(t, path), At(t, path)) + multiset{k}
    ensures Keys(Replace(t, path, u)) == Keys(t) + multiset{k}
  {
    RootReplace(t, path, u);
    var c := KeysFrom(Above(t, path), At(t, path));
    SumAssociates(Keys(t), c, multiset{k});
    SumCancels(Keys(t), c, multiset{k}, Keys(Replace(t, path, u)));
  }

  lemma KeysShrink(t: Tree, path: seq<nat>, u: Tree, k: Key)
    requires ValidPath(t, path)
    requires KeysFrom(Above(t, path), At(t, path)) == KeysFrom(Above(t, path), u) + multiset{k}
    ensures Keys(t) == Keys(Replace(t, path, u)) + multiset{k}
  {
    RootReplace(t, path, u);
    SumCancels(Keys(Replace(t, path, u)), KeysFrom(Above(t, path), u), multiset{k}, Keys(t));
  }

  /** Edge counts fit the header: children have pairwise distinct first bytes. */
  lemma FewKids(kids: seq<Tree>)
    requires DistinctFirsts(kids)
    ensures |kids| <= 256
  {
    var bytes := BytesBelow(256);
    FirstSetSize(kids);
    SubsetSize(FirstSet(kids), bytes);
  }

  ghost function BytesBelow(n: nat): (s: set<Byte>)
    requires n <= 256
    ensures |s| == n && forall b: Byte :: b in s <==> b < n
  {
    if n == 0 then {} else BytesBelow(n - 1) + {n - 1}
  }

  ghost function FirstSet(kids: seq<Tree>): set<Byte> {
    set i | 0 <= i < |kids| :: First(kids[i])
  }

  lemma {:induction false} FirstSetSize(kids: seq<Tree>)
    requires DistinctFirsts(kids)
    ensures |FirstSet(kids)| == |kids|
  {
    if kids == [] {
      assert FirstSet(kids) == {};
    } else {
      var n := |kids| - 1;
      var front, x := kids[..n], First(kids[n]);
      FirstSetSize(front);
      FirstSetGrows(kids);
      assert x !in FirstSet(front);
    }
  }

  lemma FirstSetGrows(kids: seq<Tree>)
    requires kids != []
    ensures FirstSet(kids) == FirstSet(kids[..|kids| - 1]) + {First(kids[|kids| - 1])}
  {
    var n := |kids| - 1;
    forall b | b in FirstSet(kids[..n]) ensures b in FirstSet(kids) {
      var i :| 0 <= i < n && First(kids[..n][i]) == b;
      assert First(kids[i]) == b;
    }
    forall b | b in FirstSet(kids) ensures b in FirstSet(kids[..n]) || b == First(kids[n]) {
      var i :| 0 <= i < |kids| && First(kids[i]) == b;
      if i < n { assert First(kids[..n][i]) == b; }
    }
  }
}
