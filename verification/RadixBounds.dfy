/** How many nodes a stored multiset needs. */
module RadixBounds {
  import opened RadixShape
  import opened RadixKeys
  import opened RadixEdits
  import opened RadixBranches

  ghost function Nodes(t: Tree): nat
    decreases t, 1
  {
    1 + KidsNodes(t.kids)
  }

  ghost function KidsNodes(kids: seq<Tree>): nat
    decreases kids, 0
  {
    if kids == [] then 0 else Nodes(kids[0]) + KidsNodes(kids[1..])
  }

  /** The distinct keys of a multiset. */
  ghost function Support(m: multiset<Key>): set<Key> {
    set k | k in m
  }

  lemma {:induction false} FewNodes(acc: Key, t: Tree)
    requires WellFormed(t)
    ensures Nodes(t) <= 2 * |KeyList(acc, t)| - 1
    decreases t, 1
  {
    FewKidsNodes(acc + t.prefix, t.kids);
  }

  lemma {:induction false} FewKidsNodes(acc: Key, kids: seq<Tree>)
    requires forall k :: 0 <= k < |kids| ==> WellFormed(kids[k])
    ensures KidsNodes(kids) <= 2 * |KidsKeyList(acc, kids)| - |kids|
    decreases kids, 0
  {
    if kids != [] {
      FewNodes(acc, kids[0]);
      FewKidsNodes(acc, kids[1..]);
    }
  }

  lemma ListCoversSupport(t: Tree)
    requires WellFormedKids(t.kids)
    ensures |KeyList([], t)| == |Support(Keys(t))|
  {
    var l, s := KeyList([], t), Support(Keys(t));
    forall k: Key ensures multiset(l)[k] == multiset(s)[k] {
      WellIsFormed(t.kids);
      EachKeyOnce([], t, k);
    }
    assert multiset(l) == multiset(s);
    assert |multiset(l)| == |l|;
    assert |multiset(s)| == |s|;
  }

  /** n >= 1 distinct keys need at most 2n - 1 nodes besides the root. */
  lemma AtMostTwiceTheKeys(t: Tree)
    requires WellFormedRoot(t) && Keys(t) != multiset{}
    ensures Nodes(t) - 1 <= 2 * |Support(Keys(t))| - 1
  {
    ListCoversSupport(t);
    FewKidsNodes([], t.kids);
    assert [] + t.prefix == [];
    assert |KeyList([], t)| == |KidsKeyList([], t.kids)|;
    if t.kids == [] {
      assert t == Node(t.addr, 0, [], []);
      EmptyKeys(t.addr);
      assert false;
    }
  }

  /** Distinct addresses: as many live blocks as nodes. */
  lemma {:induction false} OwnedCount(t: Tree)
    requires Distinct(t)
    ensures |Owned(t)| == Nodes(t)
    decreases t, 1
  {
    NodeParts(t);
    KidsOwnedCount(t.kids);
  }

  lemma {:induction false} KidsOwnedCount(kids: seq<Tree>)
    requires KidsDistinct(kids)
    ensures |KidsOwned(kids)| == KidsNodes(kids)
    decreases kids, 0
  {
    if kids == [] {
      assert KidsOwned(kids) == {};
    } else {
      OwnedCount(kids[0]);
      KidsOwnedCount(kids[1..]);
      KidsOwnedFirst(kids);
    }
  }

  lemma KidsOwnedFirst(kids: seq<Tree>)
    requires kids != [] && KidsDistinct(kids)
    ensures KidsOwned(kids) == Owned(kids[0]) + KidsOwned(kids[1..]) && Owned(kids[0]) !! KidsOwned(kids[1..])
  {
    var rest := kids[1..];
    forall a | a in KidsOwned(kids) ensures a in Owned(kids[0]) + KidsOwned(rest) {
      var k: nat :| k < |kids| && a in Owned(kids[k]);
      if k > 0 { assert rest[k - 1] == kids[k]; }
    }
    forall a | a in KidsOwned(rest) ensures a in KidsOwned(kids) && a !in Owned(kids[0]) {
      var k: nat :| k < |rest| && a in Owned(rest[k]);
      assert kids[k + 1] == rest[k];
      assert Owned(kids[0]) !! Owned(kids[k + 1]);
    }
  }
}
