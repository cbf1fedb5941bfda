/** The multiset of keys determines the tree up to the order of siblings and the addresses. */
module RadixCanonical {
  import opened Bytes
  import opened RadixShape
  import opened RadixKeys
  import opened RadixBranches
  import opened Sets

  /** Equal up to sibling order and addresses. */
  ghost predicate Same(t: Tree, u: Tree)
    decreases t, 0
  {
    && t.refs == u.refs && t.prefix == u.prefix && |t.kids| == |u.kids|
    && (forall i :: 0 <= i < |t.kids| ==> SomeSame(t.kids[i], u.kids))
    && (forall j :: 0 <= j < |u.kids| ==> SameAsSome(t.kids, u.kids[j]))
  }

  ghost predicate SomeSame(t: Tree, us: seq<Tree>)
    decreases t, 1
  {
    exists j :: 0 <= j < |us| && Same(t, us[j])
  }

  ghost predicate SameAsSome(ts: seq<Tree>, u: Tree)
    decreases ts, 0
  {
    exists i :: 0 <= i < |ts| && Same(ts[i], u)
  }

  /** A well-formed subtree cannot branch before the prefix all its keys share ends. */
  lemma PrefixReaches(acc: Key, t: Tree, p: seq<Byte>)
    requires WellFormed(t) && forall k :: k in KeysFrom(acc, t) ==> acc + p <= k
    ensures |p| <= |t.prefix|
  {
    assert t.refs > 0 ==> acc + t.prefix in KeysFrom(acc, t);
    if |p| > |t.prefix| {
      if t.refs == 0 {
        KidSharesPrefix(acc, t, p, 0);
        KidSharesPrefix(acc, t, p, 1);
      }
      assert false;
    }
  }

  lemma KidSharesPrefix(acc: Key, t: Tree, p: seq<Byte>, i: nat)
    requires WellFormed(t) && (forall k :: k in KeysFrom(acc, t) ==> acc + p <= k) && i < |t.kids| && |p| > |t.prefix|
    ensures First(t.kids[i]) == (acc + p)[|acc| + |t.prefix|]
  {
    var acc' := acc + t.prefix;
    var k := SomeKey(acc', t.kids[i]);
    KidsSplit(acc', t.kids, i);
    assert k in KeysFrom(acc, t);
    KeyHasFirst(acc', t.kids[i], k);
    ByteAt(acc + p, k, |acc'|);
  }

  lemma ByteAt(p: Key, k: Key, i: nat)
    requires p <= k && i < |p|
    ensures k[i] == p[i]
  {}

  lemma SamePrefix(acc: Key, t: Tree, u: Tree)
    requires WellFormed(t) && WellFormed(u) && KeysFrom(acc, t) == KeysFrom(acc, u)
    ensures t.prefix == u.prefix
  {
    forall k | k in KeysFrom(acc, t) ensures acc + u.prefix <= k && acc + t.prefix <= k {
      KeysExtend(acc, u, k);
      KeysExtend(acc, t, k);
    }
    PrefixReaches(acc, t, u.prefix);
    PrefixReaches(acc, u, t.prefix);
    var k := SomeKey(acc, t);
    SameMiddle(acc, t.prefix, u.prefix, k);
  }

  lemma SameMiddle(acc: Key, p: Key, q: Key, k: Key)
    requires acc + p <= k && acc + q <= k && |p| == |q|
    ensures p == q
  {
    assert acc + p == k[..|acc| + |p|] == acc + q;
    assert p == (acc + p)[|acc|..] && q == (acc + q)[|acc|..];
  }

  lemma OwnCount(acc: Key, t: Tree)
    requires WellFormedKids(t.kids)
    ensures KeysFrom(acc, t)[acc + t.prefix] == t.refs
  {
    NoKidCount(acc + t.prefix, t.kids, acc + t.prefix);
  }

  /** The child that shares a key with another list's child has the same keys. */
  lemma SameKidKeys(acc: Key, xs: seq<Tree>, ys: seq<Tree>, i: nat) returns (j: nat)
    requires WellFormedKids(xs) && WellFormedKids(ys) && KidsKeys(acc, xs) == KidsKeys(acc, ys) && i < |xs|
    ensures j < |ys| && First(xs[i]) == First(ys[j]) && KeysFrom(acc, xs[i]) == KeysFrom(acc, ys[j])
  {
    var k := SomeKey(acc, xs[i]);
    KidsSplit(acc, xs, i);
    j := KidsExtend(acc, ys, k);
    KeyHasFirst(acc, xs[i], k);
    KeyHasFirst(acc, ys[j], k);
    forall x: Key ensures KeysFrom(acc, xs[i])[x] == KeysFrom(acc, ys[j])[x] {
      if |x| > |acc| && x[|acc|] == First(xs[i]) {
        KidCount(acc, xs, i, x);
        KidCount(acc, ys, j, x);
      } else {
        if x in KeysFrom(acc, xs[i]) { KeyHasFirst(acc, xs[i], x); }
        if x in KeysFrom(acc, ys[j]) { KeyHasFirst(acc, ys[j], x); }
      }
    }
  }

  lemma FirstsAmong(acc: Key, xs: seq<Tree>, ys: seq<Tree>)
    requires WellFormedKids(xs) && WellFormedKids(ys) && KidsKeys(acc, xs) == KidsKeys(acc, ys)
    ensures |xs| <= |ys|
  {
    forall b | b in FirstSet(xs) ensures b in FirstSet(ys) {
      var i :| 0 <= i < |xs| && First(xs[i]) == b;
      var j := SameKidKeys(acc, xs, ys, i);
    }
    FirstSetSize(xs);
    FirstSetSize(ys);
    SubsetSize(FirstSet(xs), FirstSet(ys));
  }

  lemma NodesAgree(acc: Key, t: Tree, u: Tree)
    requires WellFormed(t) && WellFormed(u) && KeysFrom(acc, t) == KeysFrom(acc, u)
    ensures t.prefix == u.prefix && t.refs == u.refs
    ensures KidsKeys(acc + t.prefix, t.kids) == KidsKeys(acc + t.prefix, u.kids)
  {
    SamePrefix(acc, t, u);
    OwnCount(acc, t);
    OwnCount(acc, u);
    var acc' := acc + t.prefix;
    CancelCopies(Copies(acc', t.refs), KidsKeys(acc', t.kids), KidsKeys(acc', u.kids));
  }

  /** Subtrees with the same keys are the same up to sibling order. */
  lemma {:induction false} Canonical(acc: Key, t: Tree, u: Tree)
    requires WellFormed(t) && WellFormed(u) && KeysFrom(acc, t) == KeysFrom(acc, u)
    ensures Same(t, u)
    decreases t, 1
  {
    NodesAgree(acc, t, u);
    CanonicalKids(acc + t.prefix, t.kids, u.kids);
  }

  lemma CancelCopies(c: multiset<Key>, x: multiset<Key>, y: multiset<Key>)
    requires c + x == c + y
    ensures x == y
  {
    forall k: Key ensures x[k] == y[k] {
      assert (c + x)[k] == (c + y)[k];
    }
  }

  lemma {:induction false} CanonicalKids(acc: Key, xs: seq<Tree>, ys: seq<Tree>)
    requires WellFormedKids(xs) && WellFormedKids(ys) && KidsKeys(acc, xs) == KidsKeys(acc, ys)
    ensures |xs| == |ys|
    ensures forall i :: 0 <= i < |xs| ==> SomeSame(xs[i], ys)
    ensures forall j :: 0 <= j < |ys| ==> SameAsSome(xs, ys[j])
    decreases xs, 0
  {
    FirstsAmong(acc, xs, ys);
    FirstsAmong(acc, ys, xs);
    forall i | 0 <= i < |xs| ensures SomeSame(xs[i], ys) {
      var j := SameKidKeys(acc, xs, ys, i);
      Canonical(acc, xs[i], ys[j]);
    }
    forall j | 0 <= j < |ys| ensures SameAsSome(xs, ys[j]) {
      var i := SameKidKeys(acc, ys, xs, j);
      Canonical(acc, xs[i], ys[j]);
    }
  }

  /** Canonical form: the stored multiset determines the tree up to sibling order, and the reverse. */
  lemma CanonicalRoot(t: Tree, u: Tree)
    requires WellFormedRoot(t) && WellFormedRoot(u)
    ensures Keys(t) == Keys(u) <==> Same(t, u)
  {
    if Keys(t) == Keys(u) {
      RootKeys(t);
      RootKeys(u);
      CanonicalKids([], t.kids, u.kids);
    }
    if Same(t, u) {
      SameKeys([], t, u);
    }
  }

  lemma RootKeys(t: Tree)
    requires WellFormedRoot(t)
    ensures Keys(t) == KidsKeys([], t.kids)
  {
    assert [] + t.prefix == [];
    assert forall k :: k in Copies([], 0) ==> false;
  }

  /** Conversely, trees that differ only in sibling order denote the same multiset. */
  lemma {:induction false} SameKeys(acc: Key, t: Tree, u: Tree)
    requires WellFormedKids(t.kids) && WellFormedKids(u.kids) && Same(t, u)
    ensures KeysFrom(acc, t) == KeysFrom(acc, u)
    decreases t, 1
  {
    var acc' := acc + t.prefix;
    forall k: Key ensures KidsKeys(acc', t.kids)[k] == KidsKeys(acc', u.kids)[k] {
      SameKidsCount(acc', t, u, k);
    }
    assert KidsKeys(acc', t.kids) == KidsKeys(acc', u.kids);
  }

  lemma Sibling(t: Tree, u: Tree, i: nat) returns (j: nat)
    requires Same(t, u) && i < |t.kids|
    ensures j < |u.kids| && Same(t.kids[i], u.kids[j]) && First(t.kids[i]) == First(u.kids[j])
  {
    assert SomeSame(t.kids[i], u.kids);
    j :| 0 <= j < |u.kids| && Same(t.kids[i], u.kids[j]);
  }

  lemma NoSibling(t: Tree, u: Tree, b: Byte)
    requires Same(t, u) && forall i :: 0 <= i < |t.kids| ==> First(t.kids[i]) != b
    ensures forall j :: 0 <= j < |u.kids| ==> First(u.kids[j]) != b
  {
    forall j | 0 <= j < |u.kids| ensures First(u.kids[j]) != b {
      assert SameAsSome(t.kids, u.kids[j]);
      var i :| 0 <= i < |t.kids| && Same(t.kids[i], u.kids[j]);
    }
  }

  lemma {:induction false} SameKidsCount(acc: Key, t: Tree, u: Tree, k: Key)
    requires WellFormedKids(t.kids) && WellFormedKids(u.kids) && Same(t, u)
    ensures KidsKeys(acc, t.kids)[k] == KidsKeys(acc, u.kids)[k]
    decreases t, 0
  {
    WellIsFanned(t.kids);
    WellIsFanned(u.kids);
    if i: nat :| i < |t.kids| && |k| > |acc| && First(t.kids[i]) == k[|acc|] {
      var j := Sibling(t, u, i);
      KidCount(acc, t.kids, i, k);
      KidCount(acc, u.kids, j, k);
      SameKeys(acc, t.kids[i], u.kids[j]);
    } else {
      if |k| > |acc| { NoSibling(t, u, k[|acc|]); }
      NoKidCount(acc, t.kids, k);
      NoKidCount(acc, u.kids, k);
    }
  }
}
