/** The order in which a traversal calls its function: by edge path, a node before the nodes below it. */
module RadixOrder {
  import opened Bytes
  import opened RadixShape
  import opened RadixKeys

  /** A path to a node that holds a key. */
  ghost predicate IsKeyPath(t: Tree, path: seq<nat>) {
    ValidPath(t, path) && At(t, path).refs > 0
  }

  /** The key spelled by the nodes down to the one at path. */
  ghost function KeyAt(acc: Key, t: Tree, path: seq<nat>): Key
    requires ValidPath(t, path)
  {
    acc + Above(t, path) + At(t, path).prefix
  }

  /** p comes before q in lexicographic order, a prefix first. */
  predicate Before(p: seq<nat>, q: seq<nat>) {
    q != [] && (p == [] || p[0] < q[0] || (p[0] == q[0] && Before(p[1..], q[1..])))
  }

  ghost predicate Precedes<T>(l: seq<T>, a: T, b: T) {
    exists i, j :: 0 <= i < j < |l| && l[i] == a && l[j] == b
  }

  lemma {:induction false} BeforeTotal(p: seq<nat>, q: seq<nat>)
    ensures Before(p, q) || p == q || Before(q, p)
  {
    if p != [] && q != [] && p[0] == q[0] {
      BeforeTotal(p[1..], q[1..]);
      assert p == [p[0]] + p[1..] && q == [q[0]] + q[1..];
    }
  }

  lemma PrecedesWithin<T>(u: seq<T>, l: seq<T>, v: seq<T>, a: T, b: T)
    requires Precedes(l, a, b)
    ensures Precedes(u + l + v, a, b)
  {
    var i, j :| 0 <= i < j < |l| && l[i] == a && l[j] == b;
    var w := u + l + v;
    assert w[|u| + i] == a && w[|u| + j] == b;
  }

  lemma PrecedesAcross<T>(l: seq<T>, m: seq<T>, a: T, b: T)
    requires a in l && b in m
    ensures Precedes(l + m, a, b)
  {
    var i :| 0 <= i < |l| && l[i] == a;
    var j :| 0 <= j < |m| && m[j] == b;
    assert (l + m)[i] == a && (l + m)[|l| + j] == b;
  }

  lemma KidsListSplit(acc: Key, kids: seq<Tree>, i: nat)
    requires i < |kids|
    ensures KidsKeyList(acc, kids)
         == KidsKeyList(acc, kids[..i]) + KeyList(acc, kids[i]) + KidsKeyList(acc, kids[i + 1..])
  {
    KidsKeyListGrows(acc, kids, i);
    KidsKeyListConcat(acc, kids[..i + 1], kids[i + 1..]);
    assert kids == kids[..i + 1] + kids[i + 1..];
  }

  lemma KeyAtBelow(acc: Key, t: Tree, path: seq<nat>)
    requires ValidPath(t, path) && path != []
    ensures KeyAt(acc, t, path) == KeyAt(acc + t.prefix, t.kids[path[0]], path[1..])
  {
    var c := t.kids[path[0]];
    assert acc + (t.prefix + Above(c, path[1..])) == acc + t.prefix + Above(c, path[1..]);
  }

  /** The key of every node that holds one is listed. */
  lemma {:induction false} Listed(acc: Key, t: Tree, path: seq<nat>)
    requires IsKeyPath(t, path)
    ensures KeyAt(acc, t, path) in KeyList(acc, t)
    decreases path
  {
    if path == [] {
      assert acc + [] == acc;
    } else {
      KeyAtBelow(acc, t, path);
      Listed(acc + t.prefix, t.kids[path[0]], path[1..]);
      KidsListSplit(acc + t.prefix, t.kids, path[0]);
    }
  }

  lemma KidsListed(acc: Key, kids: seq<Tree>, i: nat, k: Key)
    requires i < |kids| && k in KeyList(acc, kids[i])
    ensures k in KidsKeyList(acc, kids)
  {
    KidsListSplit(acc, kids, i);
  }

  lemma KidsPrecede(acc: Key, kids: seq<Tree>, i: nat, j: nat, a: Key, b: Key)
    requires i < j < |kids| && a in KeyList(acc, kids[i]) && b in KeyList(acc, kids[j])
    ensures Precedes(KidsKeyList(acc, kids), a, b)
  {
    var front, back := KidsKeyList(acc, kids[..i + 1]), KidsKeyList(acc, kids[i + 1..]);
    KidsListed(acc, kids[..i + 1], i, a);
    KidsListed(acc, kids[i + 1..], j - i - 1, b);
    KidsKeyListConcat(acc, kids[..i + 1], kids[i + 1..]);
    assert kids == kids[..i + 1] + kids[i + 1..];
    PrecedesAcross(front, back, a, b);
  }

  lemma {:induction false} BeforePrecedes(acc: Key, t: Tree, p: seq<nat>, q: seq<nat>)
    requires IsKeyPath(t, p) && IsKeyPath(t, q) && Before(p, q)
    ensures Precedes(KeyList(acc, t), KeyAt(acc, t, p), KeyAt(acc, t, q))
    decreases p
  {
    var acc', below := acc + t.prefix, KidsKeyList(acc + t.prefix, t.kids);
    var own := if t.refs > 0 then [acc'] else [];
    assert KeyList(acc, t) == own + below == own + below + [];
    KeyAtBelow(acc, t, q);
    Listed(acc', t.kids[q[0]], q[1..]);
    if p == [] {
      assert acc + [] == acc;
      KidsListed(acc', t.kids, q[0], KeyAt(acc, t, q));
      PrecedesAcross(own, below, acc', KeyAt(acc, t, q));
    } else {
      KeyAtBelow(acc, t, p);
      if p[0] < q[0] {
        Listed(acc', t.kids[p[0]], p[1..]);
        KidsPrecede(acc', t.kids, p[0], q[0], KeyAt(acc, t, p), KeyAt(acc, t, q));
      } else {
        KidPrecedes(acc', t.kids, p, q);
      }
      PrecedesWithin(own, below, [], KeyAt(acc, t, p), KeyAt(acc, t, q));
    }
  }

  lemma KidPrecedes(acc: Key, kids: seq<Tree>, p: seq<nat>, q: seq<nat>)
    requires p != [] && q != [] && p[0] == q[0] < |kids| && Before(p[1..], q[1..])
    requires IsKeyPath(kids[p[0]], p[1..]) && IsKeyPath(kids[p[0]], q[1..])
    ensures Precedes(KidsKeyList(acc, kids), KeyAt(acc, kids[p[0]], p[1..]), KeyAt(acc, kids[p[0]], q[1..]))
    decreases p, 0
  {
    var i := p[0];
    BeforePrecedes(acc, kids[i], p[1..], q[1..]);
    KidsListSplit(acc, kids, i);
    PrecedesWithin(KidsKeyList(acc, kids[..i]), KeyList(acc, kids[i]), KidsKeyList(acc, kids[i + 1..]),
                   KeyAt(acc, kids[i], p[1..]), KeyAt(acc, kids[i], q[1..]));
  }

  lemma TwicePlaced<T>(l: seq<T>, i: nat, j: nat)
    requires i < j < |l| && l[i] == l[j]
    ensures multiset(l)[l[i]] >= 2
  {
    assert l == l[..j] + l[j..];
    assert l[i] in l[..j] && l[j] in l[j..];
    assert multiset(l) == multiset(l[..j]) + multiset(l[j..]);
  }

  lemma OncePlaced<T>(l: seq<T>, i: nat, j: nat)
    requires i < |l| && j < |l| && l[i] == l[j] && multiset(l)[l[i]] <= 1
    ensures i == j
  {
    if i < j {
      TwicePlaced(l, i, j);
    } else if j < i {
      TwicePlaced(l, j, i);
    }
  }

  lemma NotBoth<T>(l: seq<T>, a: T, b: T)
    requires multiset(l)[a] <= 1 && multiset(l)[b] <= 1 && Precedes(l, a, b)
    ensures !Precedes(l, b, a) && a != b
  {
    var i, j :| 0 <= i < j < |l| && l[i] == a && l[j] == b;
    if a == b {
      OncePlaced(l, i, j);
    } else if Precedes(l, b, a) {
      var i', j' :| 0 <= i' < j' < |l| && l[i'] == b && l[j'] == a;
      OncePlaced(l, i, j');
      OncePlaced(l, j, i');
    }
  }

  /** The keys are listed in the order of their edge paths. */
  lemma PathOrder(acc: Key, t: Tree, p: seq<nat>, q: seq<nat>)
    requires FormedKids(t.kids) && IsKeyPath(t, p) && IsKeyPath(t, q)
    ensures Precedes(KeyList(acc, t), KeyAt(acc, t, p), KeyAt(acc, t, q)) <==> Before(p, q)
  {
    var l, a, b := KeyList(acc, t), KeyAt(acc, t, p), KeyAt(acc, t, q);
    EachKeyOnce(acc, t, a);
    EachKeyOnce(acc, t, b);
    BeforeTotal(p, q);
    if Before(p, q) {
      BeforePrecedes(acc, t, p, q);
    } else if Precedes(l, a, b) {
      NotBoth(l, a, b);
      if p != q {
        BeforePrecedes(acc, t, q, p);
      }
    }
  }

  ghost predicate InPathOrder(l: seq<Key>, t: Tree) {
    forall p, q :: IsKeyPath(t, p) && IsKeyPath(t, q) ==>
      (Precedes(l, KeyAt([], t, p), KeyAt([], t, q)) <==> Before(p, q))
  }

  lemma ListInPathOrder(t: Tree)
    requires FormedKids(t.kids)
    ensures InPathOrder(KeyList([], t), t)
  {
    forall p, q | IsKeyPath(t, p) && IsKeyPath(t, q)
      ensures Precedes(KeyList([], t), KeyAt([], t, p), KeyAt([], t, q)) <==> Before(p, q)
    {
      PathOrder([], t, p, q);
    }
  }

  // ----- a key comes before the keys that extend it

  ghost predicate PrefixesFirst(l: seq<Key>) {
    forall i, j :: 0 <= i < j < |l| ==> !(l[j] < l[i])
  }

  lemma KidsListStarts(acc: Key, kids: seq<Tree>, k: Key) returns (i: nat)
    requires FormedKids(kids) && k in KidsKeyList(acc, kids)
    ensures i < |kids| && |k| > |acc| && k[|acc|] == First(kids[i])
  {
    EachKidsKeyOnce(acc, kids, k);
    i := KidsExtend(acc, kids, k);
    KeyHasFirst(acc, kids[i], k);
  }

  lemma {:induction false} ListPrefixesFirst(acc: Key, t: Tree)
    requires FormedKids(t.kids)
    ensures PrefixesFirst(KeyList(acc, t))
    decreases t, 1
  {
    var acc' := acc + t.prefix;
    var own, below, l := if t.refs > 0 then [acc'] else [], KidsKeyList(acc', t.kids), KeyList(acc, t);
    KidsPrefixesFirst(acc', t.kids);
    forall i, j | 0 <= i < j < |l| ensures !(l[j] < l[i]) {
      assert l[j] == below[j - |own|];
      if i < |own| {
        var m := KidsListStarts(acc', t.kids, l[j]);
      } else {
        assert l[i] == below[i - |own|];
      }
    }
  }

  lemma {:induction false} KidsPrefixesFirst(acc: Key, kids: seq<Tree>)
    requires FormedKids(kids)
    ensures PrefixesFirst(KidsKeyList(acc, kids))
    decreases kids, 0
  {
    if kids != [] {
      var head, tail, l := KeyList(acc, kids[0]), KidsKeyList(acc, kids[1..]), KidsKeyList(acc, kids);
      ListPrefixesFirst(acc, kids[0]);
      KidsPrefixesFirst(acc, kids[1..]);
      forall i, j | 0 <= i < j < |l| ensures !(l[j] < l[i]) {
        if j < |head| {
          assert l[i] == head[i] && l[j] == head[j];
        } else if i < |head| {
          Unrelated(acc, kids, head[i], tail[j - |head|]);
        } else {
          assert l[i] == tail[i - |head|] && l[j] == tail[j - |head|];
        }
      }
    }
  }

  lemma Unrelated(acc: Key, kids: seq<Tree>, a: Key, b: Key)
    requires FormedKids(kids) && kids != [] && FormedKids(kids[1..])
    requires a in KeyList(acc, kids[0]) && b in KidsKeyList(acc, kids[1..])
    ensures !(b < a)
  {
    EachKeyOnce(acc, kids[0], a);
    KeyHasFirst(acc, kids[0], a);
    var i := KidsListStarts(acc, kids[1..], b);
    assert kids[1..][i] == kids[i + 1] && First(kids[0]) != First(kids[i + 1]);
  }
}
