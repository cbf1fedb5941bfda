/** The multiset of keys a tree denotes, and the shape invariant of the radix tree. */
module RadixKeys {
  import opened Bytes
  import opened RadixShape

  // ----- denotation

  ghost function Copies(k: Key, n: nat): multiset<Key> {
    multiset{}[k := n]
  }

  /** The keys stored in t, each as often as its node's reference count says; acc is spelled above t. */
  ghost function KeysFrom(acc: Key, t: Tree): multiset<Key>
    decreases t, 1
  {
    Copies(acc + t.prefix, t.refs) + KidsKeys(acc + t.prefix, t.kids)
  }

  ghost function KidsKeys(acc: Key, kids: seq<Tree>): multiset<Key>
    decreases kids, 0
  {
    if kids == [] then multiset{} else KeysFrom(acc, kids[0]) + KidsKeys(acc, kids[1..])
  }

  /** The keys of a whole tree. */
  ghost function Keys(t: Tree): multiset<Key> {
    KeysFrom([], t)
  }

  // ----- shape invariant

  ghost predicate DistinctFirsts(kids: seq<Tree>) {
    forall i, j :: 0 <= i < j < |kids| ==> First(kids[i]) != First(kids[j])
  }

  ghost predicate NulFree(s: seq<Byte>) {
    forall i :: 0 <= i < |s| ==> s[i] != 0
  }

  /** What a match relies on: nonempty prefixes without NUL, and siblings that differ in their first byte. */
  ghost predicate Formed(t: Tree)
    decreases t, 1
  {
    t.prefix != [] && NulFree(t.prefix) && t.refs < U32_LIMIT && FormedKids(t.kids)
  }

  ghost predicate FormedKids(kids: seq<Tree>)
    decreases kids, 0
  {
    DistinctFirsts(kids) && forall k :: 0 <= k < |kids| ==> Formed(kids[k])
  }

  ghost predicate FormedRoot(t: Tree) {
    t.prefix == [] && t.refs == 0 && FormedKids(t.kids)
  }

  /** A node other than the root: a nonempty prefix, and a key or at least two edges. */
  ghost predicate WellFormed(t: Tree)
    decreases t, 1
  {
    t.prefix != [] && NulFree(t.prefix) && t.refs < U32_LIMIT && (t.refs == 0 ==> |t.kids| >= 2)
    && WellFormedKids(t.kids)
  }

  ghost predicate WellFormedKids(kids: seq<Tree>)
    decreases kids, 0
  {
    DistinctFirsts(kids) && forall k :: 0 <= k < |kids| ==> WellFormed(kids[k])
  }

  /** The root holds no prefix and no key. */
  ghost predicate WellFormedRoot(t: Tree) {
    t.prefix == [] && t.refs == 0 && WellFormedKids(t.kids)
  }

  lemma {:induction false} WellIsFormed(kids: seq<Tree>)
    requires WellFormedKids(kids)
    ensures FormedKids(kids)
  {
    forall k | 0 <= k < |kids| ensures Formed(kids[k]) {
      WellIsFormed(kids[k].kids);
    }
  }

  lemma {:induction false} AtFormed(t: Tree, path: seq<nat>)
    requires ValidPath(t, path) && FormedKids(t.kids)
    ensures FormedKids(At(t, path).kids)
    ensures path != [] ==> Formed(At(t, path))
  {
    if path != [] {
      AtFormed(t.kids[path[0]], path[1..]);
    }
  }

  lemma FormedUpdate(kids: seq<Tree>, k: nat, u: Tree)
    requires k < |kids| && FormedKids(kids) && Formed(u) && First(u) == First(kids[k])
    ensures FormedKids(kids[k := u])
  {
    var kids' := kids[k := u];
    forall i, j | 0 <= i < j < |kids'| ensures First(kids'[i]) != First(kids'[j]) {
      assert First(kids[i]) != First(kids[j]);
    }
  }

  lemma {:induction false} FormedReplace(t: Tree, path: seq<nat>, u: Tree)
    requires ValidPath(t, path) && path != [] && FormedKids(t.kids)
    requires Formed(u) && First(u) == First(At(t, path))
    ensures FormedKids(Replace(t, path, u).kids)
    ensures Replace(t, path, u) == t.(kids := Replace(t, path, u).kids)
  {
    var k, rest := path[0], path[1..];
    var c := t.kids[k];
    if rest != [] {
      FormedReplace(c, rest, u);
    }
    FormedUpdate(t.kids, k, Replace(c, rest, u));
  }

  lemma {:induction false} AtWellFormed(t: Tree, path: seq<nat>)
    requires ValidPath(t, path) && WellFormedKids(t.kids)
    ensures WellFormedKids(At(t, path).kids)
    ensures path != [] ==> WellFormed(At(t, path))
  {
    if path != [] {
      AtWellFormed(t.kids[path[0]], path[1..]);
    }
  }

  lemma WellFormedUpdate(kids: seq<Tree>, k: nat, u: Tree)
    requires k < |kids| && WellFormedKids(kids) && WellFormed(u) && First(u) == First(kids[k])
    ensures WellFormedKids(kids[k := u])
  {
    var kids' := kids[k := u];
    forall i, j | 0 <= i < j < |kids'| ensures First(kids'[i]) != First(kids'[j]) {
      assert First(kids[i]) != First(kids[j]);
    }
  }

  /** A replaced subtree that is well formed and keeps its first byte keeps the whole tree well formed. */
  lemma {:induction false} WellFormedReplace(t: Tree, path: seq<nat>, u: Tree)
    requires ValidPath(t, path) && path != [] && WellFormedKids(t.kids)
    requires WellFormed(u) && First(u) == First(At(t, path))
    ensures WellFormedKids(Replace(t, path, u).kids)
    ensures Replace(t, path, u) == t.(kids := Replace(t, path, u).kids)
    ensures |Replace(t, path, u).kids| == |t.kids|
  {
    var k, rest := path[0], path[1..];
    var c := t.kids[k];
    if rest != [] {
      WellFormedReplace(c, rest, u);
    }
    WellFormedUpdate(t.kids, k, Replace(c, rest, u));
  }

  // ----- counting keys

  lemma {:induction false} KidsConcat(acc: Key, x: seq<Tree>, y: seq<Tree>)
    ensures KidsKeys(acc, x + y) == KidsKeys(acc, x) + KidsKeys(acc, y)
  {
    if x == [] {
      assert x + y == y;
    } else {
      KidsConcat(acc, x[1..], y);
      ConcatTail(x, y);
      SumAssociates(KeysFrom(acc, x[0]), KidsKeys(acc, x[1..]), KidsKeys(acc, y));
    }
  }

  lemma ConcatTail(x: seq<Tree>, y: seq<Tree>)
    requires x != []
    ensures (x + y)[1..] == x[1..] + y && (x + y)[0] == x[0]
  {
  }

  lemma SumAssociates(a: multiset<Key>, b: multiset<Key>, c: multiset<Key>)
    ensures a + (b + c) == (a + b) + c
  {}

  lemma SumExchange(s: multiset<Key>, r': multiset<Key>, c: multiset<Key>, r: multiset<Key>,
                    c': multiset<Key>, a: multiset<Key>, u: multiset<Key>)
    requires r' + c == r + c' && c' + a == c + u
    ensures (s + r') + a == (s + r) + u
  {
    forall k: Key ensures ((s + r') + a)[k] == ((s + r) + u)[k] {
      assert (r' + c)[k] == (r + c')[k] && (c' + a)[k] == (c + u)[k];
    }
  }

  lemma KidsOne(acc: Key, u: Tree)
    ensures KidsKeys(acc, [u]) == KeysFrom(acc, u)
  {
    assert KidsKeys(acc, [u]) == KeysFrom(acc, u) + KidsKeys(acc, [u][1..]);
  }

  lemma KidsSplit(acc: Key, kids: seq<Tree>, k: nat)
    requires k < |kids|
    ensures KidsKeys(acc, kids) == KidsKeys(acc, kids[..k]) + KeysFrom(acc, kids[k]) + KidsKeys(acc, kids[k + 1..])
  {
    assert kids == kids[..k] + ([kids[k]] + kids[k + 1..]);
    KidsConcat(acc, kids[..k], [kids[k]] + kids[k + 1..]);
    KidsConcat(acc, [kids[k]], kids[k + 1..]);
    KidsOne(acc, kids[k]);
  }

  lemma KidsUpdate(acc: Key, kids: seq<Tree>, k: nat, u: Tree)
    requires k < |kids|
    ensures KidsKeys(acc, kids[k := u]) + KeysFrom(acc, kids[k]) == KidsKeys(acc, kids) + KeysFrom(acc, u)
  {
    KidsSplit(acc, kids, k);
    KidsSplit(acc, kids[k := u], k);
    assert kids[k := u][..k] == kids[..k] && kids[k := u][k + 1..] == kids[k + 1..];
  }

  /** Replacing a subtree exchanges exactly the keys of that subtree. */
  lemma {:induction false} KeysReplace(acc: Key, t: Tree, path: seq<nat>, u: Tree)
    requires ValidPath(t, path)
    ensures KeysFrom(acc, Replace(t, path, u)) + KeysFrom(acc + Above(t, path), At(t, path))
         == KeysFrom(acc, t) + KeysFrom(acc + Above(t, path), u)
    decreases t
  {
    if path == [] {
      assert acc + [] == acc;
    } else {
      var k, rest := path[0], path[1..];
      var c, acc' := t.kids[k], acc + t.prefix;
      KeysReplace(acc', c, rest, u);
      assert acc' + Above(c, rest) == acc + Above(t, path);
      var c' := Replace(c, rest, u);
      KidsUpdate(acc', t.kids, k, c');
      var above := acc + Above(t, path);
      SumExchange(Copies(acc', t.refs), KidsKeys(acc', t.kids[k := c']), KeysFrom(acc', c),
                  KidsKeys(acc', t.kids), KeysFrom(acc', c'), KeysFrom(above, At(t, path)), KeysFrom(above, u));
    }
  }

  /** Every key of a subtree starts with what is spelled down to its root. */
  lemma {:induction false} KeysExtend(acc: Key, t: Tree, k: Key)
    requires k in KeysFrom(acc, t)
    ensures acc + t.prefix <= k
    ensures k != acc + t.prefix ==> exists i :: 0 <= i < |t.kids| && k in KeysFrom(acc + t.prefix, t.kids[i])
    decreases t, 1
  {
    if k != acc + t.prefix {
      var i := KidsExtend(acc + t.prefix, t.kids, k);
    }
  }

  lemma {:induction false} KidsExtend(acc: Key, kids: seq<Tree>, k: Key) returns (i: nat)
    requires k in KidsKeys(acc, kids)
    ensures i < |kids| && k in KeysFrom(acc, kids[i]) && acc + kids[i].prefix <= k
    decreases kids, 0
  {
    if k in KeysFrom(acc, kids[0]) {
      KeysExtend(acc, kids[0], k);
      i := 0;
    } else {
      var j := KidsExtend(acc, kids[1..], k);
      i := j + 1;
    }
  }

  lemma KeyHasFirst(acc: Key, t: Tree, k: Key)
    requires t.prefix != [] && k in KeysFrom(acc, t)
    ensures |k| > |acc| && acc <= k && k[|acc|] == First(t)
  {
    KeysExtend(acc, t, k);
    assert k[|acc|] == (acc + t.prefix)[|acc|];
    assert acc == (acc + t.prefix)[..|acc|];
  }

  ghost predicate Fanned(kids: seq<Tree>) {
    DistinctFirsts(kids) && forall k :: 0 <= k < |kids| ==> kids[k].prefix != []
  }

  lemma WellIsFanned(kids: seq<Tree>)
    requires WellFormedKids(kids)
    ensures Fanned(kids)
  {
  }

  /** A key that continues with the first byte of one child is counted in that child only. */
  lemma {:induction false} KidCount(acc: Key, kids: seq<Tree>, i: nat, k: Key)
    requires i < |kids| && Fanned(kids)
    requires |k| > |acc| && k[|acc|] == First(kids[i])
    ensures KidsKeys(acc, kids)[k] == KeysFrom(acc, kids[i])[k]
  {
    KidsSplit(acc, kids, i);
    if k in KidsKeys(acc, kids[..i]) {
      var j := KidsExtend(acc, kids[..i], k);
      KeyHasFirst(acc, kids[j], k);
      assert false;
    }
    if k in KidsKeys(acc, kids[i + 1..]) {
      var j := KidsExtend(acc, kids[i + 1..], k);
      KeyHasFirst(acc, kids[i + 1..][j], k);
      assert false;
    }
  }

  /** A key that continues with no child's first byte, or does not continue, is in no child. */
  lemma NoKidCount(acc: Key, kids: seq<Tree>, k: Key)
    requires Fanned(kids)
    requires |k| <= |acc| || forall i :: 0 <= i < |kids| ==> First(kids[i]) != k[|acc|]
    ensures k !in KidsKeys(acc, kids)
  {
    if k in KidsKeys(acc, kids) {
      var j := KidsExtend(acc, kids, k);
      KeyHasFirst(acc, kids[j], k);
      assert false;
    }
  }

  /** A key that follows path down to the first byte of the node there is counted in that node only. */
  lemma {:induction false} CountAt(acc: Key, t: Tree, path: seq<nat>, k: Key)
    requires ValidPath(t, path) && FormedKids(t.kids)
    requires path != [] ==> acc + Above(t, path) + [First(At(t, path))] <= k
    ensures KeysFrom(acc, t)[k] == KeysFrom(acc + Above(t, path), At(t, path))[k]
    decreases t
  {
    if path == [] {
      assert acc + [] == acc;
    } else {
      var i, rest := path[0], path[1..];
      var c, acc' := t.kids[i], acc + t.prefix;
      assert acc' + Above(c, rest) == acc + Above(t, path);
      assert acc' + [First(c)] <= k by {
        if rest != [] {
          assert Above(c, rest) == c.prefix + Above(c.kids[rest[0]], rest[1..]);
          assert acc' + [First(c)] <= acc' + Above(c, rest);
        }
      }
      assert k[|acc'|] == First(c);
      CountAt(acc', c, rest, k);
      KidCount(acc', t.kids, i, k);
    }
  }

  /** Every well-formed subtree stores at least one key. */
  lemma {:induction false} SomeKey(acc: Key, t: Tree) returns (k: Key)
    requires WellFormed(t)
    ensures k in KeysFrom(acc, t) && acc + t.prefix <= k
    decreases t
  {
    if t.refs > 0 {
      k := acc + t.prefix;
    } else {
      k := SomeKey(acc + t.prefix, t.kids[0]);
      KidsSplit(acc + t.prefix, t.kids, 0);
    }
  }

  /** Keys of a node below are keys of the tree. */
  lemma {:induction false} KeysBelow(acc: Key, t: Tree, path: seq<nat>, k: Key)
    requires ValidPath(t, path) && k in KeysFrom(acc + Above(t, path), At(t, path))
    ensures k in KeysFrom(acc, t)
    decreases t
  {
    if path == [] {
      assert acc + [] == acc;
    } else {
      var i, rest := path[0], path[1..];
      assert (acc + t.prefix) + Above(t.kids[i], rest) == acc + Above(t, path);
      KeysBelow(acc + t.prefix, t.kids[i], rest, k);
      KidsSplit(acc + t.prefix, t.kids, i);
    }
  }

  // ----- the keys in traversal order

  ghost function KeyList(acc: Key, t: Tree): seq<Key>
    decreases t, 1
  {
    (if t.refs > 0 then [acc + t.prefix] else []) + KidsKeyList(acc + t.prefix, t.kids)
  }

  ghost function KidsKeyList(acc: Key, kids: seq<Tree>): seq<Key>
    decreases kids, 0
  {
    if kids == [] then [] else KeyList(acc, kids[0]) + KidsKeyList(acc, kids[1..])
  }

  lemma {:induction false} KidsKeyListConcat(acc: Key, x: seq<Tree>, y: seq<Tree>)
    ensures KidsKeyList(acc, x + y) == KidsKeyList(acc, x) + KidsKeyList(acc, y)
  {
    if x == [] {
      assert x + y == y;
    } else {
      KidsKeyListConcat(acc, x[1..], y);
      assert (x + y)[1..] == x[1..] + y && (x + y)[0] == x[0];
    }
  }

  lemma KidsKeyListGrows(acc: Key, kids: seq<Tree>, i: nat)
    requires i < |kids|
    ensures KidsKeyList(acc, kids[..i + 1]) == KidsKeyList(acc, kids[..i]) + KeyList(acc, kids[i])
  {
    assert kids[..i + 1] == kids[..i] + [kids[i]];
    KidsKeyListConcat(acc, kids[..i], [kids[i]]);
    assert KidsKeyList(acc, [kids[i]]) == KeyList(acc, kids[i]) + KidsKeyList(acc, [kids[i]][1..]);
  }

  /** The traversal lists each stored key once, however often it is stored. */
  lemma {:induction false} EachKeyOnce(acc: Key, t: Tree, k: Key)
    requires FormedKids(t.kids)
    ensures multiset(KeyList(acc, t))[k] == if k in KeysFrom(acc, t) then 1 else 0
    decreases t, 1
  {
    var acc' := acc + t.prefix;
    EachKidsKeyOnce(acc', t.kids, k);
    if k == acc' {
      NoKidCount(acc', t.kids, k);
    }
  }

  lemma {:induction false} EachKidsKeyOnce(acc: Key, kids: seq<Tree>, k: Key)
    requires FormedKids(kids)
    ensures multiset(KidsKeyList(acc, kids))[k] == if k in KidsKeys(acc, kids) then 1 else 0
    decreases kids, 0
  {
    if kids != [] {
      EachKeyOnce(acc, kids[0], k);
      EachKidsKeyOnce(acc, kids[1..], k);
      if k in KeysFrom(acc, kids[0]) {
        KeyHasFirst(acc, kids[0], k);
        assert forall i :: 0 <= i < |kids[1..]| ==> First(kids[1..][i]) == First(kids[i + 1]) != First(kids[0]);
        NoKidCount(acc, kids[1..], k);
      }
    }
  }
}
