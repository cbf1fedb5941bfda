/** Whole runs of the radix tree, and what a match means for the stored keys. */
module RadixHistory {
  import opened Bytes
  import opened Heap
  import opened RadixShape
  import opened RadixKeys
  import opened RadixTree
  import opened RadixCanonical
  import opened RadixBounds
  import opened RadixReach

  // ----- match finds the longest common prefix

  function CommonPrefix(a: Key, b: Key): (n: nat)
    ensures n <= |a| && n <= |b| && a[..n] == b[..n]
    ensures n < |a| && n < |b| ==> a[n] != b[n]
  {
    if a == [] || b == [] || a[0] != b[0] then 0 else 1 + CommonPrefix(a[1..], b[1..])
  }

  /** Below the node where a match stopped, no key continues like the matched one. */
  lemma Excluded(acc: Key, c: Tree, j: nat, k: Key)
    requires WellFormedKids(c.kids) && j <= |c.prefix| && acc + c.prefix[..j] <= k && |k| > |acc| + j
    requires if j < |c.prefix| then c.prefix[j] != k[|acc| + j]
             else forall x :: 0 <= x < |c.kids| ==> First(c.kids[x]) != k[|acc| + j]
    ensures k !in KeysFrom(acc, c)
  {
    if k in KeysFrom(acc, c) {
      KeysExtend(acc, c, k);
      if j == |c.prefix| {
        NoKidCount(acc + c.prefix, c.kids, k);
      }
      assert false;
    }
  }

  /** No stored key shares more with the matched key than match reports. */
  lemma NoLongerMatch(t: Tree, path: seq<nat>, key: Key, i: nat, j: nat, k: Key)
    requires WellFormedRoot(t) && Matched(t, path, key, i, j) && k in Keys(t)
    ensures CommonPrefix(key, k) <= i
  {
    if CommonPrefix(key, k) > i {
      var c, acc := At(t, path), Above(t, path);
      SharedByte(key, k, i);
      AtWellFormed(t, path);
      assert |acc| + j == |key[..i]| == i;
      Excluded(acc, c, j, k);
      FirstBelow(acc, c, j, k);
      assert [] + acc == acc;
      WellIsFormed(t.kids);
      CountAt([], t, path, k);
      assert false;
    }
  }

  lemma SharedByte(a: Key, b: Key, i: nat)
    requires CommonPrefix(a, b) > i
    ensures i < |a| && i < |b| && a[..i] <= b && a[i] == b[i]
  {
    var n := CommonPrefix(a, b);
    assert a[..n][..i] == a[..i] && b[..n][..i] == b[..i];
    assert a[..n][i] == a[i] && b[..n][i] == b[i];
  }

  lemma FirstBelow(acc: Key, c: Tree, j: nat, k: Key)
    requires j <= |c.prefix| && acc + c.prefix[..j] <= k
    ensures j > 0 ==> acc + [First(c)] <= k
  {
    if j > 0 {
      assert acc + [First(c)] <= acc + c.prefix[..j];
    }
  }

  lemma SomeFullMatch(t: Tree, path: seq<nat>, key: Key, i: nat, j: nat) returns (k: Key)
    requires WellFormedRoot(t) && Matched(t, path, key, i, j) && Keys(t) != multiset{}
    ensures k in Keys(t) && CommonPrefix(key, k) == i
  {
    var c, acc := At(t, path), Above(t, path);
    if path == [] {
      assert |acc + c.prefix[..j]| == 0;
      k :| k in Keys(t);
    } else {
      AtWellFormed(t, path);
      k := SomeKey(acc, c);
      assert [] + acc == acc;
      KeysBelow([], t, path, k);
      assert key[..i] == acc + c.prefix[..j] <= acc + c.prefix;
      SharesPrefix(key, k, i);
    }
    NoLongerMatch(t, path, key, i, j, k);
  }

  lemma {:induction false} SharesPrefix(a: Key, b: Key, n: nat)
    requires n <= |a| && a[..n] <= b
    ensures CommonPrefix(a, b) >= n
  {
    var m := CommonPrefix(a, b);
    assert forall x :: 0 <= x < n ==> a[..n][x] == a[x] && a[x] == b[x];
  }

  // ----- the reference count is a 32-bit word

  /** One more reference stores one more occurrence exactly while the count fits 32 bits; beyond, it wraps to none. */
  lemma IncrementIsExact(t: Tree, path: seq<nat>, key: Key)
    requires WellFormedRoot(t) && path != [] && ValidPath(t, path)
    requires Matched(t, path, key, |key|, |At(t, path).prefix|)
    ensures var u := Counted(At(t, path), At(t, path).refs + 1);
            Keys(Replace(t, path, u)) == Keys(t) + multiset{key} <==> Keys(t)[key] + 1 < U32_LIMIT
  {
    BumpedKeeps(t, path, key);
    assert Keys(t)[key := 0][key] == 0 && (Keys(t) + multiset{key})[key] > 0;
  }

  /** A tree over one key stored 2^32 - 1 times is well formed, and one more reference leaves no key in it. */
  lemma WrapForgets(root: Addr, leaf: Addr)
    ensures var t, key := Node(root, 0, [], [Node(leaf, 0xFFFF_FFFF, [97], [])]), [97];
            && WellFormedRoot(t) && Keys(t) == Copies(key, 0xFFFF_FFFF) && Matched(t, [0], key, 1, 1)
            && Keys(Replace(t, [0], Counted(At(t, [0]), At(t, [0]).refs + 1))) == multiset{}
  {
    var l: Tree := Node(leaf, 0xFFFF_FFFF, [97], []);
    var t, key: Key := Node(root, 0, [], [l]), [97];
    KidsOne([], l);
    assert [] + [97] == key;
    PathStep(t, [], 0);
    assert [] + [0] == [0];
    assert Keys(t) == Copies(key, 0xFFFF_FFFF);
    BumpedKeeps(t, [0], key);
  }

  // ----- histories

  datatype Op = Add(key: Key) | Remove(key: Key) | Query(key: Key)

  /** Keys are nonempty C strings whose length fits the header. */
  ghost predicate GoodKey(k: Key) {
    k != [] && NulFree(k) && |k| < U32_LIMIT
  }

  ghost function Effect(m: multiset<Key>, op: Op): multiset<Key> {
    match op
    case Add(k) => m + multiset{k}
    case Remove(k) => m - multiset{k}
    case Query(_) => m
  }

  ghost function Answer(m: multiset<Key>, op: Op): bool {
    match op
    case Add(k) => k !in m
    case Remove(k) => k in m
    case Query(k) => k in m
  }

  /** The multiset a history leaves, starting from none. */
  ghost function Replay(ops: seq<Op>): multiset<Key> {
    if ops == [] then multiset{} else Effect(Replay(ops[..|ops| - 1]), ops[|ops| - 1])
  }

  /** The answers a multiset would give to a history. */
  ghost function Answers(ops: seq<Op>): seq<bool> {
    if ops == [] then [] else
      var n := |ops| - 1;
      Answers(ops[..n]) + [Answer(Replay(ops[..n]), ops[n])]
  }

  /** A tree of that many distinct keys occupies at most twice as many blocks, and one for the root. */
  lemma BlocksNeeded(t: Tree)
    requires WellFormedRoot(t) && Distinct(t)
    ensures |Owned(t)| <= 2 * |Support(Keys(t))| + 1
  {
    OwnedCount(t);
    if Keys(t) == multiset{} {
      if t.kids != [] {
        var k := SomeKey([], t.kids[0]);
        KidsSplit([], t.kids, 0);
        RootKeys(t);
        assert false;
      }
    } else {
      AtMostTwiceTheKeys(t);
    }
  }

  lemma LiveBlocks(tree: RadixTree)
    requires tree.Valid()
    ensures tree.heap.mem.Keys == tree.Foreign().Keys + Owned(tree.shape)
    ensures |tree.heap.mem| <= |tree.Foreign()| + 2 * |Support(tree.Contents())| + 1
  {
    HoldsOwned(tree.heap.mem, tree.shape);
    BlocksNeeded(tree.shape);
    var own, other := Owned(tree.shape), tree.Foreign().Keys;
    assert tree.heap.mem.Keys == other + own && other !! own;
    assert |other + own| == |other| + |own|;
  }

  /** In every valid tree its own live blocks are those reached from the root, each by one path of stored pointers. */
  lemma ValidIsReachable(tree: RadixTree)
    requires tree.Valid()
    ensures NothingDangles(tree.heap.mem, tree.root)
    ensures NothingLeaks(tree.heap.mem, tree.root, tree.Foreign().Keys)
    ensures NothingShared(tree.heap.mem, tree.root)
    ensures |tree.heap.mem| <= |tree.Foreign()| + 2 * |Support(tree.Contents())| + 1
  {
    LiveBlocks(tree);
    NeverDangles(tree.heap.mem, tree.shape);
    NeverLeaks(tree.heap.mem, tree.shape, tree.Foreign().Keys);
    NeverShared(tree.heap.mem, tree.shape);
  }

  /** The number of key bytes match reports is the longest prefix the key shares with a stored key. */
  method LongestMatch(tree: RadixTree, buf: seq<Byte>, size: nat) returns (nkey: nat)
    requires tree.Valid() && CString(buf, size)
    ensures forall k :: k in tree.Contents() ==> CommonPrefix(buf[..size], k) <= nkey
    ensures tree.Contents() != multiset{} ==> exists k :: k in tree.Contents() && CommonPrefix(buf[..size], k) == nkey
    ensures tree.Contents() == multiset{} ==> nkey == 0
  {
    var r;
    ghost var path;
    WellIsFormed(tree.shape.kids);
    r, path := tree.Match(buf, size);
    nkey := r.nkey;
    forall k | k in tree.Contents() ensures CommonPrefix(buf[..size], k) <= nkey {
      NoLongerMatch(tree.shape, path, buf[..size], r.nkey, r.nprefix, k);
    }
    if tree.Contents() != multiset{} {
      var k := SomeFullMatch(tree.shape, path, buf[..size], r.nkey, r.nprefix);
    } else {
      NothingMatches(tree.shape, path, buf[..size], r.nkey, r.nprefix);
    }
  }

  lemma NothingMatches(t: Tree, path: seq<nat>, key: Key, i: nat, j: nat)
    requires WellFormedRoot(t) && Matched(t, path, key, i, j) && Keys(t) == multiset{}
    ensures i == 0
  {
    RootKeys(t);
    if t.kids != [] {
      KidsSplit([], t.kids, 0);
      var k := SomeKey([], t.kids[0]);
    }
  }

  /** An insert finds room for its key's count in 32 bits, and for two more blocks among the addresses; others is the
      number of blocks that are not the tree's. */
  ghost predicate OpFits(m: multiset<Key>, others: nat, op: Op) {
    && GoodKey(op.key)
    && (op.Add? ==> m[op.key] + 1 < U32_LIMIT && others + 2 * |Support(m)| + 2 < 0xFFFF_FFFF_FFFF_FFFF)
  }

  /** Every operation of the history fits when its turn comes. */
  ghost predicate AllFit(ops: seq<Op>, others: nat) {
    forall i :: 0 <= i < |ops| ==> OpFits(Replay(ops[..i]), others, ops[i])
  }

  lemma AllButLastFit(ops: seq<Op>, others: nat)
    requires AllFit(ops, others) && ops != []
    ensures var n := |ops| - 1; AllFit(ops[..n], others) && OpFits(Replay(ops[..n]), others, ops[n])
  {
    var n := |ops| - 1;
    forall i | 0 <= i < n ensures OpFits(Replay(ops[..n][..i]), others, ops[..n][i]) {
      assert ops[..n][..i] == ops[..i];
    }
  }

  method AddKey(tree: RadixTree, key: Key) returns (added: bool)
    requires tree.Valid() && OpFits(tree.Contents(), |tree.Foreign()|, Add(key))
    modifies tree, tree.heap
    ensures tree.Valid() && tree.Contents() == Effect(old(tree.Contents()), Add(key))
    ensures tree.Foreign() == old(tree.Foreign()) && added == Answer(old(tree.Contents()), Add(key))
  {
    var buf: seq<Byte> := key + [0];
    assert buf[..|key|] == key && CString(buf, |key|);
    LiveBlocks(tree);
    added := tree.Insert(buf, |key|);
  }

  method RemoveKey(tree: RadixTree, key: Key) returns (removed: bool)
    requires tree.Valid() && GoodKey(key)
    modifies tree, tree.heap
    ensures tree.Valid() && tree.Contents() == Effect(old(tree.Contents()), Remove(key))
    ensures tree.Foreign() == old(tree.Foreign()) && removed == Answer(old(tree.Contents()), Remove(key))
  {
    var buf: seq<Byte> := key + [0];
    assert buf[..|key|] == key && CString(buf, |key|);
    removed := tree.Erase(buf, |key|);
  }

  method FindKey(tree: RadixTree, key: Key) returns (found: bool)
    requires tree.Valid() && GoodKey(key)
    ensures found <==> key in tree.Contents()
  {
    var buf: seq<Byte> := key + [0];
    assert buf[..|key|] == key && CString(buf, |key|);
    WellIsFormed(tree.shape.kids);
    found := tree.Contains(buf, |key|);
  }

  /** One operation of a history, if it fits. */
  method Perform(tree: RadixTree, op: Op) returns (answer: bool)
    requires tree.Valid() && OpFits(tree.Contents(), |tree.Foreign()|, op)
    modifies tree, tree.heap
    ensures tree.Valid() && tree.Contents() == Effect(old(tree.Contents()), op) && tree.Foreign() == old(tree.Foreign())
    ensures answer == Answer(old(tree.Contents()), op)
  {
    if op.Add? {
      answer := AddKey(tree, op.key);
    } else if op.Remove? {
      answer := RemoveKey(tree, op.key);
    } else {
      answer := FindKey(tree, op.key);
    }
  }

  /** Every history on an empty tree behaves as a multiset does, if every operation fits when its turn comes: its key
      is a nonempty C string below 2^32 bytes, and an insert meets neither a full count nor a full address space. */
  method Run(tree: RadixTree, ops: seq<Op>) returns (answers: seq<bool>)
    requires tree.Valid() && tree.Contents() == multiset{} && AllFit(ops, |tree.Foreign()|)
    modifies tree, tree.heap
    ensures tree.Valid() && tree.Contents() == Replay(ops) && answers == Answers(ops)
    ensures tree.Foreign() == old(tree.Foreign())
  {
    if ops == [] {
      return [];
    }
    var n := |ops| - 1;
    AllButLastFit(ops, |tree.Foreign()|);
    answers := Run(tree, ops[..n]);
    var answer := Perform(tree, ops[n]);
    answers := answers + [answer];
  }

  /** Two histories leave the same tree up to sibling order exactly if they leave the same multiset. */
  method TwoHistories(ops: seq<Op>, ops': seq<Op>) returns (tree: RadixTree, tree': RadixTree)
    requires AllFit(ops, 0) && AllFit(ops', 0)
    ensures tree.Valid() && tree.Contents() == Replay(ops) && tree'.Valid() && tree'.Contents() == Replay(ops')
    ensures Same(tree.shape, tree'.shape) <==> Replay(ops) == Replay(ops')
  {
    tree := RunNew(ops);
    tree' := RunNew(ops');
    CanonicalRoot(tree.shape, tree'.shape);
  }

  method RunNew(ops: seq<Op>) returns (tree: RadixTree)
    requires AllFit(ops, 0)
    ensures fresh(tree) && fresh(tree.heap) && tree.Valid() && tree.Contents() == Replay(ops) && tree.Foreign() == map[]
  {
    var h := new Heap();
    RoomFor(h.mem);
    tree := new RadixTree(h);
    var answers := Run(tree, ops);
  }

  /** Erasing a freshly inserted key restores the shape, whichever branches the two calls take. */
  method InsertThenErase(tree: RadixTree, buf: seq<Byte>, size: nat)
    requires tree.Valid() && CString(buf, size) && size < U32_LIMIT
    requires tree.Contents()[buf[..size]] + 1 < U32_LIMIT && |tree.heap.mem| + 1 < 0xFFFF_FFFF_FFFF_FFFF
    modifies tree, tree.heap
    ensures tree.Valid() && tree.Contents() == old(tree.Contents()) && Same(tree.shape, old(tree.shape))
    ensures tree.Foreign() == old(tree.Foreign())
  {
    ghost var t := tree.shape;
    var added := tree.Insert(buf, size);
    var removed := tree.Erase(buf, size);
    Restored(t, tree.shape, buf[..size]);
  }

  lemma Restored(t: Tree, u: Tree, key: Key)
    requires WellFormedRoot(t) && WellFormedRoot(u) && Keys(u) == Keys(t) + multiset{key} - multiset{key}
    ensures Keys(u) == Keys(t) && Same(u, t)
  {
    assert Keys(u) == Keys(t);
    CanonicalRoot(u, t);
  }

  // ----- two trees on one heap

  /** An operation on a tree leaves another tree on the same heap as it is. */
  method PerformBeside(tree: RadixTree, other: RadixTree, op: Op) returns (answer: bool)
    requires tree != other && tree.heap == other.heap && tree.Valid() && other.Valid()
    requires Owned(tree.shape) !! Owned(other.shape) && OpFits(tree.Contents(), |tree.Foreign()|, op)
    modifies tree, tree.heap
    ensures tree.Valid() && tree.Contents() == Effect(old(tree.Contents()), op)
    ensures answer == Answer(old(tree.Contents()), op)
    ensures other.Valid() && other.Contents() == old(other.Contents()) && Owned(tree.shape) !! Owned(other.shape)
  {
    ghost var mem, t := tree.heap.mem, tree.shape;
    answer := Perform(tree, op);
    StaysHeld(mem, tree.heap.mem, t, tree.shape, other.shape);
  }

  lemma StaysHeld(mem: Memory, mem': Memory, t: Tree, t': Tree, u: Tree)
    requires Holds(mem, u) && Owned(t) !! Owned(u) && mem - Owned(t) == mem' - Owned(t')
    ensures Holds(mem', u) && Owned(t') !! Owned(u)
  {
    HoldsOwned(mem, u);
    forall a | a in Owned(u) ensures a in mem' && a in mem && mem'[a] == mem[a] && a !in Owned(t') {
      assert a in mem - Owned(t);
      assert (mem - Owned(t))[a] == (mem' - Owned(t'))[a];
    }
    HoldsFrame(mem, mem', u);
  }
}
