/** The trie with failure links: insert_tree, build_fail_ptr and search. */
module AcAutomaton {
  import opened AcWords
  import opened AcBfs
  import opened AcSearch

  const MAXN := 127

  /** A trie node. */
  class Trie {
    var ch: Letter
    var isWord: int
    var isMarked: int
    var failPtr: Trie?
    var next: seq<Trie?>
    var data: nat

    constructor (ch: Letter, level: nat)
      ensures this.ch == ch && isWord == 0 && isMarked == 0 && failPtr == null && data == level
      ensures |next| == MAXN && forall i :: 0 <= i < MAXN ==> next[i] == null
    {
      this.ch := ch;
      isWord, isMarked, failPtr := 0, 0, null;
      next := seq(MAXN, _ => null);
      data := level;
    }
  }

  ghost predicate OwnNodes(nodes: map<Word, Trie>) {
    forall s, t :: s in nodes && t in nodes && nodes[s] == nodes[t] ==> s == t
  }

  class Automaton {
    var root: Trie
    ghost var words: set<Word>
    ghost var nodes: map<Word, Trie>

    /** nodes maps each trie path to its own node, which holds its last letter and its level; the child slots agree. */
    ghost predicate IsTree()
      reads this, nodes.Values
    {
      [] in nodes && nodes[[]] == root && OwnNodes(nodes) && Labelled() && Levelled() && Linked()
    }

    ghost predicate Labelled()
      reads this, nodes.Values
    {
      forall s {:trigger Init(s)} {:trigger nodes[s].ch} :: s in nodes && s != [] ==>
        Init(s) in nodes && nodes[s].ch == Last(s)
    }

    ghost predicate Levelled()
      reads this, nodes.Values
    {
      forall s {:trigger nodes[s].data} :: s in nodes ==> nodes[s].data == |s|
    }

    ghost predicate Linked()
      reads this, nodes.Values
    {
      && (forall s :: s in nodes ==> |nodes[s].next| == MAXN)
      && (forall s, c: Letter :: s in nodes ==>
            nodes[s].next[c] == if s + [c] in nodes then nodes[s + [c]] else null)
    }

    /** The word and mark flags are 0 or 1, and the word flags say which paths are words. */
    ghost predicate Flagged()
      reads this, nodes.Values
    {
      && words <= nodes.Keys
      && (forall s {:trigger nodes[s].isWord} :: s in nodes ==> nodes[s].isWord == if s in words then 1 else 0)
      && (forall s {:trigger nodes[s].isMarked} :: s in nodes ==>
            nodes[s].isMarked == 0 || (nodes[s].isMarked == 1 && s in words))
    }

    /** The flags are those given, and 0 for a path without any. */
    ghost predicate FlagsAre(was: map<Word, (int, int)>)
      reads this, nodes.Values
    {
      forall s {:trigger nodes[s].isWord} {:trigger nodes[s].isMarked} :: s in nodes ==>
        (nodes[s].isWord, nodes[s].isMarked) == if s in was then was[s] else (0, 0)
    }

    ghost function Flags(): map<Word, (int, int)>
      reads this, nodes.Values
    {
      map s | s in nodes :: (nodes[s].isWord, nodes[s].isMarked)
    }

    /** The trie of the words inserted so far. */
    ghost predicate Valid()
      reads this, nodes.Values
    {
      IsTree() && Flagged() && forall s :: s in nodes <==> IsPath(words, s)
    }

    /** The words counted so far. */
    ghost function Marked(): set<Word>
      reads this, nodes.Values
    {
      set s | s in nodes && nodes[s].isMarked == 1
    }

    constructor ()
      ensures Valid() && fresh(nodes.Values) && words == {} && Marked() == {}
    {
      var r := new Trie(114, 0);
      root := r;
      words := {};
      nodes := map[[] := r];
    }

    /** create_node below cur. */
    method AddChild(cur: Trie, c: Letter, level: nat, ghost s: Word) returns (child: Trie)
      requires IsTree() && s in nodes && nodes[s] == cur && s + [c] !in nodes && level == |s| + 1
      modifies this`nodes, cur`next
      ensures IsTree() && fresh(child) && nodes == old(nodes)[s + [c] := child]
      ensures child.isWord == 0 && child.isMarked == 0 && child.failPtr == null
    {
      child := new Trie(c, level);
      ghost var w := s + [c];
      InitLast(s, c);
      assert level == |w|;
      assert forall d: Letter :: w + [d] !in nodes by {
        forall d: Letter ensures w + [d] !in nodes {
          InitLast(w, d);
        }
      }
      cur.next := cur.next[c := child];
      nodes := nodes[w := child];
      assert OwnNodes(nodes);
      assert Labelled() && Levelled();
      forall t, d: Letter | t in nodes
        ensures nodes[t].next[d] == if t + [d] in nodes then nodes[t + [d]] else null
      {
        InitLast(t, d);
      }
    }

    /** The child for one byte, created if it is missing. */
    method ChildFor(cur: Trie, c: Letter, level: nat, ghost s: Word, ghost was: map<Word, (int, int)>)
      returns (child: Trie)
      requires IsTree() && FlagsAre(was) && s in nodes && nodes[s] == cur
      requires level == |s| + 1 && (s + [c] in was ==> s + [c] in nodes)
      modifies this`nodes, cur`next
      ensures IsTree() && FlagsAre(was) && s + [c] in nodes && child == nodes[s + [c]]
      ensures if s + [c] in old(nodes) then nodes == old(nodes)
              else nodes == old(nodes)[s + [c] := child] && fresh(child)
    {
      var slot := cur.next[c];
      if slot == null {
        child := AddChild(cur, c, level, s);
      } else {
        child := slot;
      }
    }

    /** Walks down a word, creating the missing nodes. */
    method AddPath(w: Word, ghost was: map<Word, (int, int)>) returns (cur: Trie)
      requires IsTree() && FlagsAre(was) && was.Keys <= nodes.Keys
      modifies this`nodes, nodes.Values`next
      ensures IsTree() && FlagsAre(was) && w in nodes && cur == nodes[w] && Grown(old(nodes), nodes, w)
      ensures forall s {:trigger nodes[s]} :: s in nodes && s !in old(nodes) ==> fresh(nodes[s])
    {
      cur := root;
      var i := 0;
      while i < |w|
        invariant i <= |w| && IsTree() && FlagsAre(was) && w[..i] in nodes && cur == nodes[w[..i]]
        invariant Grown(old(nodes), nodes, w[..i])
        invariant forall s {:trigger nodes[s]} :: s in nodes && s !in old(nodes) ==> fresh(nodes[s])
      {
        ghost var before := nodes;
        var child := ChildFor(cur, w[i], i + 1, w[..i], was);
        assert w[..i + 1] == w[..i] + [w[i]];
        GrownStep(old(nodes), before, nodes, w[..i], w[i]);
        cur := child;
        i := i + 1;
      }
      assert w[..i] == w;
    }

    method AddUnflagged(w: Word) returns (cur: Trie)
      requires IsTree() && Flagged()
      modifies this`nodes, nodes.Values`next
      ensures IsTree() && Flagged() && w in nodes && cur == nodes[w] && Grown(old(nodes), nodes, w)
      ensures Marked() == old(Marked()) && fresh(nodes.Values - old(nodes.Values))
    {
      cur := AddPath(w, Flags());
      assert forall s :: s in Marked() <==> s in old(Marked());
    }

    method FlagWord(cur: Trie, w: Word)
      requires IsTree() && Flagged() && w in nodes && cur == nodes[w]
      modifies this`words, cur`isWord
      ensures IsTree() && Flagged() && words == old(words) + {w} && Marked() == old(Marked())
    {
      cur.isWord := 1;
      words := words + {w};
    }

    /** Adds a word: its missing nodes are created and the last one is flagged. */
    method InsertTree(w: Word) returns (ok: bool)
      requires Valid()
      modifies this`nodes, this`words, nodes.Values
      ensures Valid() && ok && words == old(words) + {w} && Marked() == old(Marked())
      ensures fresh(nodes.Values - old(nodes.Values)) && old(nodes.Keys) <= nodes.Keys
    {
      var cur := AddUnflagged(w);
      PathsGrown(old(nodes.Keys), nodes.Keys, words, w);
      FlagWord(cur, w);
      ok := true;
    }

    // ----- failure links

    /** The failure links of the paths in `good` are right, and the root has none. */
    ghost predicate FailsAt(good: set<Word>)
      reads this, nodes.Values
    {
      && [] in nodes && nodes[[]].failPtr == null
      && (forall s {:trigger nodes[s].failPtr} {:trigger Fail(words, s)} :: s in good && s != [] ==>
            s in nodes && Fail(words, s) in nodes && nodes[s].failPtr == nodes[Fail(words, s)])
    }

    /** Every failure link is right. */
    ghost predicate FailsBuilt()
      reads this, nodes.Values
    {
      FailsAt(nodes.Keys)
    }

    /** Follows the failure chain of cur to the first node with a child for c, and returns that child. */
    method DoFindFailPtr(cur: Trie, c: Letter, defaultPtr: Trie, ghost s: Word, ghost good: set<Word>)
      returns (result: Trie)
      requires Valid() && FailsAt(good) && s in nodes && cur == nodes[s] && defaultPtr == root
      requires forall f :: f in nodes && |f| <= |s| ==> f in good
      ensures Fail(words, s + [c]) in nodes && result == nodes[Fail(words, s + [c])]
    {
      ghost var target := Fail(words, s + [c]);
      result := defaultPtr;
      var ptrfail := cur.failPtr;
      ghost var f: Word := [];
      if s != [] {
        f := Fail(words, s);
        ChainStart(words, s, c);
      } else {
        assert (s + [c])[1..] == [];
      }
      while ptrfail != null
        invariant result == root
        invariant ptrfail != null ==>
                    f in nodes && nodes[f] == ptrfail && |f| < |s| && Longest(words, f + [c]) == target
        invariant ptrfail == null ==> target == []
        decreases if ptrfail == null then 0 else |f| + 1
      {
        if ptrfail.next[c] != null {
          result := ptrfail.next[c];
          break;
        }
        ChainStep(words, f, c);
        ptrfail := ptrfail.failPtr;
        if f != [] {
          f := Fail(words, f);
        }
      }
    }

    method WriteFail(child: Trie, target: Trie, ghost w: Word, ghost good: set<Word>)
      requires Valid() && FailsAt(good) && w in nodes && w != [] && child == nodes[w]
      requires Fail(words, w) in nodes && target == nodes[Fail(words, w)]
      modifies child`failPtr
      ensures Valid() && FailsAt(good + {w})
    {
      assert forall s :: s in nodes && s != w ==> nodes[s] != child;
      child.failPtr := target;
      forall s | s in good + {w} && s != []
        ensures s in nodes && Fail(words, s) in nodes && nodes[s].failPtr == nodes[Fail(words, s)]
      {
        if s != w {
          assert old(nodes[s].failPtr) == nodes[Fail(words, s)];
        }
      }
    }

    /** Sets the failure link of one child. */
    method SetFail(cur: Trie, i: Letter, ghost s: Word, ghost good: set<Word>) returns (child: Trie)
      requires Valid() && FailsAt(good) && s in nodes && cur == nodes[s] && s + [i] in nodes
      requires forall f :: f in nodes && |f| <= |s| ==> f in good
      modifies nodes.Values`failPtr
      ensures Valid() && FailsAt(good + {s + [i]}) && child == nodes[s + [i]]
    {
      child := cur.next[i];
      InitLast(s, i);
      var target := DoFindFailPtr(cur, child.ch, root, s, good);
      WriteFail(child, target, s + [i], good);
    }

    /** The queue entries are the nodes of these paths. */
    ghost predicate Queues(q: seq<Trie>, paths: seq<Word>)
      reads this
    {
      |q| == |paths| && forall i :: 0 <= i < |q| ==> paths[i] in nodes && nodes[paths[i]] == q[i]
    }

    /** One child slot: nothing if it is empty, else the child's failure link is set and the child queued. */
    method VisitSlot(cur: Trie, i: Letter, q: seq<Trie>, ghost s: Word, ghost paths: seq<Word>, ghost good: set<Word>)
      returns (q': seq<Trie>)
      requires Valid() && FailsAt(good) && s in nodes && cur == nodes[s] && Queues(q, paths)
      requires forall f :: f in nodes && |f| <= |s| ==> f in good
      modifies nodes.Values`failPtr
      ensures Valid() && FailsAt(good + Elements(Slot(nodes.Keys, s, i))) && Queues(q', paths + Slot(nodes.Keys, s, i))
    {
      if cur.next[i] != null {
        var child := SetFail(cur, i, s, good);
        assert Elements([s + [i]]) == {s + [i]};
        q' := q + [child];
      } else {
        assert good + Elements([]) == good && paths + [] == paths;
        q' := q;
      }
    }

    /** The loop over the child slots of one node. */
    method SetChildFails(cur: Trie, q: seq<Trie>, ghost s: Word, ghost paths: seq<Word>, ghost good: set<Word>)
      returns (q': seq<Trie>)
      requires Valid() && FailsAt(good) && s in nodes && cur == nodes[s] && Queues(q, paths)
      requires forall f :: f in nodes && |f| <= |s| ==> f in good
      modifies nodes.Values`failPtr
      ensures Valid() && FailsAt(good + Elements(Children(nodes.Keys, s, MAXN)))
      ensures Queues(q', paths + Children(nodes.Keys, s, MAXN))
    {
      q' := q;
      var i := 0;
      assert good + Elements([]) == good && paths + [] == paths;
      while i < MAXN
        invariant 0 <= i <= MAXN && Valid() && FailsAt(good + Elements(Children(nodes.Keys, s, i)))
        invariant Queues(q', paths + Children(nodes.Keys, s, i))
      {
        ghost var kids := Children(nodes.Keys, s, i);
        q' := VisitSlot(cur, i, q', s, paths + kids, good + Elements(kids));
        SlotJoins(nodes.Keys, s, i, paths, good);
        i := i + 1;
      }
    }

    /** Takes one node off the queue and sets its children's failure links. */
    method ProcessHead(q: seq<Trie>, ghost paths: seq<Word>, ghost done: set<Word>) returns (q': seq<Trie>)
      requires Valid() && q != [] && Queues(q, paths) && Bfs(nodes.Keys, paths, done) && FailsAt(done + Elements(paths))
      modifies nodes.Values`failPtr
      ensures Valid() && Queues(q', paths[1..] + Children(nodes.Keys, paths[0], MAXN))
      ensures FailsAt(done + {paths[0]} + Elements(paths[1..] + Children(nodes.Keys, paths[0], MAXN)))
    {
      ghost var s, good := paths[0], done + Elements(paths);
      forall f | f in nodes && |f| <= |s| ensures f in good {
        BfsReached(nodes.Keys, paths, done, f);
      }
      q' := SetChildFails(q[0], q[1..], s, paths[1..], good);
      QueueElements(done, paths, Children(nodes.Keys, s, MAXN));
    }

    /** The walk has processed the paths in done and queued the nodes of paths; all these are linked. */
    ghost predicate Walking(q: seq<Trie>, paths: seq<Word>, done: set<Word>)
      reads this, nodes.Values
    {
      Valid() && Queues(q, paths) && Bfs(nodes.Keys, paths, done) && FailsAt(done + Elements(paths))
    }

    method ClearRoot()
      requires Valid()
      modifies root`failPtr
      ensures Valid() && FailsAt({[]})
    {
      root.failPtr := null;
    }

    /** The root's link is null, and the queue holds the root. */
    method StartWalk() returns (q: seq<Trie>)
      requires Valid()
      modifies nodes.Values`failPtr
      ensures Walking(q, [[]], {})
    {
      BfsStart(nodes.Keys);
      ClearRoot();
      assert {} + Elements([[]]) == {[]};
      q := [root];
    }

    /** One turn of the walk: the head's children are linked and queued. */
    method WalkOn(q: seq<Trie>, ghost paths: seq<Word>, ghost done: set<Word>) returns (q': seq<Trie>)
      requires Walking(q, paths, done) && q != []
      modifies nodes.Values`failPtr
      ensures Walking(q', paths[1..] + Children(nodes.Keys, paths[0], MAXN), done + {paths[0]})
      ensures paths[0] in nodes.Keys - done
    {
      BfsStep(nodes.Keys, paths, done);
      q' := ProcessHead(q, paths, done);
    }

    /** When the queue is empty every node is linked. */
    lemma WalkEnds(paths: seq<Word>, done: set<Word>)
      requires Walking([], paths, done)
      ensures FailsBuilt()
    {
      BfsEnd(nodes.Keys, done);
      assert done + Elements(paths) == nodes.Keys;
    }

    method Walk() returns (ghost paths: seq<Word>, ghost done: set<Word>)
      requires Valid()
      modifies nodes.Values`failPtr
      ensures Walking([], paths, done)
    {
      var q := StartWalk();
      paths, done := [[]], {};
      while q != []
        invariant Walking(q, paths, done)
        decreases nodes.Keys - done
      {
        q := WalkOn(q, paths, done);
        paths, done := paths[1..] + Children(nodes.Keys, paths[0], MAXN), done + {paths[0]};
      }
    }

    method SetLinks()
      requires Valid()
      modifies nodes.Values`failPtr
      ensures Valid() && FailsBuilt()
    {
      ghost var paths, done := Walk();
      WalkEnds(paths, done);
    }

    /** Sets every failure link, shorter paths first. */
    method BuildFailPtr() returns (ok: bool)
      requires Valid()
      modifies nodes.Values`failPtr
      ensures Valid() && FailsBuilt() && ok && Marked() == old(Marked())
    {
      SetLinks();
      ok := true;
    }

    // ----- search

    /** Counts the node's word if it is one and was not counted before. */
    method CheckAndCount(cur: Trie, ghost s: Word) returns (count: int)
      requires Valid() && FailsBuilt() && s in nodes && cur == nodes[s]
      modifies cur`isMarked
      ensures Valid() && FailsBuilt() && Marked() == old(Marked()) + {s} * words
      ensures count == |Marked()| - |old(Marked())|
    {
      if cur.isWord != 0 && cur.isMarked == 0 {
        MarkNode(cur, s);
        return cur.isWord;
      }
      assert {s} * words <= Marked();
      return 0;
    }

    method MarkNode(cur: Trie, ghost s: Word)
      requires Valid() && FailsBuilt() && s in nodes && cur == nodes[s] && s in words && cur.isMarked == 0
      modifies cur`isMarked
      ensures Valid() && FailsBuilt() && s !in old(Marked()) && Marked() == old(Marked()) + {s}
      ensures |Marked()| == |old(Marked())| + 1 && cur.isWord == 1
    {
      WriteMark(cur, s);
      assert Marked() == old(Marked()) + {s};
    }

    method WriteMark(cur: Trie, ghost s: Word)
      requires Valid() && FailsBuilt() && s in nodes && cur == nodes[s] && s in words
      modifies cur`isMarked
      ensures Valid() && FailsBuilt() && cur.isMarked == 1
      ensures forall t :: t in nodes && t != s ==> nodes[t].isMarked == old(nodes[t].isMarked)
    {
      assert forall t :: t in nodes && t != s ==> nodes[t] != cur;
      cur.isMarked := 1;
    }

    /** One link of a failure chain. */
    method FollowFail(start: Trie, ghost s: Word) returns (cur: Trie, count: int)
      requires Valid() && FailsBuilt() && s in nodes && start == nodes[s] && start != root
      modifies nodes.Values`isMarked
      ensures Valid() && FailsBuilt() && s != [] && Fail(words, s) in nodes && cur == nodes[Fail(words, s)]
      ensures Marked() == old(Marked()) + {Fail(words, s)} * words && count == |Marked()| - |old(Marked())|
    {
      assert s != [];
      cur := start.failPtr;
      count := CheckAndCount(cur, Fail(words, s));
    }

    /** A mismatch: every node on the failure chain is checked, down to the root. */
    method DrainChain(start: Trie, ghost s: Word) returns (cur: Trie, count: int)
      requires Valid() && FailsBuilt() && s in nodes && start == nodes[s]
      modifies nodes.Values`isMarked
      ensures Valid() && FailsBuilt() && cur == root && Marked() == old(Marked()) + Chain(words, s) * words
      ensures count == |Marked()| - |old(Marked())|
    {
      cur, count := start, 0;
      ghost var f, seen, first, all := s, {}, Marked(), Chain(words, s);
      while cur != root
        invariant Valid() && FailsBuilt() && f in nodes && cur == nodes[f]
        invariant Splits(all, seen, Chain(words, f))
        invariant Marked() == first + seen * words && count == |Marked()| - |first|
        decreases |f|
      {
        ghost var g := Fail(words, f);
        var n;
        cur, n := FollowFail(cur, f);
        count := count + n;
        MarksAdd(first, seen, {g}, words);
        SplitsMove(all, seen, {g}, Chain(words, g));
        f, seen := g, seen + {g};
      }
      assert f == [];
    }

    /** One byte of the text. */
    method SearchStep(start: Trie, ch: Letter, ghost s: Word) returns (cur: Trie, count: int)
      requires Valid() && FailsBuilt() && s in nodes && start == nodes[s]
      modifies nodes.Values`isMarked
      ensures Valid() && FailsBuilt()
      ensures NextNode(words, s, ch) in nodes && cur == nodes[NextNode(words, s, ch)]
      ensures Marked() == old(Marked()) + Checked(words, s, ch) * words
      ensures count == |Marked()| - |old(Marked())|
      ensures forall w :: w in words && w !in old(Marked()) ==>
                (w in Marked() <==> if IsPath(words, s + [ch]) then w == s + [ch] else IsProperSuffix(w, s))
    {
      ghost var t := s + [ch];
      forall w | w in words ensures w in Chain(words, s) <==> IsProperSuffix(w, s) {
        ChainIsSuffixes(words, s, w);
      }
      assert start.next[ch] == if t in nodes then nodes[t] else null;
      if start.next[ch] != null {
        assert IsPath(words, t);
        cur := start.next[ch];
        count := CheckAndCount(cur, t);
      } else {
        assert !IsPath(words, t);
        cur, count := DrainChain(start, s);
      }
    }

    /** Counts the words newly found in the text. */
    method Search(text: Word) returns (count: int)
      requires Valid() && FailsBuilt()
      modifies nodes.Values`isMarked
      ensures Valid() && FailsBuilt() && count == |Marked()| - |old(Marked())|
      ensures forall w :: w in Marked() <==> w in old(Marked()) || (w in words && Found(words, text, w))
    {
      count := 0;
      var cur, idx := root, 0;
      ghost var s: Word, seen: set<Word>, first, all := [], {}, Marked(), Visits(words, [], text);
      assert text[0..] == text;
      while idx < |text|
        invariant 0 <= idx <= |text| && Valid() && FailsBuilt() && s in nodes && cur == nodes[s]
        invariant Splits(all, seen, Visits(words, s, text[idx..]))
        invariant Marked() == first + seen * words && count == |Marked()| - |first|
      {
        ghost var t, more := NextNode(words, s, text[idx]), Checked(words, s, text[idx]);
        VisitsUnroll(words, s, text, idx);
        var n;
        cur, n := SearchStep(cur, text[idx], s);
        count := count + n;
        MarksAdd(first, seen, more, words);
        SplitsMove(all, seen, more, Visits(words, t, text[idx + 1..]));
        s, seen := t, seen + more;
        idx := idx + 1;
      }
      forall w | w in words ensures w in seen <==> Found(words, text, w) {
        VisitsFresh(words, text, w);
      }
    }
  }

  lemma MarksAdd(first: set<Word>, seen: set<Word>, more: set<Word>, words: set<Word>)
    ensures first + seen * words + more * words == first + (seen + more) * words
  {}

  ghost predicate Splits(all: set<Word>, seen: set<Word>, rest: set<Word>) {
    all == seen + rest
  }

  lemma SplitsMove(all: set<Word>, seen: set<Word>, more: set<Word>, rest: set<Word>)
    requires Splits(all, seen, more + rest)
    ensures Splits(all, seen + more, rest)
  {}

  lemma VisitsUnroll(W: set<Word>, s: Word, text: Word, i: nat)
    requires i < |text|
    ensures Visits(W, s, text[i..]) == Checked(W, s, text[i]) + Visits(W, NextNode(W, s, text[i]), text[i + 1..])
  {
    assert text[i..][1..] == text[i + 1..];
  }

  ghost function Elements(q: seq<Word>): set<Word> {
    set s | s in q
  }

  /** The child of s for one letter, if it is among the paths. */
  ghost function Slot(K: set<Word>, s: Word, i: Letter): seq<Word> {
    if s + [i] in K then [s + [i]] else []
  }

  lemma SlotJoins(K: set<Word>, s: Word, i: Letter, paths: seq<Word>, good: set<Word>)
    ensures var kids, more := Children(K, s, i), Children(K, s, i + 1);
            paths + kids + Slot(K, s, i) == paths + more
            && good + Elements(kids) + Elements(Slot(K, s, i)) == good + Elements(more)
  {
    assert Children(K, s, i + 1) == Children(K, s, i) + Slot(K, s, i);
  }

  lemma QueueElements(done: set<Word>, q: seq<Word>, kids: seq<Word>)
    requires q != []
    ensures done + Elements(q) + Elements(kids) == done + {q[0]} + Elements(q[1..] + kids)
  {
    forall s | s in q && s != q[0] ensures s in q[1..] {
      InTail(q, s);
    }
  }

  /** nodes is `before` with nodes for the prefixes of p added. */
  ghost predicate Grown(before: map<Word, Trie>, nodes: map<Word, Trie>, p: Word) {
    && (forall s :: s in before ==> s in nodes && nodes[s] == before[s])
    && (forall s :: s in nodes <==> s in before || s <= p)
  }

  lemma GrownStep(before: map<Word, Trie>, mid: map<Word, Trie>, after: map<Word, Trie>, p: Word, c: Letter)
    requires Grown(before, mid, p) && p + [c] in after
    requires if p + [c] in mid then after == mid else after == mid[p + [c] := after[p + [c]]]
    ensures Grown(before, after, p + [c])
  {
    forall s ensures s in after <==> s in before || s <= p + [c] {
      if s <= p + [c] && |s| <= |p| { assert s == (p + [c])[..|s|] == p[..|s|]; }
      if s <= p + [c] && |s| > |p| { assert s == p + [c]; }
      if s <= p { assert s <= p + [c]; }
    }
  }

  lemma PathsGrown(before: set<Word>, after: set<Word>, words: set<Word>, w: Word)
    requires forall s :: s in before <==> IsPath(words, s)
    requires forall s :: s in after <==> s in before || s <= w
    ensures forall s :: s in after <==> IsPath(words + {w}, s)
  {
    forall s ensures s in after <==> IsPath(words + {w}, s) {
      if s in before && s != [] {
        var x :| x in words && s <= x;
        assert x in words + {w};
      }
      if s <= w { assert w in words + {w}; }
    }
  }
}
