/** The breadth-first order in which failure links are set, on the set of trie paths. */
module AcBfs {
  import opened AcWords

  ghost predicate PrefixClosed(K: set<Word>) {
    [] in K && forall s :: s in K && s != [] ==> Init(s) in K
  }

  /** The children of s among the paths K, for the letters below n, in letter order. */
  ghost function Children(K: set<Word>, s: Word, n: nat): (r: seq<Word>)
    requires n <= 127
    ensures forall i :: 0 <= i < |r| ==> r[i] in K && r[i] != [] && Init(r[i]) == s && Last(r[i]) < n
    ensures forall i, j :: 0 <= i < j < |r| ==> r[i] != r[j]
  {
    if n == 0 then [] else
      var front := Children(K, s, n - 1);
      if s + [n - 1] in K then InitLast(s, n - 1); front + [s + [n - 1]] else front
  }

  lemma {:induction false} ChildrenComplete(K: set<Word>, s: Word, n: nat, c: Letter)
    requires c < n <= 127 && s + [c] in K
    ensures s + [c] in Children(K, s, n)
  {
    if c < n - 1 {
      ChildrenComplete(K, s, n - 1, c);
    }
  }

  /** The queue holds no path twice, shorter ones first, and at most two lengths. */
  ghost predicate Ordered(q: seq<Word>) {
    && (forall i, j :: 0 <= i < j < |q| ==> q[i] != q[j])
    && (forall i, j :: 0 <= i < j < |q| ==> |q[i]| <= |q[j]| <= |q[i]| + 1)
  }

  /** What was ever queued is the empty path and the children of what was processed. */
  ghost predicate Frontier(K: set<Word>, q: seq<Word>, done: set<Word>) {
    && done <= K && ([] in done || [] in q)
    && (forall i :: 0 <= i < |q| ==> q[i] in K && q[i] !in done)
    && (forall s :: s in K && s != [] ==> (Init(s) in done <==> s in done || s in q))
  }

  /** Everything shorter than the head of the queue has been processed. */
  ghost predicate Layered(K: set<Word>, q: seq<Word>, done: set<Word>) {
    q != [] ==> forall s :: s in K && |s| < |q[0]| ==> s in done
  }

  /** The queue q and the processed paths `done` are those of a breadth-first walk over K. */
  ghost predicate Bfs(K: set<Word>, q: seq<Word>, done: set<Word>) {
    Ordered(q) && Frontier(K, q, done) && Layered(K, q, done)
  }

  lemma BfsStart(K: set<Word>)
    requires PrefixClosed(K)
    ensures Bfs(K, [[]], {})
  {}

  /** Everything no longer than the head of the queue has been put into it. */
  lemma BfsReached(K: set<Word>, q: seq<Word>, done: set<Word>, s: Word)
    requires PrefixClosed(K) && Bfs(K, q, done) && q != [] && s in K && |s| <= |q[0]|
    ensures s in done || s in q
  {
    if s != [] {
      assert Init(s) in done;
    }
  }

  lemma InTail(q: seq<Word>, s: Word)
    requires q != [] && s in q && s != q[0]
    ensures s in q[1..]
  {
    var i :| 0 <= i < |q| && q[i] == s;
    assert q[1..][i - 1] == s;
  }

  /** Processing the head: its children join the queue. */
  lemma BfsStep(K: set<Word>, q: seq<Word>, done: set<Word>)
    requires PrefixClosed(K) && Bfs(K, q, done) && q != []
    ensures Bfs(K, q[1..] + Children(K, q[0], 127), done + {q[0]})
  {
    StepOrdered(K, q, done);
    StepFrontier(K, q, done);
    StepLayered(K, q, done);
  }

  lemma StepFrontier(K: set<Word>, q: seq<Word>, done: set<Word>)
    requires PrefixClosed(K) && Bfs(K, q, done) && q != []
    ensures Frontier(K, q[1..] + Children(K, q[0], 127), done + {q[0]})
  {
    var kids := Children(K, q[0], 127);
    var q', done' := q[1..] + kids, done + {q[0]};
    forall i | 0 <= i < |q'| ensures q'[i] in K && q'[i] !in done' {
      if i < |q| - 1 {
        assert q'[i] == q[i + 1] && q[0] != q[i + 1];
      } else {
        NewChild(K, q, done, kids[i - (|q| - 1)]);
      }
    }
    forall s | s in K && s != [] ensures Init(s) in done' <==> s in done' || s in q' {
      BfsCovers(K, q, done, s);
    }
    if [] in q && [] != q[0] {
      InTail(q, []);
    }
  }

  lemma StepLayered(K: set<Word>, q: seq<Word>, done: set<Word>)
    requires PrefixClosed(K) && Bfs(K, q, done) && q != []
    ensures Layered(K, q[1..] + Children(K, q[0], 127), done + {q[0]})
  {
    var q' := q[1..] + Children(K, q[0], 127);
    if q' != [] {
      forall x | x in K && |x| < |q'[0]| ensures x in done + {q[0]} {
        BfsBelow(K, q, done, x);
      }
    }
  }

  lemma NewChild(K: set<Word>, q: seq<Word>, done: set<Word>, x: Word)
    requires Bfs(K, q, done) && q != [] && x in Children(K, q[0], 127)
    ensures x !in done + {q[0]} && x !in q[1..] && |x| == |q[0]| + 1
  {
    assert Init(x) == q[0] && q[0] !in done;
    assert |x| == |Init(x)| + 1;
    assert x in q[1..] ==> x in q;
  }

  lemma StepOrdered(K: set<Word>, q: seq<Word>, done: set<Word>)
    requires Bfs(K, q, done) && q != []
    ensures Ordered(q[1..] + Children(K, q[0], 127))
  {
    var kids := Children(K, q[0], 127);
    forall x | x in kids ensures x !in q[1..] && |x| == |q[0]| + 1 {
      NewChild(K, q, done, x);
    }
    AppendOrdered(q, kids);
  }

  lemma AppendOrdered(q: seq<Word>, kids: seq<Word>)
    requires q != [] && Ordered(q)
    requires forall i, j :: 0 <= i < j < |kids| ==> kids[i] != kids[j]
    requires forall x :: x in kids ==> x !in q[1..] && |x| == |q[0]| + 1
    ensures Ordered(q[1..] + kids)
  {
    var t := q[1..];
    var q' := t + kids;
    assert forall i :: 0 <= i < |t| ==> q'[i] == q[i + 1] && q'[i] in t;
    assert forall i :: |t| <= i < |q'| ==> q'[i] == kids[i - |t|] && q'[i] in kids;
  }

  lemma BfsCovers(K: set<Word>, q: seq<Word>, done: set<Word>, s: Word)
    requires PrefixClosed(K) && Bfs(K, q, done) && q != [] && s in K && s != []
    ensures var q', done' := q[1..] + Children(K, q[0], 127), done + {q[0]};
            Init(s) in done' <==> s in done' || s in q'
  {
    var kids := Children(K, q[0], 127);
    var q', done' := q[1..] + kids, done + {q[0]};
    if Init(s) == q[0] {
      assert s == q[0] + [Last(s)];
      ChildrenComplete(K, q[0], 127, Last(s));
      assert s in q';
    } else if Init(s) in done {
      if s in q && s != q[0] {
        InTail(q, s);
      }
    } else {
      assert s in q[1..] ==> s in q;
    }
  }

  lemma BfsBelow(K: set<Word>, q: seq<Word>, done: set<Word>, x: Word)
    requires PrefixClosed(K) && Bfs(K, q, done) && q != []
    requires q[1..] + Children(K, q[0], 127) != [] && x in K && |x| < |(q[1..] + Children(K, q[0], 127))[0]|
    ensures x in done + {q[0]}
  {
    var kids := Children(K, q[0], 127);
    var q' := q[1..] + kids;
    assert |q'[0]| <= |q[0]| + 1 by {
      if |q| > 1 {
        assert q'[0] == q[1];
      } else {
        assert q'[0] == kids[0] && |kids[0]| == |Init(kids[0])| + 1;
      }
    }
    BfsReached(K, q, done, x);
    assert |q| > 1 ==> q'[0] == q[1] && forall i :: 1 < i < |q| ==> |q[1]| <= |q[i]|;
  }

  /** When the queue is empty every path has been processed. */
  lemma BfsEnd(K: set<Word>, done: set<Word>)
    requires PrefixClosed(K) && Bfs(K, [], done)
    ensures done == K
  {
    forall s | s in K ensures s in done {
      AllDone(K, done, s);
    }
  }

  lemma {:induction false} AllDone(K: set<Word>, done: set<Word>, s: Word)
    requires PrefixClosed(K) && Bfs(K, [], done) && s in K
    ensures s in done
    decreases |s|
  {
    if s != [] {
      AllDone(K, done, Init(s));
    }
  }
}
