/** Words, trie paths, suffixes and failure links, independent of any trie in memory. */
module AcWords {
  /** A byte the trie has an edge slot for (MAXN is 127). */
  type Letter = x: int | 0 <= x < 127
  type Word = seq<Letter>

  /** s spells a node of the trie of the words W. */
  ghost predicate IsPath(W: set<Word>, s: Word) {
    s == [] || exists w :: w in W && s <= w
  }

  ghost predicate IsSuffix(v: Word, u: Word) {
    |v| <= |u| && u[|u| - |v|..] == v
  }

  ghost predicate IsProperSuffix(v: Word, u: Word) {
    |v| < |u| && u[|u| - |v|..] == v
  }

  function Init(s: Word): Word
    requires s != []
  {
    s[..|s| - 1]
  }

  function Last(s: Word): Letter
    requires s != []
  {
    s[|s| - 1]
  }

  lemma InitLast(s: Word, c: Letter)
    ensures Init(s + [c]) == s && Last(s + [c]) == c && s + [c] != s
  {}

  lemma PathPrefix(W: set<Word>, s: Word, p: Word)
    requires IsPath(W, s) && p <= s
    ensures IsPath(W, p)
  {
    if s != [] {
      var w :| w in W && s <= w;
      assert p <= w;
    }
  }

  lemma SuffixOfTail(v: Word, u: Word)
    requires u != []
    ensures IsProperSuffix(v, u) <==> IsSuffix(v, u[1..])
  {
    if |v| <= |u| - 1 {
      assert u[1..][|u| - 1 - |v|..] == u[|u| - |v|..];
    }
  }

  lemma SuffixTransitive(v: Word, u: Word, t: Word)
    requires IsSuffix(v, u) && IsSuffix(u, t)
    ensures IsSuffix(v, t)
  {
    assert t[|t| - |v|..] == t[|t| - |u|..][|u| - |v|..];
  }

  lemma SuffixesNest(v: Word, u: Word, t: Word)
    requires IsSuffix(v, t) && IsSuffix(u, t) && |v| <= |u|
    ensures IsSuffix(v, u)
  {
    assert t[|t| - |v|..] == t[|t| - |u|..][|u| - |v|..];
  }

  /** The longest suffix of u that is a path. */
  ghost function Longest(W: set<Word>, u: Word): (r: Word)
    ensures IsPath(W, r) && |r| <= |u|
  {
    if IsPath(W, u) then u else Longest(W, u[1..])
  }

  lemma {:induction false} LongestIsLongest(W: set<Word>, u: Word)
    ensures IsSuffix(Longest(W, u), u)
    ensures forall v :: IsSuffix(v, u) && IsPath(W, v) ==> |v| <= |Longest(W, u)|
  {
    if !IsPath(W, u) {
      LongestIsLongest(W, u[1..]);
      SuffixOfTail(Longest(W, u[1..]), u);
      forall v | IsSuffix(v, u) && IsPath(W, v) ensures |v| <= |Longest(W, u)| {
        assert |v| == |u| ==> v == u;
        SuffixOfTail(v, u);
      }
    }
  }

  /** Where the failure link of the node spelling s points: the longest proper suffix of s that is a path. */
  ghost function Fail(W: set<Word>, s: Word): (r: Word)
    requires s != []
    ensures IsPath(W, r) && |r| < |s|
  {
    Longest(W, s[1..])
  }

  lemma FailIsLongest(W: set<Word>, s: Word)
    requires s != []
    ensures IsProperSuffix(Fail(W, s), s)
    ensures forall v :: IsProperSuffix(v, s) && IsPath(W, v) ==> |v| <= |Fail(W, s)|
  {
    LongestIsLongest(W, s[1..]);
    SuffixOfTail(Fail(W, s), s);
    forall v | IsProperSuffix(v, s) && IsPath(W, v) ensures |v| <= |Fail(W, s)| {
      SuffixOfTail(v, s);
    }
  }

  /** The paths among the proper suffixes of s are its failure target and that target's own proper suffixes. */
  lemma FailChain(W: set<Word>, s: Word, v: Word)
    requires s != [] && IsPath(W, v)
    ensures IsProperSuffix(v, s) <==> v == Fail(W, s) || IsProperSuffix(v, Fail(W, s))
  {
    var f := Fail(W, s);
    FailIsLongest(W, s);
    if IsProperSuffix(v, s) {
      SuffixesNest(v, f, s);
    }
    if IsProperSuffix(v, f) {
      SuffixTransitive(v, f, s);
    }
  }

  /** Extending by a letter: only extensions of suffixes that are paths can be paths. */
  lemma {:induction false} LongestStep(W: set<Word>, u: Word, c: Letter)
    ensures Longest(W, u + [c]) == Longest(W, Longest(W, u) + [c])
  {
    if !IsPath(W, u) {
      if IsPath(W, u + [c]) {
        PathPrefix(W, u + [c], u);
        assert false;
      }
      assert (u + [c])[1..] == u[1..] + [c];
      LongestStep(W, u[1..], c);
    }
  }

  /** One step of the chain walk that looks for the failure link of f + [c]. */
  lemma ChainStep(W: set<Word>, f: Word, c: Letter)
    requires !IsPath(W, f + [c])
    ensures f == [] ==> Longest(W, f + [c]) == []
    ensures f != [] ==> Longest(W, f + [c]) == Longest(W, Fail(W, f) + [c])
  {
    if f == [] {
      assert (f + [c])[1..] == [];
    } else {
      assert (f + [c])[1..] == f[1..] + [c];
      LongestStep(W, f[1..], c);
    }
  }

  /** The chain walk for a child starts at the failure link of the node. */
  lemma ChainStart(W: set<Word>, s: Word, c: Letter)
    requires s != []
    ensures Fail(W, s + [c]) == Longest(W, Fail(W, s) + [c])
  {
    assert (s + [c])[1..] == s[1..] + [c];
    LongestStep(W, s[1..], c);
  }
}
