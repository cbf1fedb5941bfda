/** Which words a search counts: first as the automaton visits nodes, then from the text alone. */
module AcSearch {
  import opened AcWords

  /** The nodes on the failure chain of s, down to the root. */
  ghost function Chain(W: set<Word>, s: Word): set<Word>
    decreases |s|
  {
    if s == [] then {} else {Fail(W, s)} + Chain(W, Fail(W, s))
  }

  lemma {:induction false} ChainIsSuffixes(W: set<Word>, s: Word, v: Word)
    ensures v in Chain(W, s) <==> IsProperSuffix(v, s) && IsPath(W, v)
    decreases |s|
  {
    if s != [] {
      ChainIsSuffixes(W, Fail(W, s), v);
      if IsPath(W, v) {
        FailChain(W, s, v);
      }
    }
  }

  /** The node a byte leads to: the child on a match, the root on a mismatch. */
  ghost function NextNode(W: set<Word>, s: Word, c: Letter): Word {
    if IsPath(W, s + [c]) then s + [c] else []
  }

  /** The nodes checked for a byte: the child on a match, the whole failure chain on a mismatch. */
  ghost function Checked(W: set<Word>, s: Word, c: Letter): set<Word> {
    if IsPath(W, s + [c]) then {s + [c]} else Chain(W, s)
  }

  /** The nodes a search checks from node s on. */
  ghost function Visits(W: set<Word>, s: Word, text: Word): set<Word>
    decreases |text|
  {
    if text == [] then {} else Checked(W, s, text[0]) + Visits(W, NextNode(W, s, text[0]), text[1..])
  }

  // ----- the same from the text alone

  /** A piece of the text between two mismatches; cut if a mismatch ends it. */
  datatype Segment = Segment(word: Word, cut: bool)

  lemma PrefixesShift(s: Word, text: Word)
    requires text != []
    ensures forall k :: 0 < k <= |text| ==> s + text[..k] == s + [text[0]] + text[1..][..k - 1]
  {
    forall k | 0 < k <= |text| ensures s + text[..k] == s + [text[0]] + text[1..][..k - 1] {
      assert text[..k] == [text[0]] + text[1..][..k - 1];
    }
  }

  /** How far the text can be followed from s. */
  ghost function Follow(W: set<Word>, s: Word, text: Word): (n: nat)
    ensures n <= |text|
    ensures n < |text| ==> !IsPath(W, s + text[..n + 1])
    ensures forall k :: 0 < k <= n ==> IsPath(W, s + text[..k])
    decreases |text|
  {
    if text == [] || !IsPath(W, s + [text[0]]) then
      assert text != [] ==> text[..1] == [text[0]];
      0
    else
      var n := Follow(W, s + [text[0]], text[1..]);
      PrefixesShift(s, text);
      n + 1
  }

  /** The text cut at the mismatches: each piece is the longest trie path that starts where it starts,
      and the byte that did not match is dropped. */
  ghost function Segments(W: set<Word>, text: Word): seq<Segment>
    decreases |text|
  {
    if text == [] then []
    else
      var n := Follow(W, [], text);
      if n == |text| then [Segment(text, false)]
      else [Segment(text[..n], true)] + Segments(W, text[n + 1..])
  }

  /** What one piece contributes: its nonempty prefixes, and all its suffixes if a mismatch ends it. */
  ghost predicate FoundIn(w: Word, g: Segment) {
    (w != [] && w <= g.word) || (g.cut && g.word != [] && IsSuffix(w, g.word))
  }

  /** A word is counted by a search of the text. */
  ghost predicate Found(W: set<Word>, text: Word, w: Word) {
    exists i :: 0 <= i < |Segments(W, text)| && FoundIn(w, Segments(W, text)[i])
  }

  /** What is counted behind the first len bytes of a followed path g, and, if a mismatch ends it, on the mismatch and
      later. */
  ghost predicate FoundBehind(W: set<Word>, len: nat, g: Word, cut: bool, later: Word, w: Word) {
    || (len < |w| && w <= g)
    || (cut && g != [] && IsProperSuffix(w, g))
    || (cut && Found(W, later, w))
  }

  ghost predicate FoundInRest(W: set<Word>, s: Word, text: Word, w: Word) {
    var n := Follow(W, s, text);
    FoundBehind(W, |s|, s + text[..n], n < |text|, if n < |text| then text[n + 1..] else [], w)
  }

  /** Which words the automaton checks from s on. */
  lemma {:induction false} VisitsRest(W: set<Word>, s: Word, text: Word, w: Word)
    requires IsPath(W, w) && IsPath(W, s)
    ensures w in Visits(W, s, text) <==> FoundInRest(W, s, text, w)
    decreases |text|, |s|
  {
    if text == [] {
      assert s + text[..0] == s;
    } else {
      var c := text[0];
      if IsPath(W, s + [c]) {
        VisitsRest(W, s + [c], text[1..], w);
        MatchRest(W, s, text, w);
      } else {
        assert s + text[..0] == s && text[0 + 1..] == text[1..];
        ChainIsSuffixes(W, s, w);
        VisitsFresh(W, text[1..], w);
      }
    }
  }

  lemma MatchRest(W: set<Word>, s: Word, text: Word, w: Word)
    requires text != [] && IsPath(W, s + [text[0]])
    ensures FoundInRest(W, s, text, w) <==> w == s + [text[0]] || FoundInRest(W, s + [text[0]], text[1..], w)
  {
    var c, rest, n := text[0], text[1..], Follow(W, s, text);
    assert n == Follow(W, s + [c], rest) + 1;
    ShiftOne(s, text, n);
    PrefixSplit(s, c, s + text[..n], w);
  }

  lemma ShiftOne(s: Word, text: Word, n: nat)
    requires 0 < n <= |text|
    ensures s + text[..n] == s + [text[0]] + text[1..][..n - 1] && s + [text[0]] <= s + text[..n]
    ensures n < |text| ==> text[1..][n..] == text[n + 1..]
  {
    assert text[..n] == [text[0]] + text[1..][..n - 1];
  }

  lemma PrefixSplit(s: Word, c: Letter, g: Word, w: Word)
    requires s + [c] <= g
    ensures |s| < |w| && w <= g <==> w == s + [c] || (|s + [c]| < |w| && w <= g)
  {
    if |w| == |s| + 1 && w <= g {
      assert w == g[..|s| + 1] == s + [c];
    }
  }

  /** From the root the automaton checks exactly the words the cut text accounts for. */
  lemma {:induction false} VisitsFresh(W: set<Word>, text: Word, w: Word)
    requires IsPath(W, w)
    ensures w in Visits(W, [], text) <==> Found(W, text, w)
    decreases |text|, 1
  {
    if text == [] {
    } else {
      VisitsRest(W, [], text, w);
      FoundUnrolls(W, text, w);
    }
  }

  lemma FoundUnrolls(W: set<Word>, text: Word, w: Word)
    requires text != []
    ensures Found(W, text, w) <==> FoundInRest(W, [], text, w)
  {
    var n := Follow(W, [], text);
    var segs := Segments(W, text);
    assert [] + text[..n] == text[..n];
    if n == |text| {
      assert text[..n] == text;
      assert segs == [Segment(text, false)];
      if FoundIn(w, segs[0]) { assert Found(W, text, w); }
    } else {
      var rest := Segments(W, text[n + 1..]);
      assert segs == [Segment(text[..n], true)] + rest;
      if FoundIn(w, segs[0]) { assert Found(W, text, w); }
      if Found(W, text[n + 1..], w) {
        var i :| 0 <= i < |rest| && FoundIn(w, rest[i]);
        assert segs[i + 1] == rest[i];
      }
      if Found(W, text, w) && !FoundIn(w, segs[0]) {
        var i :| 0 <= i < |segs| && FoundIn(w, segs[i]);
        assert rest[i - 1] == segs[i];
      }
      FirstPiece(w, text[..n]);
    }
  }

  lemma FirstPiece(w: Word, g: Word)
    ensures FoundIn(w, Segment(g, true)) <==> (0 < |w| && w <= g) || (g != [] && IsProperSuffix(w, g))
  {
    if IsSuffix(w, g) && |w| == |g| {
      assert w == g;
    }
  }

  // ----- what is found, without the cutting

  lemma FollowIs(W: set<Word>, text: Word, n: nat)
    requires n < |text| && IsPath(W, text[..n]) && !IsPath(W, text[..n + 1])
    ensures Follow(W, [], text) == n
  {
    var m := Follow(W, [], text);
    assert [] + text[..n + 1] == text[..n + 1];
    assert m <= n;
    var longer, g := text[..m + 1], text[..n];
    assert [] + longer == longer;
    if m < n {
      PathPrefix(W, g, longer);
      assert false;
    }
  }

  /** A mismatch: behind the followed path g the byte c leads nowhere. Counted are the nonempty prefixes of g, the
      suffixes of g, and what a fresh search of the rest counts. */
  lemma FoundAtBreak(W: set<Word>, g: Word, c: Letter, rest: Word, w: Word)
    requires IsPath(W, g) && !IsPath(W, g + [c])
    ensures Found(W, g + [c] + rest, w) <==>
            (w != [] && w <= g) || (g != [] && IsSuffix(w, g)) || Found(W, rest, w)
  {
    var text := g + [c] + rest;
    assert text[..|g|] == g && text[..|g| + 1] == g + [c] && text[|g| + 1..] == rest;
    FollowIs(W, text, |g|);
    FoundUnrolls(W, text, w);
    assert [] + g == g;
    FirstPiece(w, g);
  }

  lemma FollowsAll(W: set<Word>, text: Word)
    requires IsPath(W, text)
    ensures Follow(W, [], text) == |text|
  {
    var n := Follow(W, [], text);
    var longer := text[..if n < |text| then n + 1 else n];
    PathPrefix(W, text, longer);
    assert [] + longer == longer;
  }

  /** No mismatch: of a text that is a path only the nonempty prefixes are counted, and no other suffix. */
  lemma FoundInPath(W: set<Word>, text: Word, w: Word)
    requires IsPath(W, text)
    ensures Found(W, text, w) <==> w != [] && w <= text
  {
    if text != [] {
      FollowsAll(W, text);
      assert [] + text[..|text|] == text;
      FoundUnrolls(W, text, w);
    }
  }
}
