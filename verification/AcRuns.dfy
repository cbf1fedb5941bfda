/** Whole runs: insert all patterns, build the failure links once, then search any number of texts. */
module AcRuns {
  import opened AcWords
  import opened AcSearch
  import opened AcComplete
  import opened AcAutomaton
  import opened Sets

  ghost function FoundWords(W: set<Word>, text: Word): set<Word> {
    set w | w in W && Found(W, text, w)
  }

  ghost function OccurringWords(W: set<Word>, text: Word): set<Word> {
    set w | w in W && Occurs(w, text)
  }

  /** The words counted by one of several searches. */
  ghost function FoundInAny(W: set<Word>, texts: seq<Word>): set<Word> {
    if texts == [] then {} else FoundInAny(W, texts[..|texts| - 1]) + FoundWords(W, texts[|texts| - 1])
  }

  /** Inserts the patterns one by one and sets the failure links. */
  method Build(patterns: seq<Word>) returns (a: Automaton)
    ensures fresh(a) && fresh(a.nodes.Values) && a.Valid() && a.FailsBuilt() && a.Marked() == {}
    ensures a.words == Elements(patterns)
  {
    a := new Automaton();
    var i := 0;
    while i < |patterns|
      invariant 0 <= i <= |patterns| && fresh(a) && fresh(a.nodes.Values) && a.Valid() && a.Marked() == {}
      invariant a.words == Elements(patterns[..i])
    {
      ghost var before := a.nodes.Values;
      var ok := a.InsertTree(patterns[i]);
      assert a.nodes.Values <= before + (a.nodes.Values - before);
      ElementsGrow(patterns, i);
      i := i + 1;
    }
    assert patterns[..i] == patterns;
    var built := a.BuildFailPtr();
  }

  lemma ElementsGrow(patterns: seq<Word>, i: nat)
    requires i < |patterns|
    ensures Elements(patterns[..i + 1]) == Elements(patterns[..i]) + {patterns[i]}
  {
    assert patterns[..i + 1] == patterns[..i] + [patterns[i]];
  }

  /** Several searches in a row: a word is counted by the first search that finds it, and never again. */
  method SearchAll(a: Automaton, texts: seq<Word>) returns (total: int)
    requires a.Valid() && a.FailsBuilt() && a.Marked() == {}
    modifies a.nodes.Values`isMarked
    ensures a.Valid() && a.FailsBuilt() && a.Marked() == FoundInAny(a.words, texts)
    ensures total == |FoundInAny(a.words, texts)|
  {
    if texts == [] {
      return 0;
    }
    var n := |texts| - 1;
    total := SearchAll(a, texts[..n]);
    var count := a.Search(texts[n]);
    assert a.Marked() == FoundInAny(a.words, texts);
    total := total + count;
  }

  /** The number one search reports, from patterns and text alone; it never exceeds what occurs. */
  method CountPatterns(patterns: seq<Word>, text: Word) returns (count: int)
    ensures var W := Elements(patterns);
            count == |FoundWords(W, text)| && count <= |OccurringWords(W, text)|
            && (OneLetter(W) ==> count == |OccurringWords(W, text)|)
  {
    var a := Build(patterns);
    count := a.Search(text);
    ghost var W := Elements(patterns);
    assert a.Marked() == FoundWords(W, text);
    FoundAmongOccurring(W, text);
  }

  lemma FoundAmongOccurring(W: set<Word>, text: Word)
    ensures |FoundWords(W, text)| <= |OccurringWords(W, text)|
    ensures OneLetter(W) ==> FoundWords(W, text) == OccurringWords(W, text)
  {
    forall w | w in FoundWords(W, text) ensures w in OccurringWords(W, text) {
      FoundOccurs(W, text, w);
    }
    SubsetSize(FoundWords(W, text), OccurringWords(W, text));
    CompleteIffOneLetter(W);
  }

  /** A word and a proper suffix of it: a search counts both once a byte follows that continues neither. */
  lemma BothCounted(g: Word, v: Word, c: Letter)
    requires IsProperSuffix(v, g) && !IsPath({g, v}, g + [c])
    ensures |FoundWords({g, v}, g + [c])| == 2
  {
    var W := {g, v};
    assert g <= g && IsSuffix(g, g) && g + [c] + [] == g + [c];
    FoundAtBreak(W, g, c, [], g);
    FoundAtBreak(W, g, c, [], v);
    assert FoundWords(W, g + [c]) == W;
  }

  /** The words she and he: a search of sher counts both, the second on the mismatch at r. */
  lemma CountsSuffix()
    ensures var she: Word, he: Word, sher: Word := [115, 104, 101], [104, 101], [115, 104, 101, 114];
            |FoundWords({she, he}, sher)| == 2
  {
    var she: Word, he: Word, sher: Word := [115, 104, 101], [104, 101], [115, 104, 101, 114];
    assert she + [114] == sher && she[1..] == he;
    assert !IsPath({she, he}, sher);
    BothCounted(she, he, 114);
  }
}
