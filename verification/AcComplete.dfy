/** When search counts every word that occurs in the text, as its comment promises, and when it cannot. */
module AcComplete {
  import opened AcWords
  import opened AcSearch

  ghost predicate OccursAt(w: Word, text: Word, p: nat) {
    p + |w| <= |text| && text[p..p + |w|] == w
  }

  ghost predicate Occurs(w: Word, text: Word) {
    exists p: nat :: OccursAt(w, text, p)
  }

  lemma OccursLater(w: Word, text: Word, k: nat)
    requires k <= |text| && Occurs(w, text[k..])
    ensures Occurs(w, text)
  {
    var p: nat :| OccursAt(w, text[k..], p);
    assert text[k..][p..p + |w|] == text[k + p..k + p + |w|];
    assert OccursAt(w, text, k + p);
  }

  /** Soundness: a counted word occurs in the text. */
  lemma {:induction false} FoundOccurs(W: set<Word>, text: Word, w: Word)
    requires Found(W, text, w)
    ensures Occurs(w, text)
    decreases |text|
  {
    FoundUnrolls(W, text, w);
    var n := Follow(W, [], text);
    if n < |text| && Found(W, text[n + 1..], w) {
      FoundOccurs(W, text[n + 1..], w);
      OccursLater(w, text, n + 1);
    } else {
      PieceOccurs(text, n, w);
    }
  }

  lemma PieceOccurs(text: Word, n: nat, w: Word)
    requires n <= |text| && (w <= [] + text[..n] || IsProperSuffix(w, [] + text[..n]))
    ensures Occurs(w, text)
  {
    assert [] + text[..n] == text[..n];
    if w <= text[..n] {
      assert OccursAt(w, text, 0);
    } else {
      assert text[..n][n - |w|..] == text[n - |w|..n];
      assert OccursAt(w, text, n - |w|);
    }
  }

  /** A search of any text counts every word that occurs in it. */
  ghost predicate Complete(W: set<Word>) {
    forall text: Word, w :: w in W && Occurs(w, text) ==> Found(W, text, w)
  }

  ghost predicate AllAre(w: Word, a: Letter) {
    forall i :: 0 <= i < |w| ==> w[i] == a
  }

  /** Every word is a nonempty repetition of one and the same letter. */
  ghost predicate OneLetter(W: set<Word>) {
    exists a: Letter :: Repeats(W, a)
  }

  ghost predicate Repeats(W: set<Word>, a: Letter) {
    forall w :: w in W ==> w != [] && AllAre(w, a)
  }

  // ----- repetitions of one letter are always found

  lemma PathRepeats(W: set<Word>, a: Letter, s: Word)
    requires Repeats(W, a) && IsPath(W, s)
    ensures AllAre(s, a)
  {}

  lemma PieceRepeats(W: set<Word>, a: Letter, text: Word)
    requires Repeats(W, a)
    ensures AllAre(text[..Follow(W, [], text)], a)
  {
    var n := Follow(W, [], text);
    assert [] + text[..n] == text[..n];
    if n > 0 {
      PathRepeats(W, a, text[..n]);
    }
  }

  lemma FoundFirst(W: set<Word>, text: Word, w: Word)
    requires text != [] && w != [] && w <= text[..Follow(W, [], text)]
    ensures Found(W, text, w)
  {
    assert [] + text[..Follow(W, [], text)] == text[..Follow(W, [], text)];
    FoundUnrolls(W, text, w);
  }

  lemma FoundLater(W: set<Word>, text: Word, w: Word)
    requires var n := Follow(W, [], text); n < |text| && Found(W, text[n + 1..], w)
    ensures Found(W, text, w)
  {
    FoundUnrolls(W, text, w);
  }

  lemma {:induction false} RepeatsFound(W: set<Word>, a: Letter, text: Word, w: Word)
    requires Repeats(W, a) && w in W && Occurs(w, text)
    ensures Found(W, text, w)
    decreases |text|
  {
    var p: nat :| OccursAt(w, text, p);
    var n := Follow(W, [], text);
    PieceRepeats(W, a, text);
    if |w| <= n {
      PowersPrefix(w, text[..n], a);
      FoundFirst(W, text, w);
    } else {
      CutIsOther(W, a, text, w, n);
      OccursBehind(w, text, a, p, n);
      RepeatsFound(W, a, text[n + 1..], w);
      FoundLater(W, text, w);
    }
  }

  lemma OccursBehind(w: Word, text: Word, a: Letter, p: nat, n: nat)
    requires OccursAt(w, text, p) && AllAre(w, a) && n < |w| && n < |text| && text[n] != a
    ensures Occurs(w, text[n + 1..])
  {
    OccurrenceBytes(w, text, p);
    assert p > n;
    assert text[n + 1..][p - n - 1..p - n - 1 + |w|] == text[p..p + |w|];
    assert OccursAt(w, text[n + 1..], p - n - 1);
  }

  lemma CutIsOther(W: set<Word>, a: Letter, text: Word, w: Word, n: nat)
    requires Repeats(W, a) && w in W && n == Follow(W, [], text) && n < |w| && n < |text| && AllAre(text[..n], a)
    ensures text[n] != a
  {
    assert [] + text[..n + 1] == text[..n + 1];
    if text[n] == a {
      AllAreMore(text, n, a);
      PowerIsPath(W, a, text[..n + 1], w);
    }
  }

  lemma AllAreMore(text: Word, n: nat, a: Letter)
    requires n < |text| && AllAre(text[..n], a) && text[n] == a
    ensures AllAre(text[..n + 1], a)
  {
    assert text[..n + 1] == text[..n] + [a];
  }

  lemma PowerIsPath(W: set<Word>, a: Letter, g: Word, w: Word)
    requires Repeats(W, a) && w in W && AllAre(g, a) && |g| <= |w|
    ensures IsPath(W, g)
  {
    PowersPrefix(g, w, a);
  }

  lemma PowersPrefix(g: Word, w: Word, a: Letter)
    requires AllAre(g, a) && AllAre(w, a) && |g| <= |w|
    ensures g <= w
  {
  }

  lemma OccurrenceBytes(w: Word, text: Word, p: nat)
    requires OccursAt(w, text, p)
    ensures forall q :: p <= q < p + |w| ==> text[q] == w[q - p]
  {
    assert forall q :: p <= q < p + |w| ==> text[q] == text[p..p + |w|][q - p];
  }

  // ----- any other set of words misses one in some text

  ghost function Power(a: Letter, n: nat): (w: Word)
    ensures |w| == n && AllAre(w, a)
  {
    seq(n, _ => a)
  }

  lemma PowersEqual(u: Word, v: Word, a: Letter)
    requires |u| == |v| && AllAre(u, a) && AllAre(v, a)
    ensures u == v
  {}

  ghost function MaxLength(W: set<Word>): (n: nat)
    ensures forall w :: w in W ==> |w| <= n
  {
    if W == {} then 0 else
      var w :| w in W;
      var n := MaxLength(W - {w});
      if |w| <= n then n else |w|
  }

  lemma {:induction false} LastPower(W: set<Word>, a: Letter, k: nat) returns (m: nat)
    requires IsPath(W, Power(a, k)) && k > 0
    ensures m >= k && IsPath(W, Power(a, m)) && !IsPath(W, Power(a, m + 1))
    decreases MaxLength(W) - k
  {
    if IsPath(W, Power(a, k + 1)) {
      var w :| w in W && Power(a, k + 1) <= w;
      m := LastPower(W, a, k + 1);
    } else {
      m := k;
    }
  }

  /** A word missed because the matched piece does not contain it and the rest is too short. */
  lemma Missed(W: set<Word>, text: Word, w: Word, n: nat)
    requires n == Follow(W, [], text) && n < |text| && |text| - n - 1 < |w| && w != []
    requires !(w <= text[..n]) && !IsProperSuffix(w, text[..n])
    ensures !Found(W, text, w)
  {
    FoundUnrolls(W, text, w);
    assert [] + text[..n] == text[..n];
    if Found(W, text[n + 1..], w) {
      FoundOccurs(W, text[n + 1..], w);
      assert false;
    }
  }

  /** A word that starts with k copies of a letter and goes on with another one is missed behind enough copies. */
  lemma MixedWordMissed(W: set<Word>, w: Word, k: nat) returns (text: Word)
    requires w in W && 0 < k < |w| && AllAre(w[..k], w[0]) && w[k] != w[0]
    ensures Occurs(w, text) && !Found(W, text, w)
  {
    var a := w[0];
    PowersEqual(w[..k], Power(a, k), a);
    assert w[..k] <= w;
    var m := LastPower(W, a, k);
    text := Power(a, m + 1 - k) + w;
    assert text[m + 1 - k..m + 1 - k + |w|] == w;
    assert OccursAt(w, text, m + 1 - k);
    assert text[..m + 1] == Power(a, m + 1 - k) + w[..k];
    PowersEqual(text[..m + 1], Power(a, m + 1), a);
    assert text[..m] == text[..m + 1][..m];
    PowersEqual(text[..m], Power(a, m), a);
    FollowIs(W, text, m);
    NotInPower(w, k, text[..m], a);
    Missed(W, text, w, m);
  }

  lemma NotInPower(w: Word, k: nat, g: Word, a: Letter)
    requires k < |w| && w[k] != a && AllAre(g, a)
    ensures !(w <= g) && !IsProperSuffix(w, g)
  {
    PieceByte(w, k, g);
  }

  lemma PieceByte(w: Word, k: nat, g: Word)
    requires k < |w|
    ensures w <= g || IsProperSuffix(w, g) ==> exists i :: 0 <= i < |g| && g[i] == w[k]
  {
    if w <= g {
      assert g[k] == w[k];
    } else if IsProperSuffix(w, g) {
      assert g[|g| - |w| + k] == g[|g| - |w|..][k];
    }
  }

  lemma PathConstant(W: set<Word>, s: Word, i: nat)
    requires IsPath(W, s) && i < |s| && forall w :: w in W ==> w != [] && AllAre(w, w[0])
    ensures s[i] == s[0]
  {
    var w :| w in W && s <= w;
    assert s[i] == w[i] && s[0] == w[0];
  }

  /** Words over two different letters: the second is missed right behind the first. */
  lemma SecondLetterMissed(W: set<Word>, u: Word, v: Word) returns (text: Word)
    requires u in W && v in W && u != [] && v != [] && AllAre(u, u[0]) && u[0] != v[0]
    requires forall w :: w in W ==> w != [] && AllAre(w, w[0])
    ensures Occurs(v, text) && !Found(W, text, v)
  {
    text := u + v;
    var n := |u|;
    assert text[n..n + |v|] == v;
    assert OccursAt(v, text, n);
    assert text[..n] == u && u <= u;
    if IsPath(W, text[..n + 1]) {
      PathConstant(W, text[..n + 1], n);
      assert false;
    }
    FollowIs(W, text, n);
    NotInPower(v, 0, u, u[0]);
    Missed(W, text, v, n);
  }

  lemma {:induction false} FirstOther(w: Word, i: nat) returns (k: nat)
    requires 0 < i < |w| && w[i] != w[0]
    ensures 0 < k <= i && AllAre(w[..k], w[0]) && w[k] != w[0]
    decreases i
  {
    if j: nat :| 0 < j < i && w[j] != w[0] {
      k := FirstOther(w, j);
    } else {
      k := i;
    }
  }

  lemma SomethingMissed(W: set<Word>) returns (text: Word, w: Word)
    requires !OneLetter(W)
    ensures w in W && Occurs(w, text) && !Found(W, text, w)
  {
    if [] in W {
      text, w := [], [];
      assert OccursAt([], [], 0);
    } else if x, i: nat :| x in W && i < |x| && x[i] != x[0] {
      var k := FirstOther(x, i);
      text := MixedWordMissed(W, x, k);
      w := x;
    } else {
      assert !Repeats(W, 0);
      var u :| u in W;
      assert !Repeats(W, u[0]);
      var v :| v in W && !(v != [] && AllAre(v, u[0]));
      text := SecondLetterMissed(W, u, v);
      w := v;
    }
  }

  /** The promise of search holds for every text exactly if all words repeat one and the same letter. */
  lemma CompleteIffOneLetter(W: set<Word>)
    ensures Complete(W) <==> OneLetter(W)
  {
    if OneLetter(W) {
      var a: Letter :| Repeats(W, a);
      forall text: Word, w | w in W && Occurs(w, text) ensures Found(W, text, w) {
        RepeatsFound(W, a, text, w);
      }
    } else {
      var text, w := SomethingMissed(W);
    }
  }

  /** The words ab and bc: a search of abc counts ab only. */
  lemma MissesOverlap()
    ensures var W, text: Word := {[97, 98], [98, 99]}, [97, 98, 99];
            Occurs([98, 99], text) && !Found(W, text, [98, 99])
  {
    var W: set<Word>, text: Word, w: Word := {[97, 98], [98, 99]}, [97, 98, 99], [98, 99];
    assert text[1..3] == w;
    assert OccursAt(w, text, 1);
    assert text[..2] == [97, 98] && text[..3] == text;
    FollowIs(W, text, 2);
    assert text[..2][0] == 97 && w[0] == 98;
    Missed(W, text, w, 2);
  }
}
