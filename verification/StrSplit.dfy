// StrUtils::Split of Languages/cpp/15_zookeeper_multi_thread_demo/str_utils.h.
//
// `Parts` is the list of parts cut at leftmost occurrences of the delimiter. It is shown to be the only
// list that joins back to the string and is clean, so the round trip has an exact condition. Both loops
// of the source, the one-character one and the general one, are proved against it.
module StrSplit {

  /** What basic_string::find answers. */
  datatype Position = At(index: nat) | Npos

  predicate OccursAt<T(==)>(s: seq<T>, d: seq<T>, i: nat) {
    i + |d| <= |s| && s[i..i + |d|] == d
  }

  ghost predicate Absent<T>(s: seq<T>, d: seq<T>) {
    forall i: nat :: !OccursAt(s, d, i)
  }

  /** find(delimiter, start) */
  function Find<T(==)>(s: seq<T>, d: seq<T>, start: nat): (pos: Position)
    requires start <= |s|
    ensures pos.At? ==> start <= pos.index && OccursAt(s, d, pos.index)
    ensures forall i: nat :: start <= i && (pos.At? ==> i < pos.index) ==> !OccursAt(s, d, i)
    decreases |s| - start
  {
    if OccursAt(s, d, start) then At(start)
    else if start == |s| then Npos
    else Find(s, d, start + 1)
  }

  /** find(ch, start) */
  function FindChar<T(==)>(s: seq<T>, ch: T, start: nat): (pos: Position)
    requires start <= |s|
    ensures pos.At? ==> start <= pos.index < |s| && s[pos.index] == ch
    ensures forall i: nat :: start <= i < |s| && (pos.At? ==> i < pos.index) ==> s[i] != ch
    decreases |s| - start
  {
    if start == |s| then Npos
    else if s[start] == ch then At(start)
    else FindChar(s, ch, start + 1)
  }

  /** The two searches agree on a one-character delimiter. */
  lemma {:induction false} FindCharIsFind<T>(s: seq<T>, d: seq<T>, start: nat)
    requires |d| == 1 && start <= |s|
    ensures FindChar(s, d[0], start) == Find(s, d, start)
    decreases |s| - start
  {
    if start < |s| {
      assert OccursAt(s, d, start) <==> s[start] == d[0];
      if s[start] != d[0] {
        FindCharIsFind(s, d, start + 1);
      }
    }
  }

  // ----- the parts

  function Parts<T(==)>(s: seq<T>, d: seq<T>, start: nat): (ps: seq<seq<T>>)
    requires d != [] && start <= |s|
    ensures ps != []
    decreases |s| - start
  {
    match Find(s, d, start)
    case Npos => [s[start..]]
    case At(pos) => [s[start..pos]] + Parts(s, d, pos + |d|)
  }

  /** An empty delimiter cuts nowhere. */
  function AllParts<T(==)>(s: seq<T>, d: seq<T>): (ps: seq<seq<T>>) {
    if d == [] then [s] else Parts(s, d, 0)
  }

  /** keepEmptyParts, or the nonempty ones only. */
  function Kept<T>(ps: seq<seq<T>>, keepEmpty: bool): (r: seq<seq<T>>) {
    if ps == [] then []
    else (if |ps[0]| > 0 || keepEmpty then [ps[0]] else []) + Kept(ps[1..], keepEmpty)
  }

  function Join<T>(ps: seq<seq<T>>, d: seq<T>): (s: seq<T>) {
    if ps == [] then [] else if |ps| == 1 then ps[0] else ps[0] + d + Join(ps[1..], d)
  }

  /** The delimiter written behind p occurs there for the first time. */
  ghost predicate Ends<T>(p: seq<T>, d: seq<T>) {
    forall i: nat :: i < |p| ==> !OccursAt(p + d, d, i)
  }

  ghost predicate Clean<T>(ps: seq<seq<T>>, d: seq<T>) {
    && ps != []
    && (forall k :: 0 <= k < |ps| - 1 ==> Ends(ps[k], d))
    && Absent(ps[|ps| - 1], d)
  }

  lemma SubSlice<T>(s: seq<T>, a: nat, b: nat, i: nat, j: nat)
    requires a <= b <= |s| && i <= j <= b - a
    ensures s[a..b][i..j] == s[a + i..a + j]
  {
    var l, r := s[a..b][i..j], s[a + i..a + j];
    forall k | 0 <= k < j - i ensures l[k] == r[k] {
      assert l[k] == s[a..b][i + k];
    }
  }

  lemma OccursBelow<T>(s: seq<T>, d: seq<T>, start: nat, pos: nat, i: nat)
    requires start <= pos && OccursAt(s, d, pos) && i < pos - start
    ensures OccursAt(s[start..pos] + d, d, i) <==> OccursAt(s, d, start + i)
  {
    assert s[start..pos] + d == s[start..pos + |d|];
    SubSlice(s, start, pos + |d|, i, i + |d|);
  }

  lemma OccursBehind<T>(s: seq<T>, d: seq<T>, start: nat, i: nat)
    requires start <= |s|
    ensures OccursAt(s[start..], d, i) <==> OccursAt(s, d, start + i)
  {
    if start + i + |d| <= |s| {
      SubSlice(s, start, |s|, i, i + |d|);
    }
  }

  lemma FirstEnds<T>(s: seq<T>, d: seq<T>, start: nat)
    requires start <= |s| && Find(s, d, start).At?
    ensures Ends(s[start..Find(s, d, start).index], d)
  {
    var pos := Find(s, d, start).index;
    forall i: nat | i < pos - start ensures !OccursAt(s[start..pos] + d, d, i) {
      OccursBelow(s, d, start, pos, i);
    }
  }

  lemma RestAbsent<T>(s: seq<T>, d: seq<T>, start: nat)
    requires start <= |s| && Find(s, d, start) == Npos
    ensures Absent(s[start..], d)
  {
    forall i: nat ensures !OccursAt(s[start..], d, i) {
      OccursBehind(s, d, start, i);
    }
  }

  lemma CleanMore<T>(p: seq<T>, ps: seq<seq<T>>, d: seq<T>)
    requires Ends(p, d) && Clean(ps, d)
    ensures Clean([p] + ps, d)
  {
    var qs := [p] + ps;
    forall k | 0 <= k < |qs| - 1 ensures Ends(qs[k], d) {
      assert k > 0 ==> qs[k] == ps[k - 1];
    }
  }

  lemma JoinMore<T>(p: seq<T>, ps: seq<seq<T>>, d: seq<T>)
    requires ps != []
    ensures Join([p] + ps, d) == p + d + Join(ps, d)
  {
    assert ([p] + ps)[1..] == ps;
  }

  lemma ThreePieces<T>(s: seq<T>, a: nat, b: nat, c: nat)
    requires a <= b <= c <= |s|
    ensures s[a..] == s[a..b] + s[b..c] + s[c..]
  {
  }

  lemma JoinAtCut<T>(s: seq<T>, d: seq<T>, start: nat, pos: nat, ps: seq<seq<T>>)
    requires start <= pos && OccursAt(s, d, pos) && ps != [] && Join(ps, d) == s[pos + |d|..]
    ensures Join([s[start..pos]] + ps, d) == s[start..]
  {
    var p := s[start..pos];
    ThreePieces(s, start, pos, pos + |d|);
    assert s[start..] == p + d + Join(ps, d);
    JoinMore(p, ps, d);
  }

  /** Cutting loses nothing, and cuts at leftmost occurrences only. */
  lemma {:induction false} PartsJoin<T>(s: seq<T>, d: seq<T>, start: nat)
    requires d != [] && start <= |s|
    ensures Join(Parts(s, d, start), d) == s[start..] && Clean(Parts(s, d, start), d)
    decreases |s| - start
  {
    match Find(s, d, start)
    case Npos =>
      RestAbsent(s, d, start);
    case At(pos) =>
      PartsJoin(s, d, pos + |d|);
      FirstEnds(s, d, start);
      CleanMore(s[start..pos], Parts(s, d, pos + |d|), d);
      JoinAtCut(s, d, start, pos, Parts(s, d, pos + |d|));
  }

  lemma NotBefore<T>(p: seq<T>, x: seq<T>, q: seq<T>, y: seq<T>, d: seq<T>)
    requires p + d + x == q + d + y && Ends(q, d)
    ensures |p| >= |q|
  {
    if |p| < |q| {
      var s := p + d + x;
      assert s[|p|..|p| + |d|] == d;
      assert (q + d)[|p|..|p| + |d|] == s[|p|..|p| + |d|];
      assert OccursAt(q + d, d, |p|);
    }
  }

  /** A string is cut at the first delimiter in one way only. */
  lemma OneFirstCut<T>(p: seq<T>, x: seq<T>, q: seq<T>, y: seq<T>, d: seq<T>)
    requires p + d + x == q + d + y && Ends(p, d) && Ends(q, d)
    ensures p == q && x == y
  {
    NotBefore(p, x, q, y, d);
    NotBefore(q, y, p, x, d);
    SameFronts(p, x, q, y, d);
  }

  lemma SameFronts<T>(p: seq<T>, x: seq<T>, q: seq<T>, y: seq<T>, d: seq<T>)
    requires p + d + x == q + d + y && |p| == |q|
    ensures p == q && x == y
  {
    assert p == (p + d + x)[..|p|] == (q + d + y)[..|q|] == q;
    assert x == (p + d + x)[|p| + |d|..] == (q + d + y)[|q| + |d|..] == y;
  }

  lemma HasDelimiter<T>(p: seq<T>, x: seq<T>, d: seq<T>)
    ensures OccursAt(p + d + x, d, |p|)
  {
    assert (p + d + x)[|p|..|p| + |d|] == d;
  }

  lemma CleanLess<T>(ps: seq<seq<T>>, d: seq<T>)
    requires Clean(ps, d) && |ps| > 1
    ensures Ends(ps[0], d) && Clean(ps[1..], d) && Join(ps, d) == ps[0] + d + Join(ps[1..], d)
  {
    forall k | 0 <= k < |ps[1..]| - 1 ensures Ends(ps[1..][k], d) {
      assert ps[1..][k] == ps[k + 1];
    }
  }

  lemma CleanOne<T>(ps: seq<seq<T>>, qs: seq<seq<T>>, d: seq<T>)
    requires Clean(ps, d) && |ps| == 1 && Clean(qs, d) && |qs| > 1
    ensures Join(ps, d) != Join(qs, d)
  {
    CleanLess(qs, d);
    HasDelimiter(qs[0], Join(qs[1..], d), d);
    assert Absent(ps[0], d);
  }

  lemma HeadTail<T>(ps: seq<T>)
    requires ps != []
    ensures ps == [ps[0]] + ps[1..]
  {
  }

  /** No two clean lists join to the same string. */
  lemma {:induction false} CleanUnique<T>(ps: seq<seq<T>>, qs: seq<seq<T>>, d: seq<T>)
    requires Clean(ps, d) && Clean(qs, d) && Join(ps, d) == Join(qs, d)
    ensures ps == qs
    decreases |ps|
  {
    if |ps| == 1 && |qs| == 1 {
      assert ps == [ps[0]] == [qs[0]] == qs;
    } else if |ps| == 1 {
      CleanOne(ps, qs, d);
    } else if |qs| == 1 {
      CleanOne(qs, ps, d);
    } else {
      CleanLess(ps, d);
      CleanLess(qs, d);
      OneFirstCut(ps[0], Join(ps[1..], d), qs[0], Join(qs[1..], d), d);
      CleanUnique(ps[1..], qs[1..], d);
      HeadTail(ps);
      HeadTail(qs);
    }
  }

  /** The parts are the one clean list that joins back to the string. */
  lemma PartsExactly<T>(s: seq<T>, d: seq<T>, ps: seq<seq<T>>)
    requires d != []
    ensures ps == AllParts(s, d) <==> Join(ps, d) == s && Clean(ps, d)
  {
    assert s[0..] == s;
    PartsJoin(s, d, 0);
    if Join(ps, d) == s && Clean(ps, d) {
      CleanUnique(ps, AllParts(s, d), d);
    }
  }

  /** Splitting undoes joining exactly on clean lists. */
  lemma SplitJoin<T>(ps: seq<seq<T>>, d: seq<T>)
    requires d != []
    ensures AllParts(Join(ps, d), d) == ps <==> Clean(ps, d)
  {
    PartsExactly(Join(ps, d), d, ps);
  }

  lemma EndsAbsent<T>(p: seq<T>, d: seq<T>)
    requires d != [] && Ends(p, d)
    ensures Absent(p, d)
  {
    forall i: nat ensures !OccursAt(p, d, i) {
      if OccursAt(p, d, i) {
        assert (p + d)[i..i + |d|] == p[i..i + |d|];
        assert OccursAt(p + d, d, i);
      }
    }
  }

  /** For a one-character delimiter, clean means that no part holds it. */
  lemma CleanChar<T>(ps: seq<seq<T>>, ch: T)
    ensures Clean(ps, [ch]) <==> ps != [] && forall k :: 0 <= k < |ps| ==> ch !in ps[k]
  {
    forall k, i: nat | 0 <= k < |ps|
      ensures OccursAt(ps[k], [ch], i) <==> i < |ps[k]| && ps[k][i] == ch
      ensures i < |ps[k]| ==> (OccursAt(ps[k] + [ch], [ch], i) <==> ps[k][i] == ch)
    {
      var p := ps[k];
      assert i < |p| ==> p[i..i + 1] == [p[i]] && (p + [ch])[i..i + 1] == [p[i]];
    }
  }

  /** For a longer one it means more: neither part holds the delimiter, yet joining them and splitting gives others. */
  lemma AbsentIsNotEnough()
    ensures Absent("a", "aa") && Absent("b", "aa") && AllParts(Join(["a", "b"], "aa"), "aa") != ["a", "b"]
  {
    assert ("a" + "aa")[0..2] == "aa";
    assert OccursAt("a" + "aa", "aa", 0);
    assert !Ends(["a", "b"][0], "aa");
    SplitJoin(["a", "b"], "aa");
  }

  /** No part, kept or not, holds the delimiter. */
  lemma {:induction false} KeptAbsent<T>(ps: seq<seq<T>>, d: seq<T>, keepEmpty: bool)
    requires d != [] && forall k :: 0 <= k < |ps| ==> Absent(ps[k], d)
    ensures forall p :: p in Kept(ps, keepEmpty) ==> Absent(p, d)
  {
    if ps != [] {
      KeptAbsent(ps[1..], d, keepEmpty);
    }
  }

  lemma CleanAbsent<T>(ps: seq<seq<T>>, d: seq<T>)
    requires d != [] && Clean(ps, d)
    ensures forall k :: 0 <= k < |ps| ==> Absent(ps[k], d)
  {
    forall k | 0 <= k < |ps| ensures Absent(ps[k], d) {
      if k < |ps| - 1 {
        EndsAbsent(ps[k], d);
      }
    }
  }

  lemma NoDelimiter<T>(s: seq<T>, d: seq<T>, keepEmpty: bool)
    requires d != []
    ensures forall p :: p in Kept(AllParts(s, d), keepEmpty) ==> Absent(p, d)
  {
    var ps := AllParts(s, d);
    PartsJoin(s, d, 0);
    CleanAbsent(ps, d);
    KeptAbsent(ps, d, keepEmpty);
  }

  lemma {:induction false} KeptAll<T>(ps: seq<seq<T>>)
    ensures Kept(ps, true) == ps
  {
    if ps != [] {
      KeptAll(ps[1..]);
    }
  }

  ghost predicate Picks<T>(ps: seq<seq<T>>, r: seq<seq<T>>, at: seq<nat>) {
    |at| == |r| && forall k :: 0 <= k < |r| ==> at[k] < |ps| && ps[at[k]] == r[k]
  }

  ghost predicate Rising(at: seq<nat>) {
    forall j, k :: 0 <= j < k < |at| ==> at[j] < at[k]
  }

  ghost predicate Covers<T>(ps: seq<seq<T>>, at: seq<nat>) {
    forall i: nat :: i < |ps| ==> (i in at <==> ps[i] != [])
  }

  /** r lists the nonempty parts of ps in their order. */
  ghost predicate NonemptyOf<T>(ps: seq<seq<T>>, r: seq<seq<T>>) {
    exists at: seq<nat> :: Picks(ps, r, at) && Rising(at) && Covers(ps, at)
  }

  /** The places one further back, behind a kept or a dropped first part. */
  ghost function Shifted(at: seq<nat>, kept: bool): (r: seq<nat>) {
    (if kept then [0] else []) + seq(|at|, k requires 0 <= k < |at| => at[k] + 1)
  }

  lemma PicksLater<T>(p: seq<T>, ps: seq<seq<T>>, r: seq<seq<T>>, at: seq<nat>, kept: bool)
    requires Picks(ps, r, at)
    ensures Picks([p] + ps, (if kept then [p] else []) + r, Shifted(at, kept))
  {
    var qs, more, late := [p] + ps, (if kept then [p] else []) + r, Shifted(at, kept);
    var d := if kept then 1 else 0;
    forall k | 0 <= k < |more| ensures late[k] < |qs| && qs[late[k]] == more[k] {
      if k >= d {
        assert late[k] == at[k - d] + 1 && more[k] == r[k - d];
        assert qs[at[k - d] + 1] == ps[at[k - d]];
      }
    }
  }

  lemma RisingLater(at: seq<nat>, kept: bool)
    requires Rising(at)
    ensures Rising(Shifted(at, kept))
  {
    var late, d := Shifted(at, kept), if kept then 1 else 0;
    forall j, k | 0 <= j < k < |late| ensures late[j] < late[k] {
      assert late[k] == at[k - d] + 1;
      assert j >= d ==> late[j] == at[j - d] + 1;
    }
  }

  lemma ShiftedHas(at: seq<nat>, kept: bool, i: nat)
    ensures i in Shifted(at, kept) <==> if i == 0 then kept else i - 1 in at
  {
    var late, d := Shifted(at, kept), if kept then 1 else 0;
    if i > 0 && i - 1 in at {
      var k :| 0 <= k < |at| && at[k] == i - 1;
      assert late[k + d] == i;
    }
    if i in late {
      var k :| 0 <= k < |late| && late[k] == i;
      assert k >= d ==> i == at[k - d] + 1;
    }
  }

  lemma CoversLater<T>(p: seq<T>, ps: seq<seq<T>>, at: seq<nat>)
    requires Covers(ps, at)
    ensures Covers([p] + ps, Shifted(at, p != []))
  {
    var qs := [p] + ps;
    forall i: nat | i < |qs| ensures i in Shifted(at, p != []) <==> qs[i] != [] {
      ShiftedHas(at, p != [], i);
      assert i > 0 ==> qs[i] == ps[i - 1];
    }
  }

  /** Without empty parts the others are kept, in their order. */
  lemma {:induction false} KeptNonempty<T>(ps: seq<seq<T>>)
    ensures NonemptyOf(ps, Kept(ps, false))
  {
    if ps == [] {
      assert Picks<T>([], [], []) && Rising([]) && Covers<T>([], []);
    } else {
      var p, rest, r := ps[0], ps[1..], Kept(ps[1..], false);
      KeptNonempty(rest);
      var at: seq<nat> :| Picks(rest, r, at) && Rising(at) && Covers(rest, at);
      PicksLater(p, rest, r, at, p != []);
      RisingLater(at, p != []);
      CoversLater(p, rest, at);
      HeadTail(ps);
    }
  }

  lemma NoneEmpty<T>(ps: seq<seq<T>>, r: seq<seq<T>>)
    requires NonemptyOf(ps, r)
    ensures [] !in r
  {
    var at: seq<nat> :| Picks(ps, r, at) && Rising(at) && Covers(ps, at);
    forall k | 0 <= k < |r| ensures r[k] != [] {
      assert at[k] in at;
    }
  }

  /** What is kept, apart from how it is cut and sifted. */
  lemma KeptMeans<T>(s: seq<T>, d: seq<T>, keepEmpty: bool)
    ensures var r := Kept(AllParts(s, d), keepEmpty);
            && (keepEmpty ==> r != [] && Join(r, d) == s)
            && (!keepEmpty ==> [] !in r && NonemptyOf(AllParts(s, d), r))
            && (d == [] ==> |r| <= 1 && Join(r, d) == s)
            && (d != [] ==> forall p :: p in r ==> Absent(p, d))
  {
    var ps := AllParts(s, d);
    KeptAll(ps);
    KeptNonempty(ps);
    NoneEmpty(ps, Kept(ps, false));
    if d != [] {
      PartsExactly(s, d, ps);
      NoDelimiter(s, d, keepEmpty);
    }
  }

  // ----- the loops

  /** The parts collected so far, and those still to come from start. */
  ghost predicate Collected<T>(s: seq<T>, d: seq<T>, keepEmpty: bool, slist: seq<seq<T>>, start: nat)
    requires d != []
  {
    start <= |s| && slist + Kept(Parts(s, d, start), keepEmpty) == Kept(AllParts(s, d), keepEmpty)
  }

  lemma KeptStep<T>(s: seq<T>, d: seq<T>, keepEmpty: bool, start: nat, pos: nat)
    requires d != [] && start <= |s| && Find(s, d, start) == At(pos)
    ensures Kept(Parts(s, d, start), keepEmpty)
         == (if pos > start || keepEmpty then [s[start..pos]] else []) + Kept(Parts(s, d, pos + |d|), keepEmpty)
  {
    var rest := Parts(s, d, pos + |d|);
    assert ([s[start..pos]] + rest)[1..] == rest;
  }

  /** One turn: the part in front of the delimiter found at pos is appended unless it is empty and unwanted. */
  lemma CollectMore<T>(s: seq<T>, d: seq<T>, keepEmpty: bool, slist: seq<seq<T>>, start: nat, pos: nat)
    requires d != [] && Collected(s, d, keepEmpty, slist, start) && Find(s, d, start) == At(pos)
    ensures Collected(s, d, keepEmpty, if pos > start || keepEmpty then slist + [s[start..pos]] else slist, pos + |d|)
  {
    KeptStep(s, d, keepEmpty, start, pos);
    var part, rest := s[start..pos], Kept(Parts(s, d, pos + |d|), keepEmpty);
    assert slist + ([part] + rest) == (slist + [part]) + rest;
    assert [] + rest == rest;
  }

  /** The end: what follows the last delimiter is the last part. */
  lemma CollectLast<T>(s: seq<T>, d: seq<T>, keepEmpty: bool, slist: seq<seq<T>>, start: nat)
    requires d != [] && Collected(s, d, keepEmpty, slist, start) && Find(s, d, start) == Npos
    ensures Kept(AllParts(s, d), keepEmpty) == if start != |s| || keepEmpty then slist + [s[start..]] else slist
  {
    assert Kept([s[start..]], keepEmpty) == if start != |s| || keepEmpty then [s[start..]] else [];
  }

  /** The fast path's search, by the delimiter's one character. */
  method FindOne<T(==)>(s: seq<T>, delimiter: seq<T>, start: nat) returns (pos: Position)
    requires |delimiter| == 1 && start <= |s|
    ensures pos == Find(s, delimiter, start)
  {
    FindCharIsFind(s, delimiter, start);
    pos := FindChar(s, delimiter[0], start);
  }

  /** One turn of either loop. */
  method TakePart<T(==)>(s: seq<T>, delimiter: seq<T>, keepEmpty: bool, list: seq<seq<T>>, from: nat, pos: nat)
    returns (slist: seq<seq<T>>, start: nat)
    requires delimiter != [] && Collected(s, delimiter, keepEmpty, list, from) && Find(s, delimiter, from) == At(pos)
    ensures start == pos + |delimiter| && Collected(s, delimiter, keepEmpty, slist, start)
  {
    CollectMore(s, delimiter, keepEmpty, list, from, pos);
    slist := list;
    var part := s[from..pos];
    if |part| > 0 || keepEmpty {
      slist := slist + [part];
    }
    start := pos + |delimiter|;
  }

  method SplitAtChar<T(==)>(s: seq<T>, delimiter: seq<T>, keepEmpty: bool) returns (slist: seq<seq<T>>, start: nat)
    requires |delimiter| == 1
    ensures Collected(s, delimiter, keepEmpty, slist, start) && Find(s, delimiter, start) == Npos
  {
    slist, start := [], 0;
    var pos := FindOne(s, delimiter, start);
    while pos != Npos
      invariant Collected(s, delimiter, keepEmpty, slist, start) && pos == Find(s, delimiter, start)
      decreases |s| - start
    {
      slist, start := TakePart(s, delimiter, keepEmpty, slist, start, pos.index);
      pos := FindOne(s, delimiter, start);
    }
  }

  method SplitAtString<T(==)>(s: seq<T>, delimiter: seq<T>, keepEmpty: bool) returns (slist: seq<seq<T>>, start: nat)
    requires delimiter != []
    ensures Collected(s, delimiter, keepEmpty, slist, start) && Find(s, delimiter, start) == Npos
  {
    slist, start := [], 0;
    var pos := Find(s, delimiter, start);
    while pos != Npos
      invariant Collected(s, delimiter, keepEmpty, slist, start) && pos == Find(s, delimiter, start)
      decreases |s| - start
    {
      slist, start := TakePart(s, delimiter, keepEmpty, slist, start, pos.index);
      pos := Find(s, delimiter, start);
    }
  }

  /** Split: all parts, or the nonempty ones of them. */
  method Split<T(==)>(s: seq<T>, delimiter: seq<T>, keepEmpty: bool) returns (slist: seq<seq<T>>)
    ensures slist == Kept(AllParts(s, delimiter), keepEmpty)
    ensures keepEmpty ==> slist != [] && Join(slist, delimiter) == s
    ensures !keepEmpty ==> [] !in slist && NonemptyOf(AllParts(s, delimiter), slist)
    ensures delimiter == [] ==> |slist| <= 1 && Join(slist, delimiter) == s
    ensures delimiter != [] ==> forall p :: p in slist ==> Absent(p, delimiter)
  {
    KeptMeans(s, delimiter, keepEmpty);
    if delimiter == [] {
      slist := [];
      if |s| > 0 || keepEmpty {
        slist := slist + [s];
      }
      return;
    }
    var start;
    if |delimiter| == 1 {
      slist, start := SplitAtChar(s, delimiter, keepEmpty);
    } else {
      slist, start := SplitAtString(s, delimiter, keepEmpty);
    }
    CollectLast(s, delimiter, keepEmpty, slist, start);
    if start != |s| || keepEmpty {
      slist := slist + [s[start..]];
    }
  }
}
