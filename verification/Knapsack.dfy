/** The 0/1 knapsack over one array updated in place, with a back pointer per sum. */
module Knapsack {
  // ----- subset sums

  /** A choice of item positions, in increasing order. */
  ghost predicate IsChoice(c: seq<nat>, n: nat) {
    && (forall i :: 0 <= i < |c| ==> c[i] < n)
    && (forall i, j :: 0 <= i < j < |c| ==> c[i] < c[j])
  }

  function Sum(items: seq<nat>, c: seq<nat>): nat
    requires forall i :: 0 <= i < |c| ==> c[i] < |items|
  {
    if c == [] then 0 else Sum(items, c[..|c| - 1]) + items[c[|c| - 1]]
  }

  /** v is the sum of some of the first n items, each taken at most once. */
  ghost predicate Reachable(items: seq<nat>, n: nat, v: nat)
    requires n <= |items|
  {
    exists c: seq<nat> :: IsChoice(c, n) && Sum(items, c) == v
  }

  lemma ReachableNone(items: seq<nat>, v: nat)
    ensures Reachable(items, 0, v) <==> v == 0
  {
    if v == 0 {
      assert IsChoice([], 0) && Sum(items, []) == 0;
    }
    if Reachable(items, 0, v) {
      var c: seq<nat> :| IsChoice(c, 0) && Sum(items, c) == v;
      assert c == [];
    }
  }

  lemma ChoiceAppend(c: seq<nat>, n: nat)
    requires IsChoice(c, n)
    ensures IsChoice(c + [n], n + 1) && (c + [n])[..|c|] == c
  {}

  lemma ChoiceInit(c: seq<nat>, n: nat)
    requires IsChoice(c, n + 1) && c != []
    ensures IsChoice(c[..|c| - 1], c[|c| - 1])
    ensures c[|c| - 1] < n ==> IsChoice(c, n)
  {}

  lemma ReachableDown(items: seq<nat>, n: nat, v: nat)
    requires n < |items| && Reachable(items, n + 1, v)
    ensures Reachable(items, n, v) || (v >= items[n] && Reachable(items, n, v - items[n]))
  {
    var c: seq<nat> :| IsChoice(c, n + 1) && Sum(items, c) == v;
    if c == [] {
      assert IsChoice(c, n);
    } else {
      ChoiceInit(c, n);
      if c[|c| - 1] == n {
        assert IsChoice(c[..|c| - 1], n);
      }
    }
  }

  lemma ReachableUp(items: seq<nat>, n: nat, v: nat)
    requires n < |items| && Reachable(items, n, v)
    ensures Reachable(items, n + 1, v) && Reachable(items, n + 1, v + items[n])
  {
    var c: seq<nat> :| IsChoice(c, n) && Sum(items, c) == v;
    assert IsChoice(c, n + 1);
    ChoiceAppend(c, n);
    assert Sum(items, c + [n]) == v + items[n];
  }

  /** The two-dimensional recurrence: leave item n out, or take it on top of a sum of the earlier ones. */
  lemma ReachableStep(items: seq<nat>, n: nat, v: nat)
    requires n < |items|
    ensures Reachable(items, n + 1, v) <==>
            Reachable(items, n, v) || (v >= items[n] && Reachable(items, n, v - items[n]))
  {
    if Reachable(items, n + 1, v) {
      ReachableDown(items, n, v);
    }
    if Reachable(items, n, v) {
      ReachableUp(items, n, v);
    }
    if v >= items[n] && Reachable(items, n, v - items[n]) {
      ReachableUp(items, n, v - items[n]);
    }
  }

  /** The printed values are those of a choice of distinct positions that sums to v. */
  ghost predicate Spells(items: seq<nat>, plan: seq<int>, choice: seq<nat>, v: nat) {
    && IsChoice(choice, |items|) && Sum(items, choice) == v
    && |plan| == |choice| && forall i :: 0 <= i < |plan| ==> plan[i] == items[choice[i]]
  }

  /** c ends no later than e, and if both end with the same position, the same holds of what is left. */
  ghost predicate Earlier(c: seq<nat>, e: seq<nat>)
    decreases |c|
  {
    c == [] || (e != [] && var m, n := |c| - 1, |e| - 1;
                c[m] < e[n] || (c[m] == e[n] && Earlier(c[..m], e[..n])))
  }

  /** No choice with sum v is earlier. */
  ghost predicate IsEarliest(items: seq<nat>, c: seq<nat>, v: nat) {
    forall e: seq<nat> :: IsChoice(e, |items|) && Sum(items, e) == v ==> Earlier(c, e)
  }

  lemma LastAtLeast(items: seq<nat>, e: seq<nat>, v: nat, n: nat)
    requires IsChoice(e, |items|) && e != [] && Sum(items, e) == v && n <= |items| && !Reachable(items, n, v)
    ensures e[|e| - 1] >= n
  {
    assert e[|e| - 1] < n ==> IsChoice(e, n);
  }

  lemma EarliestMore(items: seq<nat>, c: seq<nat>, v: nat, n: nat)
    requires n < |items| && items[n] <= v && IsEarliest(items, c, v - items[n]) && v > 0
    requires !Reachable(items, n, v)
    ensures IsEarliest(items, c + [n], v)
  {
    forall e: seq<nat> | IsChoice(e, |items|) && Sum(items, e) == v ensures Earlier(c + [n], e) {
      var m := |e| - 1;
      assert (c + [n])[..|c|] == c;
      LastAtLeast(items, e, v, n);
      if e[m] == n {
        assert IsChoice(e[..m], |items|);
      }
    }
  }

  lemma SpellsMore(items: seq<nat>, plan: seq<int>, choice: seq<nat>, v: nat, n: nat)
    requires Spells(items, plan, choice, v) && n < |items| && (choice != [] ==> choice[|choice| - 1] < n)
    ensures Spells(items, plan + [items[n]], choice + [n], v + items[n])
  {
    assert IsChoice(choice, n);
    ChoiceAppend(choice, n);
  }

  function Total(plan: seq<int>): int {
    if plan == [] then 0 else Total(plan[..|plan| - 1]) + plan[|plan| - 1]
  }

  /** What a choice spells adds up to its sum and takes no amount more often than the items hold it. */
  lemma {:induction false} SpellsWithin(items: seq<int>, plan: seq<int>, choice: seq<nat>, n: nat)
    requires IsChoice(choice, n) && n <= |items| && |plan| == |choice|
    requires forall i :: 0 <= i < |plan| ==> plan[i] == items[choice[i]]
    ensures multiset(plan) <= multiset(items[..n])
    decreases |plan|
  {
    if plan != [] {
      var m := |plan| - 1;
      var c := choice[m];
      SpellsWithin(items, plan[..m], choice[..m], c);
      TakeOne(items, plan, n, c);
    }
  }

  lemma TakeOne(items: seq<int>, plan: seq<int>, n: nat, c: nat)
    requires c < n <= |items| && plan != [] && plan[|plan| - 1] == items[c]
    requires multiset(plan[..|plan| - 1]) <= multiset(items[..c])
    ensures multiset(plan) <= multiset(items[..n])
  {
    var m := |plan| - 1;
    assert plan == plan[..m] + [items[c]];
    assert items[..n] == items[..c] + [items[c]] + items[c + 1..n];
  }

  lemma SpellsAll(items: seq<nat>, plan: seq<int>, choice: seq<nat>, v: nat)
    requires Spells(items, plan, choice, v)
    ensures Total(plan) == v && multiset(plan) <= multiset(items)
  {
    SpellsTotal(items, plan, choice, v);
    SpellsWithin(items, plan, choice, |items|);
    assert items[..|items|] == items;
  }

  lemma {:induction false} SpellsTotal(items: seq<nat>, plan: seq<int>, choice: seq<nat>, v: nat)
    requires Spells(items, plan, choice, v)
    ensures Total(plan) == v
    decreases |plan|
  {
    if plan != [] {
      var m := |plan| - 1;
      SpellsTotal(items, plan[..m], choice[..m], Sum(items, choice[..m]));
    }
  }

  lemma NoPlan(items: seq<nat>)
    ensures Spells(items, [], [], 0) && IsEarliest(items, [], 0) && Total([]) == 0
  {
  }

  /** The item that first reached v, behind the earliest choice for the rest. */
  lemma PlanMore(items: seq<nat>, plan: seq<int>, choice: seq<nat>, v: nat, n: nat)
    requires n < |items| && 0 < items[n] <= v && !Reachable(items, n, v)
    requires Spells(items, plan, choice, v - items[n]) && IsEarliest(items, choice, v - items[n])
    requires choice != [] ==> choice[|choice| - 1] < n
    ensures var plan', choice' := plan + [items[n]], choice + [n];
            Spells(items, plan', choice', v) && IsEarliest(items, choice', v)
            && Total(plan') == v && multiset(plan') <= multiset(items)
  {
    SpellsMore(items, plan, choice, v - items[n], n);
    EarliestMore(items, choice, v, n);
    SpellsAll(items, plan + [items[n]], choice + [n], v);
  }

  // ----- the table

  /** One entry: the sum kept there, or -1, and the item taken last. */
  datatype Entry = Entry(value: int, selectValue: int)

  /** The entry of v is right after the first n items: it holds v if v is reachable and -1 if not. */
  ghost predicate Right(d: seq<Entry>, items: seq<nat>, n: nat, v: nat)
    requires n <= |items| && v < |d|
  {
    d[v].value == if Reachable(items, n, v) then v else -1
  }

  /** The back pointer of v names the item that first reached v, and leads to a sum reached strictly earlier;
      first maps each sum to the position of the item that first reached it. */
  ghost predicate Linked(d: seq<Entry>, first: map<nat, nat>, items: seq<nat>, n: nat, v: nat)
    requires n <= |items| && 0 < v < |d|
  {
    && v in first && first[v] < n && d[v].selectValue == items[first[v]] && 0 < d[v].selectValue <= v
    && !Reachable(items, first[v], v)
    && var u: nat := v - d[v].selectValue;
    && d[u].value >= 0 && (u > 0 ==> u in first && first[u] < first[v])
  }

  ghost predicate EntryOk(d: seq<Entry>, first: map<nat, nat>, items: seq<nat>, n: nat, v: nat)
    requires n <= |items| && v < |d|
  {
    Right(d, items, n, v) && (0 < v && d[v].value >= 0 ==> Linked(d, first, items, n, v))
  }

  /** The entry is as before item n if it is at most V, and as after it above V. */
  ghost predicate MixedAt(d: seq<Entry>, first: map<nat, nat>, items: seq<nat>, n: nat, V: int, w: nat)
    requires n < |items| && w < |d|
  {
    EntryOk(d, first, items, if w <= V then n else n + 1, w)
  }

  ghost predicate Mixed(d: seq<Entry>, first: map<nat, nat>, items: seq<nat>, n: nat, V: int)
    requires n < |items|
  {
    forall w: nat :: w < |d| ==> MixedAt(d, first, items, n, V, w)
  }

  lemma EntryKept(d: seq<Entry>, first: map<nat, nat>, items: seq<nat>, n: nat, V: nat, e: Entry, m: nat, w: nat)
    requires m <= |items| && w < |d| && V < |d| && w != V && d[V].value == -1 && V !in first
    requires EntryOk(d, first, items, m, w)
    ensures EntryOk(d[V := e], first[V := n], items, m, w)
  {}

  /** One entry of the descending loop, in its two outcomes. */
  lemma PackStep(d: seq<Entry>, first: map<nat, nat>, items: seq<nat>, n: nat, V: nat)
    requires n < |items| && items[n] <= V < |d| && Mixed(d, first, items, n, V)
    requires forall v :: v in first ==> v < |d| && d[v].value >= 0
    ensures var u := V - items[n];
            if d[u].value >= 0 && d[u].value + items[n] > d[V].value
            then var d', first' := d[V := Entry(d[u].value + items[n], items[n])], first[V := n];
                 Mixed(d', first', items, n, V - 1) && forall v :: v in first' ==> v < |d'| && d'[v].value >= 0
            else Mixed(d, first, items, n, V - 1)
  {
    var u := V - items[n];
    ReachableStep(items, n, V);
    assert MixedAt(d, first, items, n, V, V) && MixedAt(d, first, items, n, V, u);
    var below := V - 1;
    if d[u].value >= 0 && d[u].value + items[n] > d[V].value {
      var e := Entry(d[u].value + items[n], items[n]);
      var d', first' := d[V := e], first[V := n];
      forall w: nat | w < |d'| ensures MixedAt(d', first', items, n, below, w) {
        if w != V {
          assert MixedAt(d, first, items, n, V, w);
          EntryKept(d, first, items, n, V, e, if w <= V then n else n + 1, w);
        }
      }
    } else {
      forall w: nat | w < |d| ensures MixedAt(d, first, items, n, below, w) {
        assert MixedAt(d, first, items, n, V, w);
      }
    }
  }

  class Table {
    const maxV: nat
    const dp: array<Entry>
    ghost var first: map<nat, nat>

    /** The table after the first n items. */
    ghost predicate Holds(items: seq<nat>, n: nat)
      requires n <= |items|
      reads this, dp
    {
      && dp.Length == maxV + 1
      && (forall v: nat :: v <= maxV ==> EntryOk(dp[..], first, items, n, v))
      && (forall v :: v in first ==> v <= maxV && dp[v].value >= 0)
    }

    /** init: only the empty sum is reachable. */
    constructor (maxV: nat, ghost items: seq<nat>)
      ensures this.maxV == maxV && fresh(dp) && Holds(items, 0)
    {
      this.maxV := maxV;
      dp := new Entry[maxV + 1];
      first := map[];
      new;
      var i := 0;
      while i <= maxV
        invariant 0 <= i <= maxV + 1 && dp.Length == maxV + 1 && first == map[]
        invariant forall v :: 0 <= v < i ==> dp[v] == Entry(-1, -1)
      {
        dp[i] := Entry(-1, -1);
        i := i + 1;
      }
      dp[0] := Entry(0, dp[0].selectValue);
      forall v: nat | v <= maxV ensures EntryOk(dp[..], first, items, 0, v) {
        ReachableNone(items, v);
      }
    }

    /** zero_one_pack: the descending loop takes the item at most once. */
    method ZeroOnePack(item: nat, ghost items: seq<nat>, ghost n: nat)
      requires n < |items| && item == items[n] && Holds(items, n)
      modifies dp, this`first
      ensures Holds(items, n + 1)
    {
      var V: int := maxV;
      while V >= item
        invariant -1 <= V <= maxV && dp.Length == maxV + 1 && Mixed(dp[..], first, items, n, V)
        invariant forall v :: v in first ==> v <= maxV && dp[v].value >= 0
      {
        PackStep(dp[..], first, items, n, V);
        if dp[V - item].value >= 0 {
          var valueIfSelected := dp[V - item].value + item;
          if valueIfSelected > dp[V].value {
            ghost var d := dp[..];
            dp[V] := Entry(valueIfSelected, item);
            first := first[V := n];
            assert dp[..] == d[V := Entry(valueIfSelected, item)];
          }
        }
        V := V - 1;
      }
      SmallSumsStay(dp[..], first, items, n, n + 1, V);
    }

    /** recursive_print_plan: the items in the order they are printed; choice gives their positions. */
    method Plan(V: nat, ghost items: seq<nat>) returns (plan: seq<int>, ghost choice: seq<nat>)
      requires Holds(items, |items|) && V <= maxV && dp[V].value >= 0
      ensures Spells(items, plan, choice, V) && Total(plan) == V && multiset(plan) <= multiset(items)
      ensures IsEarliest(items, choice, V)
      ensures if V == 0 then choice == [] else choice != [] && V in first && choice[|choice| - 1] == first[V]
      decreases V
    {
      plan, choice := [], [];
      if V > 0 {
        assert EntryOk(dp[..], first, items, |items|, V);
        plan, choice := Plan(V - dp[V].selectValue, items);
        PlanMore(items, plan, choice, V, first[V]);
        plan, choice := plan + [dp[V].selectValue], choice + [first[V]];
      } else {
        NoPlan(items);
      }
    }
  }

  /** Sums below the item are not affected by it. */
  lemma SmallSumsStay(d: seq<Entry>, first: map<nat, nat>, items: seq<nat>, n: nat, m: nat, V: int)
    requires n < |items| && m == n + 1 && V < items[n] && Mixed(d, first, items, n, V)
    ensures forall v: nat :: v < |d| ==> EntryOk(d, first, items, m, v)
  {
    forall v: nat | v < |d| ensures EntryOk(d, first, items, m, v) {
      assert MixedAt(d, first, items, n, V, v);
      if v <= V {
        ReachableStep(items, n, v);
      }
    }
  }

  /** main: pack all items, then take the least sum from destV on that the table holds. */
  method MinimumPlan(items: seq<nat>, destV: nat, maxV: nat)
    returns (isFind: bool, sum: nat, plan: seq<int>, ghost choice: seq<nat>)
    requires destV > 0
    ensures isFind <==> exists v: nat :: destV <= v <= maxV && Reachable(items, |items|, v)
    ensures isFind ==> destV <= sum <= maxV && Reachable(items, |items|, sum)
    ensures isFind ==> forall v: nat :: destV <= v <= maxV && Reachable(items, |items|, v) ==> sum <= v
    ensures isFind ==> Spells(items, plan, choice, sum) && IsEarliest(items, choice, sum)
    ensures isFind ==> Total(plan) == sum && multiset(plan) <= multiset(items)
  {
    var table := PackAll(items, maxV);
    isFind, sum, plan, choice := false, 0, [], [];
    var i := destV;
    while i <= maxV
      invariant destV <= i && table.maxV == maxV && table.Holds(items, |items|)
      invariant forall v: nat :: destV <= v < i && v <= maxV ==> !Reachable(items, |items|, v)
    {
      assert EntryOk(table.dp[..], table.first, items, |items|, i);
      if table.dp[i].value > 0 {
        sum := table.dp[i].value;
        plan, choice := table.Plan(sum, items);
        isFind := true;
        break;
      }
      i := i + 1;
    }
  }

  method PackAll(items: seq<nat>, maxV: nat) returns (table: Table)
    ensures fresh(table) && table.maxV == maxV && table.Holds(items, |items|)
  {
    table := new Table(maxV, items);
    var id := 0;
    while id < |items|
      invariant 0 <= id <= |items| && fresh(table) && fresh(table.dp) && table.maxV == maxV && table.Holds(items, id)
    {
      table.ZeroOnePack(items[id], items, id);
      id := id + 1;
    }
  }
}
