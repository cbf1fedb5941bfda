/** Producers that push under a spin lock and send a coalescing wake-up, and one consumer that swaps
    the shared vector out. Every interleaving of the threads' atomic steps is a run. */
module AsyncQueue {
  datatype LockState = Locked | Unlocked

  /** Where a producer is in its loop: test k, exchange the lock, load the vector, commit it with k, store the lock,
      send. */
  datatype ProducerPc = AtLoop | Locking | Loading | Committing | Unlocking | Sending | Finished

  /** seen is what the thread read of the shared vector; push_back writes back this with its item behind. */
  datatype Producer = Producer(pc: ProducerPc, k: nat, success: nat, seen: seq<int>)

  /** Where the consumer is: polling, or in the callback before the exchange, the two halves of the swap, store and
      count. */
  datatype ConsumerPc = Polling | Entering | Taking | Clearing | Leaving | Counting

  /** history lists every push with its producer, batches every vector taken out. */
  datatype State = State(
    lock: LockState, vec: seq<int>, pending: bool, producers: seq<Producer>,
    pc: ConsumerPc, tmp: seq<int>, total: int,
    history: seq<(nat, int)>, batches: seq<seq<int>>)

  datatype Action =
    | Test(p: nat) | Exchange(p: nat) | Load(p: nat) | Commit(p: nat) | Store(p: nat) | Send(p: nat)
    | Wake | ConsumerExchange | Take | Clear | ConsumerStore | Count

  function Init(threads: nat): State {
    State(Unlocked, [], false, seq(threads, _ => Producer(AtLoop, 0, 0, [])), Polling, [], 0, [], [])
  }

  predicate At(s: State, p: nat, pc: ProducerPc) {
    p < |s.producers| && s.producers[p].pc == pc
  }

  predicate Enabled(s: State, a: Action) {
    match a
    case Test(p) => At(s, p, AtLoop)
    case Exchange(p) => At(s, p, Locking)
    case Load(p) => At(s, p, Loading)
    case Commit(p) => At(s, p, Committing)
    case Store(p) => At(s, p, Unlocking)
    case Send(p) => At(s, p, Sending)
    case Wake => s.pc == Polling && s.pending
    case ConsumerExchange => s.pc == Entering
    case Take => s.pc == Taking
    case Clear => s.pc == Clearing
    case ConsumerStore => s.pc == Leaving
    case Count => s.pc == Counting
  }

  function Move(s: State, p: nat, pc: ProducerPc): State
    requires p < |s.producers|
  {
    s.(producers := s.producers[p := s.producers[p].(pc := pc)])
  }

  /** One atomic step; testCount is the number of items each producer sends. */
  function Step(s: State, a: Action, testCount: nat): State
    requires Enabled(s, a)
  {
    match a
    case Test(p) => Move(s, p, if s.producers[p].k < testCount then Locking else Finished)
    case Exchange(p) =>
      // the lock word becomes Locked either way; the thread goes on only if it was free
      if s.lock == Locked then s.(lock := Locked) else Move(s.(lock := Locked), p, Loading)
    case Load(p) =>
      s.(producers := s.producers[p := s.producers[p].(pc := Committing, seen := s.vec)])
    case Commit(p) =>
      var q := s.producers[p];
      Move(s.(vec := q.seen + [q.k], history := s.history + [(p, q.k)]), p, Unlocking)
    case Store(p) => Move(s.(lock := Unlocked), p, Sending)
    case Send(p) =>
      var q := s.producers[p];
      s.(pending := true, producers := s.producers[p := Producer(AtLoop, q.k + 1, q.success + 1, q.seen)])
    case Wake => s.(pending := false, pc := Entering)
    case ConsumerExchange => if s.lock == Locked then s.(lock := Locked) else s.(lock := Locked, pc := Taking)
    case Take => s.(tmp := s.vec, batches := s.batches + [s.vec], pc := Clearing)
    case Clear => s.(vec := [], pc := Leaving)
    case ConsumerStore => s.(lock := Unlocked, pc := Counting)
    case Count => s.(total := s.total + |s.tmp|, pc := Polling)
  }

  // ----- what every step keeps

  predicate HoldsLock(q: Producer) {
    q.pc == Loading || q.pc == Committing || q.pc == Unlocking
  }

  predicate ConsumerHolds(s: State) {
    s.pc == Taking || s.pc == Clearing || s.pc == Leaving
  }

  predicate Held(s: State) {
    ConsumerHolds(s) || exists p :: 0 <= p < |s.producers| && HoldsLock(s.producers[p])
  }

  /** At most one thread is between the exchange and the store, and the lock word says whether there is one. */
  predicate MutualExclusion(s: State) {
    && (s.lock == Locked <==> Held(s))
    && (forall p, q :: 0 <= p < q < |s.producers| ==> !(HoldsLock(s.producers[p]) && HoldsLock(s.producers[q])))
    && (forall p :: 0 <= p < |s.producers| ==> !(HoldsLock(s.producers[p]) && ConsumerHolds(s)))
  }

  function Flatten(batches: seq<seq<int>>): seq<int> {
    if batches == [] then [] else Flatten(batches[..|batches| - 1]) + batches[|batches| - 1]
  }

  function Values(history: seq<(nat, int)>): (v: seq<int>)
    ensures |v| == |history|
  {
    seq(|history|, i requires 0 <= i < |history| => history[i].1)
  }

  /** A thread between the two halves of its access has seen the vector as it is. */
  predicate Snapshots(s: State) {
    && (forall p :: 0 <= p < |s.producers| && s.producers[p].pc == Committing ==> s.producers[p].seen == s.vec)
    && (s.pc == Clearing ==> s.tmp == s.vec)
  }

  predicate HasBatch(s: State) {
    s.pc == Clearing || s.pc == Leaving || s.pc == Counting
  }

  /** The batches taken out, followed by the shared vector unless it is just being taken, are the push history;
      the total counts the batches but the one not counted yet. */
  predicate Conserved(s: State) {
    && Flatten(s.batches) + (if s.pc == Clearing then [] else s.vec) == Values(s.history)
    && (HasBatch(s) ==> s.batches != [] && s.batches[|s.batches| - 1] == s.tmp)
    && s.total == |Flatten(s.batches)| - if HasBatch(s) then |s.tmp| else 0
  }

  /** What one producer pushed, in order. */
  function ByProducer(history: seq<(nat, int)>, p: nat): seq<int> {
    if history == [] then [] else
      var n := |history| - 1;
      ByProducer(history[..n], p) + if history[n].0 == p then [history[n].1] else []
  }

  function Upto(n: nat): seq<int> {
    seq(n, i => i)
  }

  predicate HasPushed(q: Producer) {
    q.pc == Unlocking || q.pc == Sending
  }

  function Pushed(q: Producer): nat {
    q.k + if HasPushed(q) then 1 else 0
  }

  /** Each producer has pushed 0, 1, 2, ... in this order. */
  predicate InOrder(s: State, testCount: nat) {
    && (forall i :: 0 <= i < |s.history| ==> s.history[i].0 < |s.producers|)
    && (forall p :: 0 <= p < |s.producers| ==> ByProducer(s.history, p) == Upto(Pushed(s.producers[p])))
    && (forall p :: 0 <= p < |s.producers| ==> ProducerOk(s.producers[p], testCount))
  }

  predicate ProducerOk(q: Producer, testCount: nat) {
    && q.k <= testCount && q.success == q.k
    && (q.pc == Finished ==> q.k == testCount)
    && (q.pc != AtLoop && q.pc != Finished ==> q.k < testCount)
  }

  /** Someone is about to send. */
  predicate SendComing(s: State) {
    exists p :: 0 <= p < |s.producers| && HasPushed(s.producers[p])
  }

  /** A nonempty vector is never forgotten. */
  predicate NoLostWakeUp(s: State) {
    s.vec != [] ==> s.pending || s.pc == Entering || s.pc == Taking || s.pc == Clearing || SendComing(s)
  }

  predicate Inv(s: State, testCount: nat) {
    MutualExclusion(s) && Snapshots(s) && Conserved(s) && InOrder(s, testCount) && NoLostWakeUp(s)
  }

  predicate IsConsumers(a: Action) {
    a.Wake? || a.ConsumerExchange? || a.Take? || a.Clear? || a.ConsumerStore? || a.Count?
  }

  lemma InitKeeps(threads: nat, testCount: nat)
    ensures Inv(Init(threads), testCount)
  {}

  lemma ConsumerMutex(s: State, a: Action, testCount: nat)
    requires MutualExclusion(s) && Enabled(s, a) && IsConsumers(a)
    ensures MutualExclusion(Step(s, a, testCount))
  {
    assert Step(s, a, testCount).producers == s.producers;
  }

  lemma ProducerMutex(s: State, a: Action, testCount: nat)
    requires MutualExclusion(s) && Enabled(s, a) && !IsConsumers(a)
    ensures MutualExclusion(Step(s, a, testCount))
  {
    var t, p := Step(s, a, testCount), a.p;
    assert forall q :: 0 <= q < |s.producers| && q != p ==> t.producers[q] == s.producers[q];
    assert HoldsLock(s.producers[p]) ==> Held(s);
    assert HoldsLock(t.producers[p]) ==> Held(t);
    if q :| 0 <= q < |s.producers| && q != p && HoldsLock(s.producers[q]) {
      assert HoldsLock(t.producers[q]);
    }
  }

  lemma MutexKept(s: State, a: Action, testCount: nat)
    requires MutualExclusion(s) && Enabled(s, a)
    ensures MutualExclusion(Step(s, a, testCount))
  {
    if IsConsumers(a) {
      ConsumerMutex(s, a, testCount);
    } else {
      ProducerMutex(s, a, testCount);
    }
  }

  /** Only the holder of the lock writes the vector, so what the holder has seen stays true. */
  lemma SnapshotsKept(s: State, a: Action, testCount: nat)
    requires MutualExclusion(s) && Snapshots(s) && Enabled(s, a)
    ensures Snapshots(Step(s, a, testCount))
  {
    var t := Step(s, a, testCount);
    if IsConsumers(a) {
      assert t.producers == s.producers;
      forall q | 0 <= q < |s.producers| && s.producers[q].pc == Committing ensures s.producers[q].seen == t.vec {
        assert HoldsLock(s.producers[q]);
      }
    } else {
      var p := a.p;
      assert a.Commit? ==> HoldsLock(s.producers[p]);
      forall q | 0 <= q < |s.producers| && q != p && s.producers[q].pc == Committing
        ensures s.producers[q].seen == t.vec
      {
        assert HoldsLock(s.producers[q]);
      }
    }
  }

  lemma CommitConserves(s: State, p: nat, testCount: nat)
    requires MutualExclusion(s) && Snapshots(s) && Conserved(s) && Enabled(s, Commit(p))
    ensures Conserved(Step(s, Commit(p), testCount))
  {
    var t, k := Step(s, Commit(p), testCount), s.producers[p].k;
    assert HoldsLock(s.producers[p]);
    assert t.vec == s.vec + [k];
    assert Values(t.history) == Values(s.history) + [k];
  }

  lemma TakeConserves(s: State, testCount: nat)
    requires Conserved(s) && Enabled(s, Take)
    ensures Conserved(Step(s, Take, testCount))
  {
    FlattenMore(s.batches, s.vec);
  }

  lemma FlattenMore(batches: seq<seq<int>>, v: seq<int>)
    ensures Flatten(batches + [v]) == Flatten(batches) + v
  {
    assert (batches + [v])[..|batches|] == batches;
  }

  /** Conservation rests on the lock: a commit writes back the vector as it is, and never while it is being taken. */
  lemma ConservedKept(s: State, a: Action, testCount: nat)
    requires MutualExclusion(s) && Snapshots(s) && Conserved(s) && Enabled(s, a)
    ensures Conserved(Step(s, a, testCount))
  {
    if a.Commit? {
      CommitConserves(s, a.p, testCount);
    } else if a.Take? {
      TakeConserves(s, testCount);
    }
  }

  lemma ByProducerPush(history: seq<(nat, int)>, p: nat, k: int, r: nat)
    ensures ByProducer(history + [(p, k)], r) == ByProducer(history, r) + if p == r then [k] else []
  {
    var h := history + [(p, k)];
    assert h[..|h| - 1] == history;
  }

  lemma PushInOrder(s: State, p: nat, testCount: nat)
    requires InOrder(s, testCount) && At(s, p, Committing)
    ensures InOrder(Step(s, Commit(p), testCount), testCount)
  {
    var t := Step(s, Commit(p), testCount);
    var k := s.producers[p].k;
    assert Upto(k + 1) == Upto(k) + [k];
    forall r | 0 <= r < |s.producers| ensures ByProducer(t.history, r) == Upto(Pushed(t.producers[r])) {
      ByProducerPush(s.history, p, k, r);
    }
  }

  /** A step that pushes nothing moves one producer at most, and leaves what it has pushed. */
  lemma PushedStays(s: State, a: Action, testCount: nat)
    requires InOrder(s, testCount) && Enabled(s, a) && !a.Commit?
    ensures var t := Step(s, a, testCount);
            && t.history == s.history && |t.producers| == |s.producers|
            && forall r :: 0 <= r < |s.producers| ==>
                 Pushed(t.producers[r]) == Pushed(s.producers[r]) && ProducerOk(t.producers[r], testCount)
  {
    if !IsConsumers(a) {
      assert ProducerOk(s.producers[a.p], testCount);
    }
  }

  lemma InOrderKept(s: State, a: Action, testCount: nat)
    requires InOrder(s, testCount) && Enabled(s, a)
    ensures InOrder(Step(s, a, testCount), testCount)
  {
    if a.Commit? {
      PushInOrder(s, a.p, testCount);
    } else {
      PushedStays(s, a, testCount);
    }
  }

  lemma WakeUpKept(s: State, a: Action, testCount: nat)
    requires NoLostWakeUp(s) && Enabled(s, a)
    ensures NoLostWakeUp(Step(s, a, testCount))
  {
    var t := Step(s, a, testCount);
    if SendComing(s) {
      var p :| 0 <= p < |s.producers| && HasPushed(s.producers[p]);
      if t.producers[p].pc == Unlocking || t.producers[p].pc == Sending {
        assert HasPushed(t.producers[p]);
      }
    }
    if a.Commit? { assert HasPushed(t.producers[a.p]); }
  }

  lemma StepKeeps(s: State, a: Action, testCount: nat)
    requires Inv(s, testCount) && Enabled(s, a)
    ensures Inv(Step(s, a, testCount), testCount)
  {
    MutexKept(s, a, testCount);
    SnapshotsKept(s, a, testCount);
    ConservedKept(s, a, testCount);
    InOrderKept(s, a, testCount);
    WakeUpKept(s, a, testCount);
  }

  // ----- runs

  /** The states of a run from the initial one, one longer than its actions. */
  predicate IsRun(threads: nat, testCount: nat, states: seq<State>, actions: seq<Action>) {
    && |states| == |actions| + 1 && states[0] == Init(threads)
    && forall i :: 0 <= i < |actions| ==>
         Enabled(states[i], actions[i]) && states[i + 1] == Step(states[i], actions[i], testCount)
  }

  /** Every state of every run satisfies the invariant, with as many producers as at the start. */
  lemma {:induction false} RunKeeps(threads: nat, testCount: nat, states: seq<State>, actions: seq<Action>, i: nat)
    requires IsRun(threads, testCount, states, actions) && i < |states|
    ensures Inv(states[i], testCount) && |states[i].producers| == threads
  {
    if i == 0 {
      InitKeeps(threads, testCount);
    } else {
      RunKeeps(threads, testCount, states, actions, i - 1);
      StepKeeps(states[i - 1], actions[i - 1], testCount);
    }
  }

  /** Nothing is left to do. */
  predicate Quiescent(s: State) {
    s.pc == Polling && !s.pending && forall p :: 0 <= p < |s.producers| ==> s.producers[p].pc == Finished
  }

  function CountOf(history: seq<(nat, int)>, threads: nat): nat {
    if threads == 0 then 0 else CountOf(history, threads - 1) + |ByProducer(history, threads - 1)|
  }

  lemma {:induction false} CountOfPush(history: seq<(nat, int)>, p: nat, k: int, threads: nat)
    ensures CountOf(history + [(p, k)], threads) == CountOf(history, threads) + if p < threads then 1 else 0
  {
    if threads > 0 {
      CountOfPush(history, p, k, threads - 1);
      ByProducerPush(history, p, k, threads - 1);
    }
  }

  lemma {:induction false} NothingPushed(threads: nat)
    ensures CountOf([], threads) == 0
  {
    if threads > 0 {
      NothingPushed(threads - 1);
    }
  }

  lemma {:induction false} HistoryLength(history: seq<(nat, int)>, threads: nat)
    requires forall i :: 0 <= i < |history| ==> history[i].0 < threads
    ensures |history| == CountOf(history, threads)
  {
    if history == [] {
      NothingPushed(threads);
    } else {
      var n := |history| - 1;
      HistoryLength(history[..n], threads);
      CountOfPush(history[..n], history[n].0, history[n].1, threads);
      assert history == history[..n] + [history[n]];
    }
  }

  lemma {:induction false} CountOfFull(history: seq<(nat, int)>, threads: nat, testCount: nat)
    requires forall p :: 0 <= p < threads ==> |ByProducer(history, p)| == testCount
    ensures CountOf(history, threads) == threads * testCount
  {
    if threads > 0 {
      CountOfFull(history, threads - 1, testCount);
      assert threads * testCount == (threads - 1) * testCount + testCount;
    }
  }

  /** At quiescence every item of every producer has been consumed and counted, once. */
  lemma QuiescentConsumedAll(s: State, testCount: nat)
    requires Inv(s, testCount) && Quiescent(s)
    ensures s.vec == [] && Flatten(s.batches) == Values(s.history)
    ensures s.total == |s.producers| * testCount
    ensures forall p :: 0 <= p < |s.producers| ==> ByProducer(s.history, p) == Upto(testCount)
  {
    assert !SendComing(s);
    assert forall p :: 0 <= p < |s.producers| ==> Pushed(s.producers[p]) == testCount;
    HistoryLength(s.history, |s.producers|);
    CountOfFull(s.history, |s.producers|, testCount);
  }

  /** At any time what was consumed is a prefix of the push history, and for each producer a prefix of its items. */
  lemma ConsumedInOrder(s: State, testCount: nat, p: nat)
    requires Inv(s, testCount) && p < |s.producers|
    ensures var c := |Flatten(s.batches)|;
            c <= |s.history| && Flatten(s.batches) == Values(s.history[..c])
            && ByProducer(s.history[..c], p) <= Upto(testCount)
  {
    var c := |Flatten(s.batches)|;
    assert c <= |Values(s.history)|;
    assert Flatten(s.batches) == Values(s.history)[..c] == Values(s.history[..c]);
    ByProducerPrefix(s.history, c, p);
    assert ByProducer(s.history, p) == Upto(Pushed(s.producers[p])) <= Upto(testCount);
  }

  lemma {:induction false} ByProducerPrefix(history: seq<(nat, int)>, c: nat, p: nat)
    requires c <= |history|
    ensures ByProducer(history[..c], p) <= ByProducer(history, p)
  {
    if c < |history| {
      var n := |history| - 1;
      ByProducerPrefix(history[..n], c, p);
      assert history[..n][..c] == history[..c];
    } else {
      assert history[..c] == history;
    }
  }

  // ----- progress

  /** An exchange that found the lock taken: the thread stays where it is. */
  predicate Spins(s: State, a: Action) {
    (a.Exchange? || a.ConsumerExchange?) && s.lock == Locked
  }

  /** Steps a producer still takes and wakes the consumer for, counting six for each of its sends. */
  function ProducerWork(q: Producer, testCount: nat): int {
    match q.pc
    case AtLoop => 12 * (testCount - q.k) + 1
    case Locking => 12 * (testCount - q.k)
    case Loading => 12 * (testCount - q.k) - 1
    case Committing => 12 * (testCount - q.k) - 2
    case Unlocking => 12 * (testCount - q.k) - 3
    case Sending => 12 * (testCount - q.k) - 4
    case Finished => 0
  }

  function AllWork(producers: seq<Producer>, testCount: nat): int {
    if producers == [] then 0 else
      var n := |producers| - 1;
      AllWork(producers[..n], testCount) + ProducerWork(producers[n], testCount)
  }

  function ConsumerWork(s: State): nat {
    (if s.pending then 6 else 0) +
    match s.pc
    case Polling => 0
    case Entering => 5
    case Taking => 4
    case Clearing => 3
    case Leaving => 2
    case Counting => 1
  }

  function Work(s: State, testCount: nat): int {
    AllWork(s.producers, testCount) + ConsumerWork(s)
  }

  lemma {:induction false} WorkUpdate(producers: seq<Producer>, p: nat, q: Producer, testCount: nat)
    requires p < |producers|
    ensures AllWork(producers[p := q], testCount)
         == AllWork(producers, testCount) - ProducerWork(producers[p], testCount) + ProducerWork(q, testCount)
  {
    var n := |producers| - 1;
    if p < n {
      WorkUpdate(producers[..n], p, q, testCount);
      assert producers[p := q][..n] == producers[..n][p := q];
    } else {
      assert producers[p := q][..n] == producers[..n];
    }
  }

  lemma {:induction false} WorkNonnegative(producers: seq<Producer>, testCount: nat)
    requires forall p :: 0 <= p < |producers| ==> ProducerOk(producers[p], testCount)
    ensures AllWork(producers, testCount) >= 0
  {
    if producers != [] {
      WorkNonnegative(producers[..|producers| - 1], testCount);
    }
  }

  /** A producer's own step costs it more than the signal it may raise is worth. */
  lemma ProducerStepWorks(s: State, a: Action, testCount: nat)
    requires InOrder(s, testCount) && Enabled(s, a) && !Spins(s, a) && !IsConsumers(a)
    ensures var t := Step(s, a, testCount);
            && t.producers == s.producers[a.p := t.producers[a.p]] && ConsumerWork(t) <= ConsumerWork(s) + 6
            && ProducerWork(t.producers[a.p], testCount) + (if a.Send? then 6 else 0)
               < ProducerWork(s.producers[a.p], testCount)
            && (!a.Send? ==> ConsumerWork(t) == ConsumerWork(s))
  {
    assert ProducerOk(s.producers[a.p], testCount);
  }

  /** Every step but a spin uses up work. */
  lemma StepWorks(s: State, a: Action, testCount: nat)
    requires Inv(s, testCount) && Enabled(s, a) && !Spins(s, a)
    ensures Work(Step(s, a, testCount), testCount) < Work(s, testCount)
  {
    if IsConsumers(a) {
      assert Step(s, a, testCount).producers == s.producers;
    } else {
      ProducerStepWorks(s, a, testCount);
      WorkUpdate(s.producers, a.p, Step(s, a, testCount).producers[a.p], testCount);
    }
  }

  /** If something is left to do, some thread can take a step that is not a spin. */
  lemma SomeoneMoves(s: State, testCount: nat) returns (a: Action)
    requires Inv(s, testCount) && !Quiescent(s)
    ensures Enabled(s, a) && !Spins(s, a)
  {
    if ConsumerHolds(s) || s.pc == Counting {
      a := if s.pc == Taking then Take
           else if s.pc == Clearing then Clear
           else if s.pc == Leaving then ConsumerStore
           else Count;
    } else if p :| 0 <= p < |s.producers| && HoldsLock(s.producers[p]) {
      var pc := s.producers[p].pc;
      a := if pc == Loading then Load(p) else if pc == Committing then Commit(p) else Store(p);
    } else if s.pc == Entering {
      a := ConsumerExchange;
    } else if s.pending {
      a := Wake;
    } else {
      var p :| 0 <= p < |s.producers| && s.producers[p].pc != Finished;
      var pc := s.producers[p].pc;
      a := if pc == AtLoop then Test(p) else if pc == Locking then Exchange(p) else Send(p);
    }
  }

  lemma {:induction false} InitialWork(threads: nat, testCount: nat)
    ensures Work(Init(threads), testCount) == threads * (12 * testCount + 1)
  {
    if threads > 0 {
      InitialWork(threads - 1, testCount);
      var ps, qs := Init(threads).producers, Init(threads - 1).producers;
      assert ps[..threads - 1] == qs;
      assert threads * (12 * testCount + 1) == (threads - 1) * (12 * testCount + 1) + (12 * testCount + 1);
    }
  }

  /** The number of steps of a run that are not spins. */
  function Moves(states: seq<State>, actions: seq<Action>): nat
    requires |states| == |actions| + 1
  {
    if actions == [] then 0 else
      var n := |actions| - 1;
      Moves(states[..n + 1], actions[..n]) + if Spins(states[n], actions[n]) then 0 else 1
  }

  /** Every run makes at most threads * (12 * testCount + 1) steps that are not spins. */
  lemma {:induction false} FewMoves(threads: nat, testCount: nat, states: seq<State>, actions: seq<Action>)
    requires IsRun(threads, testCount, states, actions)
    ensures Moves(states, actions) + Work(states[|actions|], testCount) <= threads * (12 * testCount + 1)
    ensures Moves(states, actions) <= threads * (12 * testCount + 1)
  {
    RunKeeps(threads, testCount, states, actions, |actions|);
    WorkNonnegative(states[|actions|].producers, testCount);
    if actions == [] {
      InitialWork(threads, testCount);
    } else {
      var n := |actions| - 1;
      FewMoves(threads, testCount, states[..n + 1], actions[..n]);
      RunKeeps(threads, testCount, states, actions, n);
      SpinsStand(states[n], actions[n], testCount);
    }
  }

  lemma SpinsStand(s: State, a: Action, testCount: nat)
    requires Inv(s, testCount) && Enabled(s, a)
    ensures Spins(s, a) ==> Step(s, a, testCount) == s
    ensures !Spins(s, a) ==> Work(Step(s, a, testCount), testCount) < Work(s, testCount)
  {
    if !Spins(s, a) {
      StepWorks(s, a, testCount);
    }
  }

  /** A run that cannot go on except by spinning has consumed and counted everything. */
  lemma StuckRunIsDone(threads: nat, testCount: nat, states: seq<State>, actions: seq<Action>)
    requires IsRun(threads, testCount, states, actions)
    requires forall a :: Enabled(states[|actions|], a) ==> Spins(states[|actions|], a)
    ensures states[|actions|].total == threads * testCount && states[|actions|].vec == []
  {
    var s := states[|actions|];
    RunKeeps(threads, testCount, states, actions, |actions|);
    if !Quiescent(s) {
      var a := SomeoneMoves(s, testCount);
      assert false;
    }
    QuiescentConsumedAll(s, testCount);
  }

  // ----- signals

  /** A signal is pending until a wake-up takes it. */
  lemma {:induction false} SignalStays(threads: nat, testCount: nat, states: seq<State>, actions: seq<Action>,
                                       i: nat, n: nat)
    returns (j: nat)
    requires IsRun(threads, testCount, states, actions) && i <= n <= |actions|
    requires states[i].pending && !states[n].pending
    ensures i <= j < n && actions[j] == Wake
    decreases n
  {
    if states[n - 1].pending {
      j := n - 1;
    } else {
      j := SignalStays(threads, testCount, states, actions, i, n - 1);
    }
  }

  /** Every send is answered: before nothing is left to do, the consumer wakes up once more. */
  lemma SendIsAnswered(threads: nat, testCount: nat, states: seq<State>, actions: seq<Action>, i: nat, n: nat)
    returns (j: nat)
    requires IsRun(threads, testCount, states, actions) && i < n <= |actions|
    requires actions[i].Send? && Quiescent(states[n])
    ensures i < j < n && actions[j] == Wake
  {
    j := SignalStays(threads, testCount, states, actions, i + 1, n);
  }

  function Sends(actions: seq<Action>): nat {
    if actions == [] then 0 else
      var n := |actions| - 1;
      Sends(actions[..n]) + if actions[n].Send? then 1 else 0
  }

  function Wakes(actions: seq<Action>): nat {
    if actions == [] then 0 else
      var n := |actions| - 1;
      Wakes(actions[..n]) + if actions[n].Wake? then 1 else 0
  }

  /** Signals are merged, never made up: the consumer wakes up at most once per send. */
  lemma {:induction false} WakesAreSent(threads: nat, testCount: nat, states: seq<State>, actions: seq<Action>)
    requires IsRun(threads, testCount, states, actions)
    ensures Wakes(actions) + (if states[|actions|].pending then 1 else 0) <= Sends(actions)
  {
    if actions != [] {
      WakesAreSent(threads, testCount, states[..|actions|], actions[..|actions| - 1]);
    }
  }

  // ----- without the lock

  /** The same threads with lock() storing Locked and going on at once. */
  function FreeStep(s: State, a: Action, testCount: nat): State
    requires Enabled(s, a)
  {
    match a
    case Exchange(p) => Move(s.(lock := Locked), p, Loading)
    case ConsumerExchange => s.(lock := Locked, pc := Taking)
    case _ => Step(s, a, testCount)
  }

  /** s is the end of a run of these threads. */
  ghost predicate FreelyReached(threads: nat, testCount: nat, s: State) {
    exists states: seq<State>, actions: seq<Action> ::
      IsFreeRun(threads, testCount, states, actions) && states[|actions|] == s
  }

  predicate IsFreeRun(threads: nat, testCount: nat, states: seq<State>, actions: seq<Action>) {
    && |states| == |actions| + 1 && states[0] == Init(threads)
    && forall i :: 0 <= i < |actions| ==>
         Enabled(states[i], actions[i]) && states[i + 1] == FreeStep(states[i], actions[i], testCount)
  }

  lemma FreeStart(threads: nat, testCount: nat)
    ensures FreelyReached(threads, testCount, Init(threads))
  {
    assert IsFreeRun(threads, testCount, [Init(threads)], []);
  }

  lemma FreeRunMore(threads: nat, testCount: nat, states: seq<State>, actions: seq<Action>, a: Action)
    requires IsFreeRun(threads, testCount, states, actions) && Enabled(states[|actions|], a)
    ensures IsFreeRun(threads, testCount, states + [FreeStep(states[|actions|], a, testCount)], actions + [a])
  {
    var n := |actions|;
    var states', actions' := states + [FreeStep(states[n], a, testCount)], actions + [a];
    forall i | 0 <= i < |actions'|
      ensures Enabled(states'[i], actions'[i]) && states'[i + 1] == FreeStep(states'[i], actions'[i], testCount)
    {
      assert states'[i] == states[i];
      if i < n {
        assert actions'[i] == actions[i] && states'[i + 1] == states[i + 1];
      }
    }
  }

  lemma Go(s: State, a: Action) returns (t: State)
    requires FreelyReached(2, 1, s) && Enabled(s, a)
    ensures t == FreeStep(s, a, 1) && FreelyReached(2, 1, t)
  {
    var states: seq<State>, actions: seq<Action> :| IsFreeRun(2, 1, states, actions) && states[|actions|] == s;
    t := FreeStep(s, a, 1);
    FreeRunMore(2, 1, states, actions, a);
  }

  lemma BothLoaded() returns (s: State)
    ensures FreelyReached(2, 1, s)
    ensures s == State(Locked, [], false, [Producer(Committing, 0, 0, []), Producer(Committing, 0, 0, [])],
                       Polling, [], 0, [], [])
  {
    FreeStart(2, 1);
    s := Go(Init(2), Test(0));
    s := Go(s, Exchange(0));
    s := Go(s, Load(0));
    s := Go(s, Test(1));
    s := Go(s, Exchange(1));
    s := Go(s, Load(1));
  }

  /** Both producers have seen the empty vector, so the second commit overwrites the first. */
  lemma OneOverwritten() returns (s: State)
    ensures FreelyReached(2, 1, s)
    ensures s == State(Locked, [0], false, [Producer(Unlocking, 0, 0, []), Producer(Unlocking, 0, 0, [])],
                       Polling, [], 0, [(0, 0), (1, 0)], [])
  {
    s := BothLoaded();
    s := Go(s, Commit(0));
    s := Go(s, Commit(1));
  }

  lemma BothFinished() returns (s: State)
    ensures FreelyReached(2, 1, s)
    ensures s == State(Unlocked, [0], true, [Producer(Finished, 1, 1, []), Producer(Finished, 1, 1, [])],
                       Polling, [], 0, [(0, 0), (1, 0)], [])
  {
    s := OneOverwritten();
    s := Go(s, Store(0));
    s := Go(s, Send(0));
    s := Go(s, Test(0));
    s := Go(s, Store(1));
    s := Go(s, Send(1));
    s := Go(s, Test(1));
  }

  /** Without the lock a run of two producers with one item each ends with nothing left to do and one item consumed. */
  lemma LockIsNeeded() returns (s: State)
    ensures FreelyReached(2, 1, s) && Quiescent(s) && s.vec == []
    ensures |s.history| == 2 && s.total == 1 && Flatten(s.batches) == [0]
  {
    s := BothFinished();
    s := Go(s, Wake);
    s := Go(s, ConsumerExchange);
    s := Go(s, Take);
    s := Go(s, Clear);
    s := Go(s, ConsumerStore);
    s := Go(s, Count);
    assert Flatten([[0]][..0]) == [];
  }
}
