/** Runs of the queue that go on forever: if no thread that can move is held up forever, everything gets consumed. */
module AsyncFair {
  import opened AsyncQueue

  /** What happens at a point of time: a step of some thread, or nothing. */
  datatype Event = Act(action: Action) | Idle

  datatype Thread = Sender(p: nat) | Receiver

  function ThreadOf(a: Action): Thread {
    if IsConsumers(a) then Receiver else Sender(a.p)
  }

  ghost predicate Happens(s: State, e: Event, t: State, testCount: nat) {
    match e
    case Act(a) => Enabled(s, a) && t == Step(s, a, testCount)
    case Idle => t == s
  }

  ghost predicate IsEndless(threads: nat, testCount: nat, states: nat -> State, events: nat -> Event) {
    states(0) == Init(threads) && forall i: nat :: Happens(states(i), events(i), states(i + 1), testCount)
  }

  /** A step that is not a spin. */
  predicate IsMove(s: State, e: Event) {
    e.Act? && Enabled(s, e.action) && !Spins(s, e.action)
  }

  ghost predicate CanMove(s: State, w: Thread) {
    exists a: Action :: ThreadOf(a) == w && Enabled(s, a) && !Spins(s, a)
  }

  ghost predicate CanMoveFrom(states: nat -> State, w: Thread, i: nat) {
    forall j: nat :: i <= j ==> CanMove(states(j), w)
  }

  ghost predicate MovesAfter(states: nat -> State, events: nat -> Event, w: Thread, i: nat) {
    exists j: nat :: i <= j && IsMove(states(j), events(j)) && ThreadOf(events(j).action) == w
  }

  /** A thread that can move from some time on moves at some later time. */
  ghost predicate Fair(states: nat -> State, events: nat -> Event) {
    forall w: Thread, i: nat :: CanMoveFrom(states, w, i) ==> MovesAfter(states, events, w, i)
  }

  lemma {:induction false} EndlessKeeps(threads: nat, testCount: nat, states: nat -> State, events: nat -> Event,
                                        i: nat)
    requires IsEndless(threads, testCount, states, events)
    ensures Inv(states(i), testCount) && |states(i).producers| == threads
  {
    if i == 0 {
      InitKeeps(threads, testCount);
    } else {
      EndlessKeeps(threads, testCount, states, events, i - 1);
      assert Happens(states(i - 1), events(i - 1), states(i - 1 + 1), testCount);
      if events(i - 1).Act? {
        StepKeeps(states(i - 1), events(i - 1).action, testCount);
      }
    }
  }

  /** One point of time: a move uses up work, anything else changes nothing. */
  lemma EventWorks(threads: nat, testCount: nat, states: nat -> State, events: nat -> Event, i: nat)
    requires IsEndless(threads, testCount, states, events)
    ensures if IsMove(states(i), events(i)) then Work(states(i + 1), testCount) < Work(states(i), testCount)
            else states(i + 1) == states(i)
    ensures Work(states(i + 1), testCount) <= Work(states(i), testCount)
  {
    EndlessKeeps(threads, testCount, states, events, i);
    assert Happens(states(i), events(i), states(i + 1), testCount);
    if events(i).Act? {
      SpinsStand(states(i), events(i).action, testCount);
    }
  }

  /** While nobody moves, nothing changes. */
  lemma {:induction false} Standstill(threads: nat, testCount: nat, states: nat -> State, events: nat -> Event,
                                      i: nat, j: nat)
    requires IsEndless(threads, testCount, states, events) && i <= j
    requires forall k: nat :: i <= k < j ==> !IsMove(states(k), events(k))
    ensures states(j) == states(i)
    decreases j
  {
    if i < j {
      Standstill(threads, testCount, states, events, i, j - 1);
      EventWorks(threads, testCount, states, events, j - 1);
    }
  }

  ghost predicate SomeoneMovesAfter(states: nat -> State, events: nat -> Event, i: nat) {
    exists j: nat :: i <= j && IsMove(states(j), events(j))
  }

  /** As long as something is left to do, somebody moves again. */
  ghost predicate Lively(states: nat -> State, events: nat -> Event) {
    forall i: nat :: !Quiescent(states(i)) ==> SomeoneMovesAfter(states, events, i)
  }

  lemma FairIsLively(threads: nat, testCount: nat, states: nat -> State, events: nat -> Event)
    requires IsEndless(threads, testCount, states, events) && Fair(states, events)
    ensures Lively(states, events)
  {
    forall i: nat | !Quiescent(states(i)) ensures SomeoneMovesAfter(states, events, i) {
      FairMovesAgain(threads, testCount, states, events, i);
    }
  }

  lemma FairMovesAgain(threads: nat, testCount: nat, states: nat -> State, events: nat -> Event, i: nat)
    requires IsEndless(threads, testCount, states, events) && Fair(states, events) && !Quiescent(states(i))
    ensures SomeoneMovesAfter(states, events, i)
  {
    EndlessKeeps(threads, testCount, states, events, i);
    var a := SomeoneMoves(states(i), testCount);
    var w := ThreadOf(a);
    if !SomeoneMovesAfter(states, events, i) {
      forall k: nat | i <= k ensures CanMove(states(k), w) {
        Standstill(threads, testCount, states, events, i, k);
      }
      assert CanMoveFrom(states, w, i);
      assert false;
    }
  }

  lemma {:induction false} WorkNeverGrows(threads: nat, testCount: nat, states: nat -> State, events: nat -> Event,
                                          i: nat, j: nat)
    requires IsEndless(threads, testCount, states, events) && i <= j
    ensures Work(states(j), testCount) <= Work(states(i), testCount)
    decreases j
  {
    if i < j {
      WorkNeverGrows(threads, testCount, states, events, i, j - 1);
      EventWorks(threads, testCount, states, events, j - 1);
    }
  }

  lemma {:induction false} QuietAfter(threads: nat, testCount: nat, states: nat -> State, events: nat -> Event, i: nat)
    returns (n: nat)
    requires IsEndless(threads, testCount, states, events) && Lively(states, events)
    ensures i <= n && Quiescent(states(n))
    decreases Work(states(i), testCount)
  {
    if Quiescent(states(i)) {
      n := i;
    } else {
      EndlessKeeps(threads, testCount, states, events, i);
      WorkNonnegative(states(i).producers, testCount);
      var j: nat :| i <= j && IsMove(states(j), events(j));
      WorkNeverGrows(threads, testCount, states, events, i, j);
      EventWorks(threads, testCount, states, events, j);
      n := QuietAfter(threads, testCount, states, events, j + 1);
    }
  }

  lemma NobodyMoves(s: State, e: Event)
    requires Quiescent(s)
    ensures !IsMove(s, e)
  {
  }

  lemma {:induction false} StaysQuiet(threads: nat, testCount: nat, states: nat -> State, events: nat -> Event,
                                      n: nat, m: nat)
    requires IsEndless(threads, testCount, states, events) && n <= m && Quiescent(states(n))
    ensures states(m) == states(n)
    decreases m
  {
    if n < m {
      StaysQuiet(threads, testCount, states, events, n, m - 1);
      NobodyMoves(states(m - 1), events(m - 1));
      EventWorks(threads, testCount, states, events, m - 1);
    }
  }

  /** In every fair run a time comes from which on everything pushed by every producer has been consumed and counted. */
  lemma FairRunConsumesAll(threads: nat, testCount: nat, states: nat -> State, events: nat -> Event) returns (n: nat)
    requires IsEndless(threads, testCount, states, events) && Fair(states, events)
    ensures forall m: nat :: n <= m ==>
              Quiescent(states(m)) && states(m).vec == [] && states(m).total == threads * testCount
  {
    FairIsLively(threads, testCount, states, events);
    n := QuietAfter(threads, testCount, states, events, 0);
    EndlessKeeps(threads, testCount, states, events, n);
    QuiescentConsumedAll(states(n), testCount);
    forall m: nat | n <= m ensures states(m) == states(n) {
      StaysQuiet(threads, testCount, states, events, n, m);
    }
  }

  lemma {:induction false} SignalTaken(threads: nat, testCount: nat, states: nat -> State, events: nat -> Event,
                                       i: nat, n: nat)
    returns (j: nat)
    requires IsEndless(threads, testCount, states, events) && i <= n && states(i).pending && !states(n).pending
    ensures i <= j < n && events(j) == Act(Wake)
    decreases n
  {
    assert Happens(states(n - 1), events(n - 1), states(n - 1 + 1), testCount);
    if states(n - 1).pending {
      j := n - 1;
    } else {
      j := SignalTaken(threads, testCount, states, events, i, n - 1);
    }
  }

  /** In every fair run each send is followed by a wake-up of the consumer. */
  lemma SendWakes(threads: nat, testCount: nat, states: nat -> State, events: nat -> Event, i: nat) returns (j: nat)
    requires IsEndless(threads, testCount, states, events) && Fair(states, events)
    requires events(i).Act? && events(i).action.Send?
    ensures i < j && events(j) == Act(Wake)
  {
    var n := FairRunConsumesAll(threads, testCount, states, events);
    var m := if n <= i then i + 1 else n;
    assert Happens(states(i), events(i), states(i + 1), testCount);
    assert Quiescent(states(m));
    j := SignalTaken(threads, testCount, states, events, i + 1, m);
  }

  // ----- fair runs exist

  /** A scheduler that lets somebody move whenever somebody can. */
  ghost function Pick(s: State): (e: Event)
    ensures (exists a: Action :: Enabled(s, a) && !Spins(s, a)) ==> IsMove(s, e)
    ensures e.Act? ==> Enabled(s, e.action)
  {
    if exists a: Action :: Enabled(s, a) && !Spins(s, a) then
      var a: Action :| Enabled(s, a) && !Spins(s, a);
      Act(a)
    else Idle
  }

  ghost function Scheduled(threads: nat, testCount: nat, i: nat): State {
    if i == 0 then Init(threads)
    else
      var s := Scheduled(threads, testCount, i - 1);
      var e := Pick(s);
      if e.Act? then Step(s, e.action, testCount) else s
  }

  /** A run in which somebody always moves again is fair: in the end nobody can move. */
  lemma LivelyIsFair(threads: nat, testCount: nat, states: nat -> State, events: nat -> Event)
    requires IsEndless(threads, testCount, states, events) && Lively(states, events)
    ensures Fair(states, events)
  {
    var n := QuietAfter(threads, testCount, states, events, 0);
    forall w: Thread, i: nat ensures !CanMoveFrom(states, w, i) {
      var m: nat := if i < n then n else i;
      StaysQuiet(threads, testCount, states, events, n, m);
      assert !CanMove(states(m), w);
    }
  }

  ghost predicate IsScheduled(threads: nat, testCount: nat, states: nat -> State, events: nat -> Event) {
    forall i: nat :: states(i) == Scheduled(threads, testCount, i) && events(i) == Pick(states(i))
  }

  lemma ScheduledRuns(threads: nat, testCount: nat, states: nat -> State, events: nat -> Event)
    requires IsScheduled(threads, testCount, states, events)
    ensures IsEndless(threads, testCount, states, events)
  {
    forall i: nat ensures Happens(states(i), events(i), states(i + 1), testCount) {
      assert states(i + 1) == Scheduled(threads, testCount, i + 1);
    }
  }

  lemma ScheduledIsLively(threads: nat, testCount: nat, states: nat -> State, events: nat -> Event)
    requires IsScheduled(threads, testCount, states, events) && IsEndless(threads, testCount, states, events)
    ensures Lively(states, events)
  {
    forall i: nat | !Quiescent(states(i)) ensures SomeoneMovesAfter(states, events, i) {
      EndlessKeeps(threads, testCount, states, events, i);
      var a := SomeoneMoves(states(i), testCount);
      assert IsMove(states(i), events(i));
    }
  }

  /** There is a fair run, for any number of producers and items. */
  lemma FairRunsExist(threads: nat, testCount: nat) returns (states: nat -> State, events: nat -> Event)
    ensures IsEndless(threads, testCount, states, events) && Fair(states, events)
  {
    states := (i: nat) => Scheduled(threads, testCount, i);
    events := (i: nat) => Pick(Scheduled(threads, testCount, i));
    ScheduledRuns(threads, testCount, states, events);
    ScheduledIsLively(threads, testCount, states, events);
    LivelyIsFair(threads, testCount, states, events);
  }
}
