/**
 Object id allocation of src/catalog/CatCacheBase_private.inc:868-885 as a state machine: any number of threads,
 each running the load / compare-and-swap loop, with every load and every compare-and-swap one atomic step.
 */
module OidAllocation {

  /** One above the largest system oid (`max_sys_oid + 1`), where the counter starts. */
  const FIRST_OID := 20000
  const MAX_OID := 0xffff_fffe
  const INVALID_OID := 0
  const U32_SIZE := 0x1_0000_0000

  /** Between calls, or inside the loop with the counter value last seen there. */
  datatype Thread = Idle | Trying(seen: nat)

  /** A successful compare-and-swap: the thread and the id that its call returns. */
  datatype Win = Win(thread: nat, id: nat)

  /**
   The shared counter and the threads. The rest is history: the wins in order, how many there were when each
   thread last read the counter, its failed swaps, and the calls that returned no id.
   */
  datatype State = State(counter: nat, threads: seq<Thread>, wins: seq<Win>, readAt: seq<nat>, failed: seq<nat>, refused: nat)

  datatype Action = Load(t: nat) | Attempt(t: nat)

  function Init(n: nat): (s: State)
    ensures |s.threads| == |s.readAt| == |s.failed| == n
  {
    State(FIRST_OID, seq(n, i => Idle), [], seq(n, i => 0), seq(n, i => 0), 0)
  }

  predicate Enabled(s: State, a: Action) {
    |s.threads| == |s.readAt| == |s.failed| &&
    match a
    case Load(t) => t < |s.threads| && s.threads[t].Idle?
    case Attempt(t) => t < |s.threads| && s.threads[t].Trying?
  }

  /** The thread's value is larger than the largest oid: its call returns `InvalidOid`. */
  predicate GivesUp(s: State, t: nat)
    requires Enabled(s, Attempt(t))
  {
    s.threads[t].seen > MAX_OID
  }

  predicate Succeeds(s: State, t: nat)
    requires Enabled(s, Attempt(t))
  {
    !GivesUp(s, t) && s.counter == s.threads[t].seen
  }

  /** A thread starts a call and loads the counter, or takes one turn of the loop. Other actions have no effect. */
  function Do(s: State, a: Action): State {
    if !Enabled(s, a) then s else
      match a
      case Load(t) => s.(threads := s.threads[t := Trying(s.counter)], readAt := s.readAt[t := |s.wins|])
      case Attempt(t) =>
        if GivesUp(s, t) then s.(threads := s.threads[t := Idle], refused := s.refused + 1)
        else if Succeeds(s, t) then
          s.(counter := (s.threads[t].seen + 1) % U32_SIZE, threads := s.threads[t := Idle],
             wins := s.wins + [Win(t, s.threads[t].seen)])
        else
          s.(threads := s.threads[t := Trying(s.counter)], readAt := s.readAt[t := |s.wins|],
             failed := s.failed[t := s.failed[t] + 1])
  }

  function Run(s: State, schedule: seq<Action>): State
    decreases |schedule|
  {
    if schedule == [] then s else Run(Do(s, schedule[0]), schedule[1..])
  }

  /** The number of wins of other threads among the first `n`. */
  function OthersWon(wins: seq<Win>, t: nat, n: nat): nat
    requires n <= |wins|
  {
    if n == 0 then 0 else OthersWon(wins, t, n - 1) + if wins[n - 1].thread != t then 1 else 0
  }

  lemma {:induction false} OthersWonPrefix(wins: seq<Win>, more: seq<Win>, t: nat, n: nat)
    requires n <= |wins| && wins <= more
    ensures OthersWon(more, t, n) == OthersWon(wins, t, n)
  {
    if n > 0 {
      OthersWonPrefix(wins, more, t, n - 1);
    }
  }

  lemma {:induction false} OthersWonMonotone(wins: seq<Win>, t: nat, m: nat, n: nat)
    requires m <= n <= |wins|
    ensures OthersWon(wins, t, m) <= OthersWon(wins, t, n)
    ensures m < n && wins[n - 1].thread != t ==> OthersWon(wins, t, m) < OthersWon(wins, t, n)
  {
    if m < n {
      OthersWonMonotone(wins, t, m, n - 1);
    }
  }

  /** What holds of one thread: everything won since it last read the counter was won by others. */
  ghost predicate ThreadOk(s: State, t: nat)
    requires t < |s.threads| == |s.readAt| == |s.failed|
  {
    s.readAt[t] <= |s.wins| &&
    match s.threads[t]
    case Idle => s.failed[t] <= OthersWon(s.wins, t, |s.wins|)
    case Trying(seen) =>
      && seen == FIRST_OID + s.readAt[t] && s.failed[t] <= OthersWon(s.wins, t, s.readAt[t])
      && forall k :: s.readAt[t] <= k < |s.wins| ==> s.wins[k].thread != t
  }

  /** The ids returned so far are the consecutive ones from the first on, and the counter is behind them. */
  ghost predicate Consecutive(s: State) {
    && s.counter == FIRST_OID + |s.wins| <= MAX_OID + 1
    && forall k :: 0 <= k < |s.wins| ==> s.wins[k].id == FIRST_OID + k
  }

  ghost predicate Inv(s: State) {
    && |s.threads| == |s.readAt| == |s.failed| && Consecutive(s)
    && (forall t {:trigger ThreadOk(s, t)} :: 0 <= t < |s.threads| ==> ThreadOk(s, t))
    && (s.refused > 0 ==> s.counter == MAX_OID + 1)
  }

  lemma KeepsOthers(s: State, s': State, t: nat)
    requires Inv(s) && |s'.threads| == |s'.readAt| == |s'.failed| == |s.threads|
    requires s.wins <= s'.wins && forall k :: |s.wins| <= k < |s'.wins| ==> s'.wins[k].thread != t
    requires t < |s.threads| && s'.threads[t] == s.threads[t] && s'.readAt[t] == s.readAt[t] && s'.failed[t] == s.failed[t]
    ensures ThreadOk(s', t)
  {
    assert ThreadOk(s, t);
    OthersWonPrefix(s.wins, s'.wins, t, s.readAt[t]);
    OthersWonPrefix(s.wins, s'.wins, t, |s.wins|);
    OthersWonMonotone(s'.wins, t, |s.wins|, |s'.wins|);
  }

  lemma StepInv(s: State, a: Action)
    requires Inv(s)
    ensures Inv(Do(s, a))
  {
    var s' := Do(s, a);
    if Enabled(s, a) {
      forall t | 0 <= t < |s.threads|
        ensures ThreadOk(s', t)
      {
        assert ThreadOk(s, t);
        if t != a.t {
          KeepsOthers(s, s', t);
        } else if a.Attempt? {
          ActorOk(s, t);
        } else {
          OthersWonMonotone(s.wins, t, s.readAt[t], |s.wins|);
        }
      }
      assert ThreadOk(s, a.t);
    }
  }

  lemma ActorOk(s: State, t: nat)
    requires Inv(s) && Enabled(s, Attempt(t))
    ensures ThreadOk(Do(s, Attempt(t)), t)
  {
    assert ThreadOk(s, t);
    var s' := Do(s, Attempt(t));
    OthersWonPrefix(s.wins, s'.wins, t, s.readAt[t]);
    OthersWonMonotone(s'.wins, t, s.readAt[t], |s'.wins|);
  }

  lemma {:induction false} RunInv(s: State, schedule: seq<Action>)
    requires Inv(s)
    ensures Inv(Run(s, schedule))
    decreases |schedule|
  {
    if schedule != [] {
      StepInv(s, schedule[0]);
      RunInv(Do(s, schedule[0]), schedule[1..]);
    }
  }

  /**
   Allocation safety, over every schedule of any number of threads: the valid ids returned are pairwise distinct
   and form the consecutive range from 20000, none exceeds the largest oid, and the 32-bit counter never wraps.
   A call is refused only when every id has been given out.
   */
  lemma AllocationSafe(n: nat, schedule: seq<Action>)
    ensures var s := Run(Init(n), schedule);
      && (forall k :: 0 <= k < |s.wins| ==> s.wins[k].id == 20000 + k <= 0xffff_fffe && s.wins[k].id != INVALID_OID)
      && s.counter == 20000 + |s.wins| < U32_SIZE
      && (s.refused > 0 ==> |s.wins| == 0xffff_fffe - 20000 + 1)
  {
    InitInv(n);
    RunInv(Init(n), schedule);
  }

  lemma InitInv(n: nat)
    ensures Inv(Init(n))
  {
    var s := Init(n);
    forall t | 0 <= t < n
      ensures ThreadOk(s, t)
    {
    }
  }

  /**
   A failed compare-and-swap means progress elsewhere: since the thread last read the counter another thread has
   won, and in the whole run a thread has failed at most as often as the others have won.
   */
  lemma FailureMeansProgress(n: nat, schedule: seq<Action>, t: nat)
    requires t < n
    ensures var s := Run(Init(n), schedule);
      && |s.threads| == |s.readAt| == |s.failed| == n && s.failed[t] <= OthersWon(s.wins, t, |s.wins|)
      && (Enabled(s, Attempt(t)) && !GivesUp(s, t) && !Succeeds(s, t) ==>
            s.readAt[t] < |s.wins| && forall k :: s.readAt[t] <= k < |s.wins| ==> s.wins[k].thread != t)
  {
    InitInv(n);
    RunInv(Init(n), schedule);
    RunThreads(Init(n), schedule);
    var s := Run(Init(n), schedule);
    assert ThreadOk(s, t);
    OthersWonMonotone(s.wins, t, s.readAt[t], |s.wins|);
  }

  lemma {:induction false} RunThreads(s: State, schedule: seq<Action>)
    ensures |Run(s, schedule).threads| == |s.threads|
    decreases |schedule|
  {
    if schedule != [] {
      RunThreads(Do(s, schedule[0]), schedule[1..]);
    }
  }

  /** Exactly the threads that have seen the counter behind the last id give up; then no id is left. */
  lemma GivesUpExactly(n: nat, schedule: seq<Action>, t: nat)
    requires t < n
    ensures var s := Run(Init(n), schedule);
      Enabled(s, Attempt(t)) ==>
        (GivesUp(s, t) <==> s.readAt[t] == MAX_OID - FIRST_OID + 1) &&
        (GivesUp(s, t) ==> s.counter == MAX_OID + 1)
  {
    InitInv(n);
    RunInv(Init(n), schedule);
    var s := Run(Init(n), schedule);
    if Enabled(s, Attempt(t)) {
      assert ThreadOk(s, t);
    }
  }
}
