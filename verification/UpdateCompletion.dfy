/**
 Endless executions of an update job: with finitely many crashes, and an orchestrator that
 is not starved, a started job completes and stays completed.
 */
module UpdateCompletion {
  import opened ControlTree
  import opened UpdateRun
  import opened UpdateSafety

  type Run = nat -> State
  type Schedule = nat -> Event

  ghost predicate Follows(run: Run, events: Schedule, i: nat) {
    Enabled(run(i), events(i)) && !events(i).StartJob? && run(i + 1) == Next(run(i), events(i))
  }

  /** An endless execution without a second start. */
  ghost predicate Execution(run: Run, events: Schedule) {
    forall i: nat {:trigger Follows(run, events, i)} :: Follows(run, events, i)
  }

  /** From `i` on the orchestrator gets its next step, or needs none. */
  ghost predicate Served(run: Run, events: Schedule, i: nat) {
    exists m: nat :: i <= m && (events(m).Orchestrator? || run(m).pc.Idle?)
  }

  ghost predicate Fair(run: Run, events: Schedule) {
    forall i: nat :: Served(run, events, i)
  }

  ghost predicate CrashesAt(events: Schedule, i: nat) {
    events(i).Crash?
  }

  ghost predicate NoCrashFrom(events: Schedule, c: nat) {
    forall i: nat :: c <= i ==> !CrashesAt(events, i)
  }

  ghost predicate Done(s: State) {
    s.pc.Idle? && s.job == JobCompleted && s.active.None?
  }

  lemma {:induction false} InvAlways(run: Run, events: Schedule, p: Parents, n: nat, i: nat)
    requires Execution(run, events) && Inv(run(0), p, n) && run(0).job != JobCreated
    ensures Inv(run(i), p, n) && run(i).job != JobCreated
  {
    if i > 0 {
      InvAlways(run, events, p, n, i - 1);
      InvAfter(run, events, p, n, i);
    }
  }

  lemma InvAfter(run: Run, events: Schedule, p: Parents, n: nat, i: nat)
    requires i > 0 && Execution(run, events) && Inv(run(i - 1), p, n) && run(i - 1).job != JobCreated
    ensures Inv(run(i), p, n) && run(i).job != JobCreated
  {
    assert Follows(run, events, i - 1);
    InvStep(run(i - 1), events(i - 1), p, n);
    JobNeverUndone(run(i - 1), events(i - 1));
  }

  /** Started from a state in order, and without a further start. */
  ghost predicate Started(run: Run, events: Schedule, p: Parents, n: nat) {
    Execution(run, events) && Inv(run(0), p, n) && run(0).job != JobCreated
  }

  ghost function RankAt(run: Run, n: nat, i: nat): int {
    Rank(run(i), n)
  }

  /** One step: the rank stays, or falls if it is the orchestrator's. */
  lemma RankAfter(run: Run, events: Schedule, p: Parents, n: nat, i: nat)
    requires Started(run, events, p, n) && !CrashesAt(events, i)
    ensures 0 <= RankAt(run, n, i + 1) <= RankAt(run, n, i)
    ensures events(i).Orchestrator? ==> RankAt(run, n, i + 1) < RankAt(run, n, i)
  {
    InvAlways(run, events, p, n, i);
    assert Follows(run, events, i);
    RankStep(run(i), events(i), p, n);
  }

  /** Without a crash the rank never grows. */
  lemma {:induction false} RankFalls(run: Run, events: Schedule, p: Parents, n: nat, i: nat, j: nat)
    requires Started(run, events, p, n) && NoCrashFrom(events, i) && i <= j
    ensures RankAt(run, n, j) <= RankAt(run, n, i)
    decreases j - i
  {
    if i < j {
      RankAfter(run, events, p, n, i);
      RankFalls(run, events, p, n, i + 1, j);
    }
  }

  lemma IdleIsDone(s: State, p: Parents, n: nat)
    requires Inv(s, p, n) && s.pc.Idle? && s.job != JobCreated
    ensures Done(s)
  {
    NeverStuck(s, p, n);
  }

  /** The next step it gets leads closer to the end, unless it is there. */
  lemma NextStep(run: Run, events: Schedule, p: Parents, n: nat, i: nat) returns (m: nat)
    requires Started(run, events, p, n) && Fair(run, events) && NoCrashFrom(events, i)
    ensures i <= m && (run(m).pc.Idle? || 0 <= RankAt(run, n, m + 1) < RankAt(run, n, i))
  {
    assert Served(run, events, i);
    m :| i <= m && (events(m).Orchestrator? || run(m).pc.Idle?);
    RankFalls(run, events, p, n, i, m);
    RankAfter(run, events, p, n, m);
  }

  lemma {:induction false} BecomesIdle(run: Run, events: Schedule, p: Parents, n: nat, i: nat, rank: nat)
    returns (k: nat)
    requires Started(run, events, p, n) && Fair(run, events) && NoCrashFrom(events, i)
    requires RankAt(run, n, i) <= rank
    ensures i <= k && run(k).pc.Idle?
    decreases rank
  {
    k := NextStep(run, events, p, n, i);
    if !run(k).pc.Idle? {
      k := BecomesIdle(run, events, p, n, k + 1, rank - 1);
    }
  }

  lemma {:induction false} StaysDone(run: Run, events: Schedule, k: nat, j: nat)
    requires Execution(run, events) && NoCrashFrom(events, k) && Done(run(k)) && k <= j
    ensures Done(run(j))
    decreases j - k
  {
    if k < j {
      StaysDone(run, events, k, j - 1);
      assert Follows(run, events, j - 1) && !CrashesAt(events, j - 1);
    }
  }

  /**
   Whatever the agents report, whichever nodes are deleted and however the clock runs: if
   the controller crashes finitely often, a started job is completed at some instant and
   from then on.
   */
  lemma StartedJobCompletes(run: Run, events: Schedule, p: Parents, n: nat, lastCrash: nat) returns (k: nat)
    requires Started(run, events, p, n) && Fair(run, events) && NoCrashFrom(events, lastCrash)
    ensures forall j: nat :: k <= j ==> Done(run(j))
  {
    InvAlways(run, events, p, n, lastCrash);
    RankNonNegative(run(lastCrash), p, n);
    k := BecomesIdle(run, events, p, n, lastCrash, RankAt(run, n, lastCrash));
    InvAlways(run, events, p, n, k);
    IdleIsDone(run(k), p, n);
    forall j: nat | k <= j ensures Done(run(j)) {
      StaysDone(run, events, k, j);
    }
  }
}
