// Bounded waiting: a process that stays ready is dispatched within a fixed number of calls,
// whatever the others do between calls (Kernel/utils/scheduler.c:178-259).
module SchedulerWaiting {
  import opened SchedulerSpec
  import opened SchedulerTheorems

  /** auxPriority never leaves [1, priority]; aging is at most PRIORITY_QUANTUM calls away. */
  predicate Aging(s: Sched) {
    && s.priorityQuantum <= PRIORITY_QUANTUM
    && forall i | 0 <= i < |s.list| :: 1 <= s.list[i].auxPriority <= s.list[i].priority
  }

  /** Nodes from just after the current one round to position `k`. */
  function Distance(s: Sched, k: nat): (d: nat)
    requires WellFormed(s) && k < |s.list|
    ensures 1 <= d <= |s.list|
  {
    if k >= SuffixStart(s) then k - SuffixStart(s) + 1 else k + (|s.list| - SuffixStart(s)) + 1
  }

  /** An upper bound on the calls until the process at `k` is dispatched. */
  function Rank(s: Sched, k: nat): nat
    requires WellFormed(s) && Aging(s) && k < |s.list|
  {
    var aux, n := s.list[k].auxPriority, |s.list|;
    if PrefixEnd(s) == k then 6 * (aux as int - 1) + 1 + n
    else if aux > 1 then 6 * (aux - 2) + s.priorityQuantum + 1 + n
    else Distance(s, k)
  }

  /** The process at `k` is ready and not the shell hidden behind a foreground process. */
  predicate Waiting(s: Sched, k: nat) {
    && WellFormed(s) && NoNullRead(s) && Aging(s) && !s.cur.Unstarted?
    && k < |s.list| && Eligible(s, k)
  }

  /** With least auxPriority 1 in play, the scan as written stops at or before the first ready 1. */
  lemma {:induction false} ScanHitsOne(l: seq<Process>, fg: bool, lo: nat, first: nat, j: nat, hi: nat, k: nat)
    requires Scannable(l, fg, lo, hi) && lo <= first < |l| && first <= j && lo <= j <= hi && (j == lo || first < j)
    requires lo <= k < hi && Ready(l[k]) && l[k].auxPriority == 1
    requires forall i | 0 <= i < |l| :: l[i].auxPriority >= 1
    requires k < j ==> first <= k && Ready(l[first]) && l[first].auxPriority == 1
    ensures var r := Scan(Incumbent, l, fg, first, j, hi);
            lo <= r <= k && Ready(l[r]) && l[r].auxPriority == 1
    decreases hi - j
  {
    if j < hi {
      var f := if !Ready(l[first]) then j else first;
      var g := if l[j].auxPriority < l[f].auxPriority && Ready(l[f]) then j else f;
      ScanHitsOne(l, fg, lo, g, j + 1, hi, k);
    }
  }

  /** Once its auxPriority is 1, each call brings the current position closer to the waiter. */
  lemma DecideApproaches(s: Sched, k: nat)
    requires Waiting(s, k) && s.list[k].auxPriority == 1 && PrefixEnd(s) != k
    ensures var c := Decide(s, PrefixScan(Incumbent, s));
            && c.Run?
            && (c.index != k ==>
                  if c.index + 1 <= k then k - c.index < Distance(s, k)
                  else k + (|s.list| - (c.index + 1)) + 1 < Distance(s, k))
  {
    var l, lo, hi, b := s.list, PrefixStart(s), PrefixEnd(s), SuffixStart(s);
    PrefixScanRange(Incumbent, s);
    if b < |l| {
      SuffixScanFinds(s);
    }
    if k < b {
      assert lo <= k < hi;
      ScanHitsOne(l, s.fgTaken, lo, lo, lo, hi, k);
    }
  }

  lemma AgedWaiting(s: Sched, k: nat)
    requires Waiting(s, k)
    ensures WellFormed(Aged(s)) && NoNullRead(Aged(s)) && Waiting(Aged(s), k)
    ensures PrefixEnd(Aged(s)) == PrefixEnd(s) && SuffixStart(Aged(s)) == SuffixStart(s)
    ensures |Aged(s).list| == |s.list|
    ensures PrefixEnd(s) == k ==> Aged(s).list[k].auxPriority == s.list[k].auxPriority
    ensures PrefixEnd(s) != k && s.priorityQuantum == 0 && s.list[k].auxPriority > 1 ==>
              Aged(s).list[k].auxPriority == s.list[k].auxPriority - 1
    ensures s.priorityQuantum != 0 || s.list[k].auxPriority == 1 ==>
              Aged(s).list[k].auxPriority == s.list[k].auxPriority
  {
    AgedWellFormed(s);
    IndexOfUnique(s.list, k);
  }

  /** Where the pointers stand after running the process at `i`. */
  lemma AfterRun(a: Sched, c: Choice)
    requires WellFormed(a) && Aging(a) && (c.Run? ==> c.index < |a.list|)
    ensures var t := Dispatch(a, c);
            && Aging(t) && |t.list| == |a.list| && t.priorityQuantum == a.priorityQuantum
            && (forall i | 0 <= i < |a.list| && c != Run(i) :: t.list[i] == a.list[i])
            && (c.Run? ==> t.cur == Listed(a.list[c.index].pid) && PrefixEnd(t) == c.index)
            && (c.Idle? ==> t.cur == Dummy && PrefixEnd(t) == |a.list|)
  {
    if c.Run? {
      var t := Dispatch(a, c);
      IndexOfUnique(a.list, c.index);
      SamePids(a.list, t.list, a.list[c.index].pid);
    } else {
      assert IndexOf(a.list, 0) == |a.list|;
    }
  }

  /** One call either dispatches the waiter or lowers its rank. */
  lemma RankFalls(s: Sched, k: nat)
    requires Waiting(s, k)
    ensures WellFormed(Switch(s)) && Aging(Switch(s)) && |Switch(s).list| == |s.list| && !Switch(s).cur.Unstarted?
    ensures Switch(s).list[k].pid == s.list[k].pid
    ensures Switch(s).cur == Listed(s.list[k].pid) || Rank(Switch(s), k) < Rank(s, k)
  {
    SwitchOutcome(s, k);
    if Chosen(s) != Run(k) {
      if PrefixEnd(s) == k || Aged(s).list[k].auxPriority > 1 {
        AuxSteps(s, k);
      } else {
        DistanceFalls(s, k);
      }
    }
  }

  /** Another process is dispatched while the waiter's auxPriority is above 1, or the waiter was current. */
  lemma AuxSteps(s: Sched, k: nat)
    requires Waiting(s, k) && Chosen(s) != Run(k) && (PrefixEnd(s) == k || Aged(s).list[k].auxPriority > 1)
    ensures WellFormed(Switch(s)) && Aging(Switch(s)) && k < |Switch(s).list|
    ensures Rank(Switch(s), k) < Rank(s, k)
  {
    SwitchOutcome(s, k);
    AgedWaiting(s, k);
  }

  /** The waiter's auxPriority is 1 and another process is dispatched nearer to it. */
  lemma DistanceFalls(s: Sched, k: nat)
    requires Waiting(s, k) && Chosen(s) != Run(k) && PrefixEnd(s) != k && Aged(s).list[k].auxPriority == 1
    ensures WellFormed(Switch(s)) && Aging(Switch(s)) && k < |Switch(s).list|
    ensures Rank(Switch(s), k) < Rank(s, k)
  {
    SwitchOutcome(s, k);
    AgedWaiting(s, k);
    DecideApproaches(Aged(s), k);
  }

  /** What one call leaves of the waiter when it runs something else. */
  lemma SwitchOutcome(s: Sched, k: nat)
    requires Waiting(s, k)
    ensures var a, c, t := Aged(s), Chosen(s), Switch(s);
            && WellFormed(t) && Aging(t) && |t.list| == |s.list| && !t.cur.Unstarted?
            && t.list[k].pid == s.list[k].pid && t.priorityQuantum == a.priorityQuantum
            && (c == Run(k) ==> t.cur == Listed(s.list[k].pid))
            && (c != Run(k) ==> |a.list| == |s.list| && t.list[k] == a.list[k] && PrefixEnd(t) != k)
            && (c.Run? ==> PrefixEnd(t) == c.index)
            && (c.Idle? ==> PrefixEnd(t) == |s.list|)
  {
    AgedWaiting(s, k);
    SwitchWellFormed(s);
    AfterRun(Aged(s), Chosen(s));
  }

  // ---------------------------------------------------------------- whole runs

  /** What other parties may change between two calls: who is ready, and the foreground flag. */
  datatype Environment = Environment(states: seq<nat>, fgTaken: bool)

  function Perturb(s: Sched, e: Environment): Sched
    requires |e.states| == |s.list|
  {
    s.(list := seq(|s.list|, i requires 0 <= i < |s.list| => s.list[i].(state := e.states[i])), fgTaken := e.fgTaken)
  }

  /** The environment leaves the process at `k` ready and selectable. */
  predicate Fair(l: seq<Process>, k: nat, e: Environment) {
    && |e.states| == |l| && k < |l| && e.states[k] == 1
    && (e.fgTaken ==> |l| > 1 && l[k].pid != SHELL_PID)
  }

  lemma PerturbKeeps(s: Sched, k: nat, e: Environment)
    requires WellFormed(s) && Aging(s) && !s.cur.Unstarted? && k < |s.list| && Fair(s.list, k, e)
    ensures Waiting(Perturb(s, e), k) && Rank(Perturb(s, e), k) == Rank(s, k)
    ensures |Perturb(s, e).list| == |s.list| && Perturb(s, e).list[k].pid == s.list[k].pid
  {
    SamePids(s.list, Perturb(s, e).list, CurPid(s.cur));
  }

  /** Some call of the run dispatches `pid`. */
  predicate DispatchedWithin(s: Sched, pid: nat, envs: seq<Environment>, calls: nat)
    decreases |envs|
  {
    && envs != [] && calls > 0
    && |envs[0].states| == |s.list|
    && WellFormed(Perturb(s, envs[0])) && NoNullRead(Perturb(s, envs[0]))
    && var t := Switch(Perturb(s, envs[0]));
       t.cur == Listed(pid) || DispatchedWithin(t, pid, envs[1..], calls - 1)
  }

  lemma {:induction false} DispatchedWithinRank(s: Sched, k: nat, envs: seq<Environment>, calls: nat)
    requires WellFormed(s) && Aging(s) && !s.cur.Unstarted? && k < |s.list|
    requires Rank(s, k) <= calls <= |envs|
    requires forall i | 0 <= i < |envs| :: Fair(s.list, k, envs[i])
    requires Rank(s, k) > 0
    ensures DispatchedWithin(s, s.list[k].pid, envs, calls)
    decreases calls
  {
    var e := envs[0];
    assert Fair(s.list, k, e);
    PerturbKeeps(s, k, e);
    var u := Perturb(s, e);
    RankFalls(u, k);
    var t := Switch(u);
    if t.cur != Listed(s.list[k].pid) {
      RankPositive(t, k);
      forall i | 0 <= i < |envs[1..]|
        ensures Fair(t.list, k, envs[1..][i])
      {
        assert envs[1..][i] == envs[i + 1];
        assert Fair(s.list, k, envs[i + 1]);
      }
      DispatchedWithinRank(t, k, envs[1..], calls - 1);
    }
  }

  lemma RankPositive(s: Sched, k: nat)
    requires WellFormed(s) && Aging(s) && k < |s.list|
    ensures 0 < Rank(s, k) <= 6 * (s.list[k].auxPriority - 1) + |s.list| + 1
  {
  }

  /** Bounded waiting.  Take any list of N processes, any current process and any aging state.
      However the others block and wake, and whatever the foreground flag does, a process that
      stays ready and selectable is dispatched within 6 * (priority - 1) + N + 1 calls. */
  lemma BoundedWaiting(s: Sched, k: nat, envs: seq<Environment>, calls: nat)
    requires WellFormed(s) && Aging(s) && !s.cur.Unstarted? && k < |s.list|
    requires calls == 6 * (s.list[k].priority - 1) + |s.list| + 1 && |envs| >= calls
    requires forall i | 0 <= i < |envs| :: Fair(s.list, k, envs[i])
    ensures DispatchedWithin(s, s.list[k].pid, envs, calls)
  {
    RankPositive(s, k);
    DispatchedWithinRank(s, k, envs, calls);
  }
}
