// What switchProcess does to the effective priorities: it gives the process it runs its own priority
// back and lets the others age (Kernel/utils/scheduler.c:178-259).
module SchedulerAging {
  import opened SchedulerSpec
  import opened SchedulerWaiting

  /** Before the first call nothing has run: that call runs the shell and touches nothing. */
  lemma FirstSwitch(s: Sched)
    requires WellFormed(s) && s.cur.Unstarted?
    ensures NoNullRead(s) && Switch(s) == s.(cur := Listed(1))
  {
  }

  /** What a later call makes of the process at `k`, `t` being the scheduler after it. */
  predicate Rewarded(s: Sched, t: Sched, k: nat)
    requires k < |s.list| == |t.list|
  {
    var p := s.list[k];
    t.list[k] ==
    if t.cur == Listed(p.pid) then p.(auxPriority := p.priority)
    else if s.priorityQuantum == 0 && p.state == 1 && s.cur != Listed(p.pid) && p.auxPriority > 1 then
      p.(auxPriority := p.auxPriority - 1)
    else p
  }

  /** Any call but the first: the process it runs gets its own priority back as auxPriority.  Every
      other one keeps its auxPriority, unless the counter stood at 0 and it is ready, above 1 and not
      the one that was running; then it loses exactly 1.  The counter goes round in six calls. */
  lemma SwitchRewards(s: Sched)
    requires WellFormed(s) && NoNullRead(s) && !s.cur.Unstarted?
    ensures var t := Switch(s);
            && |t.list| == |s.list| && (forall k: nat | k < |s.list| :: Rewarded(s, t, k))
            && t.priorityQuantum == (if s.priorityQuantum == 0 then 5 else s.priorityQuantum - 1)
            && t.fgTaken == s.fgTaken && (t.cur.Listed? || t.cur.Dummy?)
  {
    SwitchWellFormed(s);
    forall k: nat | k < |s.list|
      ensures Rewarded(s, Switch(s), k)
    {
      RewardedAt(s, k);
    }
  }

  lemma RewardedAt(s: Sched, k: nat)
    requires WellFormed(s) && NoNullRead(s) && !s.cur.Unstarted? && k < |s.list| == |Switch(s).list|
    ensures Rewarded(s, Switch(s), k)
  {
    AgedWellFormed(s);
    AgedAt(s, k);
    DispatchedAt(Aged(s), Chosen(s), k);
  }

  lemma AgedAt(s: Sched, k: nat)
    requires WellFormed(s) && k < |s.list|
    ensures |Aged(s).list| == |s.list|
    ensures var p := s.list[k];
            Aged(s).list[k] ==
            if s.priorityQuantum == 0 && p.state == 1 && s.cur != Listed(p.pid) && p.auxPriority > 1
            then p.(auxPriority := p.auxPriority - 1) else p
  {
    IndexOfUnique(s.list, k);
    assert CurPid(s.cur) == s.list[k].pid <==> s.cur == Listed(s.list[k].pid);
  }

  lemma DispatchedAt(a: Sched, c: Choice, k: nat)
    requires UniquePids(a.list) && k < |a.list| && (c.Run? ==> c.index < |a.list|)
    ensures var t, p := Dispatch(a, c), a.list[k];
            |t.list| == |a.list| && t.list[k] == if t.cur == Listed(p.pid) then p.(auxPriority := p.priority) else p
  {
    if c.Run? && c.index != k {
      IndexOfUnique(a.list, k);
      IndexOfUnique(a.list, c.index);
    }
  }

  // ---------------------------------------------------------------- waiting

  /** Call after call passes the process at `k` over, which stays ready. */
  predicate PassedOver(s: Sched, k: nat, envs: seq<Environment>)
    requires WellFormed(s) && Aging(s) && !s.cur.Unstarted? && k < |s.list|
    decreases |envs|
  {
    envs == [] ||
    (&& Fair(s.list, k, envs[0])
     && (PerturbKeeps(s, k, envs[0]);
         RankFalls(Perturb(s, envs[0]), k);
         var t := Switch(Perturb(s, envs[0]));
         t.cur != Listed(s.list[k].pid) && PassedOver(t, k, envs[1..])))
  }

  function AfterCalls(s: Sched, k: nat, envs: seq<Environment>): Sched
    requires WellFormed(s) && Aging(s) && !s.cur.Unstarted? && k < |s.list| && PassedOver(s, k, envs)
    decreases |envs|
  {
    if envs == [] then s
    else
      PerturbKeeps(s, k, envs[0]);
      RankFalls(Perturb(s, envs[0]), k);
      AfterCalls(Switch(Perturb(s, envs[0])), k, envs[1..])
  }

  /** How often the counter stands at 0 in `n` calls. */
  function Rounds(priorityQuantum: nat, n: nat): nat {
    if n <= priorityQuantum then 0 else (n - priorityQuantum + 5) / 6
  }

  function Lowered(aux: nat, rounds: nat): nat {
    if rounds < aux then aux - rounds else 1
  }

  /** A process that is not running and is passed over in `n` calls has lost one for every sixth of
      them, down to 1, whatever the others and the foreground flag do. */
  lemma {:induction false} AuxWhileWaiting(s: Sched, k: nat, envs: seq<Environment>)
    requires WellFormed(s) && Aging(s) && !s.cur.Unstarted? && k < |s.list| && PassedOver(s, k, envs)
    requires s.cur != Listed(s.list[k].pid)
    ensures var t := AfterCalls(s, k, envs);
            && k < |t.list| && t.list[k].pid == s.list[k].pid
            && t.list[k].auxPriority == Lowered(s.list[k].auxPriority, Rounds(s.priorityQuantum, |envs|))
    decreases |envs|
  {
    if envs == [] {
    } else {
      var u := Perturb(s, envs[0]);
      PerturbKeeps(s, k, envs[0]);
      RankFalls(u, k);
      SwitchRewards(u);
      var t := Switch(u);
      assert Rewarded(u, t, k);
      AuxWhileWaiting(t, k, envs[1..]);
      OneCall(s.priorityQuantum, |envs|);
    }
  }

  lemma OneCall(q: nat, n: nat)
    requires n >= 1 && q <= 5
    ensures Rounds(q, n) == if q == 0 then 1 + Rounds(5, n - 1) else Rounds(q - 1, n - 1)
  {
  }

  /** A process that has just been dispatched and then waits through `n` further calls: the first of
      them does not age it, since it was the one running. */
  lemma AuxSinceItRan(s: Sched, k: nat, envs: seq<Environment>)
    requires WellFormed(s) && Aging(s) && k < |s.list| && s.cur == Listed(s.list[k].pid)
    requires s.list[k].auxPriority == s.list[k].priority && envs != [] && PassedOver(s, k, envs)
    ensures var t, q := AfterCalls(s, k, envs), if s.priorityQuantum == 0 then 5 else s.priorityQuantum - 1;
            && k < |t.list| && t.list[k].pid == s.list[k].pid
            && t.list[k].auxPriority == Lowered(s.list[k].priority, Rounds(q, |envs| - 1))
  {
    var u := Perturb(s, envs[0]);
    PerturbKeeps(s, k, envs[0]);
    RankFalls(u, k);
    SwitchRewards(u);
    assert Rewarded(u, Switch(u), k);
    AuxWhileWaiting(Switch(u), k, envs[1..]);
  }
}
