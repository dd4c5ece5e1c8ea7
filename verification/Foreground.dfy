// What the foreground flag says about the process list (Kernel/utils/scheduler.c:152-158, 279-289).
//
// The flag is meant to be up exactly while a process of priority 1 other than the shell exists.
// createProcess raises it for such a process, exitCurrentProcess lowers it for one, and killPid and
// changeProcessPriority do not look at it.
module Foreground {
  import opened SchedulerSpec
  import opened SchedulerTheorems
  import opened ProcessList

  /** The processes behind the head that have priority 1. */
  function ForegroundPids(l: seq<Process>): set<nat> {
    set i | 1 <= i < |l| && l[i].priority == 1 :: l[i].pid
  }

  /** The flag is up only while a foreground process exists. */
  predicate FlagBacked(s: Sched) {
    s.fgTaken ==> ForegroundPids(s.list) != {}
  }

  /** The flag is up whenever a foreground process exists. */
  predicate FlagRaised(s: Sched) {
    ForegroundPids(s.list) != {} ==> s.fgTaken
  }

  // ---------------------------------------------------------------- what each event does

  lemma SameForeground(l: seq<Process>, m: seq<Process>)
    requires |l| == |m| && forall i | 0 <= i < |l| :: l[i].pid == m[i].pid && l[i].priority == m[i].priority
    ensures ForegroundPids(l) == ForegroundPids(m)
  {
    forall i | 1 <= i < |l|
      ensures l[i].priority == 1 ==> l[i].pid in ForegroundPids(m)
      ensures m[i].priority == 1 ==> m[i].pid in ForegroundPids(l)
    {
    }
  }

  lemma InsertedForeground(l: seq<Process>, k: nat, p: Process)
    requires 1 <= k <= |l|
    ensures ForegroundPids(InsertAt(l, k, p)) == ForegroundPids(l) + (if p.priority == 1 then {p.pid} else {})
  {
    var m := InsertAt(l, k, p);
    forall i | 1 <= i < |m|
      ensures m[i] == if i < k then l[i] else if i == k then p else l[i - 1]
    {
      InsertedAt(l, k, p, i);
    }
    forall i | 1 <= i < |l| && l[i].priority == 1
      ensures l[i].pid in ForegroundPids(m)
    {
      assert m[if i < k then i else i + 1] == l[i];
    }
    assert m[k] == p;
  }

  lemma RemovedForeground(l: seq<Process>, k: nat)
    requires UniquePids(l) && 1 <= k < |l|
    ensures ForegroundPids(RemoveAt(l, k)) == ForegroundPids(l) - {l[k].pid}
  {
    var m := RemoveAt(l, k);
    RemovedAt(l, k);
    forall i | 1 <= i < |l| && i != k && l[i].priority == 1
      ensures l[i].pid in ForegroundPids(m)
    {
      assert m[if i < k then i else i - 1] == l[i];
    }
    forall x | x in ForegroundPids(m)
      ensures x in ForegroundPids(l) && x != l[k].pid
    {
      var i :| 1 <= i < |m| && m[i].priority == 1 && m[i].pid == x;
      assert m[i] == l[if i < k then i else i + 1];
    }
  }

  lemma DeletedForeground(l: seq<Process>, pid: nat)
    requires ListInv(l) && pid != SHELL_PID
    ensures ForegroundPids(DeleteProcess(l, pid)) == ForegroundPids(l) - {pid}
  {
    var i := IndexOf(l, pid);
    DeleteIsRemove(l, pid);
    if i < |l| { RemovedForeground(l, i); }
  }

  lemma NicedForeground(l: seq<Process>, pid: nat, priority: nat)
    requires ListInv(l)
    ensures ForegroundPids(ChangePriority(l, pid, priority)) ==
            if Nicable(l, pid, priority) then ForegroundPids(l) - {pid} else ForegroundPids(l)
  {
    if Nicable(l, pid, priority) {
      var i := IndexOf(l, pid);
      var rest := RemoveAt(l, i);
      RemovedForeground(l, i);
      InsertedForeground(rest, FirstLessUrgent(rest, priority), l[i].(priority := priority, auxPriority := priority));
    }
  }

  lemma SwitchedForeground(s: Sched)
    requires WellFormed(s) && NoNullRead(s)
    ensures ForegroundPids(Switch(s).list) == ForegroundPids(s.list) && Switch(s).fgTaken == s.fgTaken
  {
    if !s.cur.Unstarted? {
      AgedWellFormed(s);
      SameForeground(s.list, Aged(s).list);
      DispatchedForeground(Aged(s), Chosen(s));
    }
  }

  lemma DispatchedForeground(a: Sched, c: Choice)
    requires c.Run? ==> c.index < |a.list|
    ensures ForegroundPids(Dispatch(a, c).list) == ForegroundPids(a.list) && Dispatch(a, c).fgTaken == a.fgTaken
  {
    SameForeground(a.list, Dispatch(a, c).list);
  }

  /** The current process is a foreground one exactly when its priority is 1. */
  lemma OwnPriority(y: System)
    requires SystemInv(y) && Allowed(y, ExitCurrent)
    ensures var i := IndexOf(y.sched.list, y.sched.cur.pid);
            i < |y.sched.list| && (y.sched.list[i].priority == 1 <==> y.sched.cur.pid in ForegroundPids(y.sched.list))
  {
    var l, pid := y.sched.list, y.sched.cur.pid;
    var i := IndexOf(l, pid);
    if pid in ForegroundPids(l) {
      var j :| 1 <= j < |l| && l[j].priority == 1 && l[j].pid == pid;
      IndexOfUnique(l, j);
    }
  }

  /** What is left of the foreground after an event. */
  function ForegroundAfter(y: System, e: Event): set<nat> {
    var fg := ForegroundPids(y.sched.list);
    match e
    case Create(priority) => if priority == 1 then fg + {y.nextPid} else fg
    case Nice(pid, priority) => if Nicable(y.sched.list, pid, priority) then fg - {pid} else fg
    case Kill(pid) => fg - {pid}
    case ExitCurrent => fg - {CurPid(y.sched.cur)}
    case _ => fg
  }

  /** And of the flag. */
  function FlagAfter(y: System, e: Event): bool {
    match e
    case Create(priority) => y.sched.fgTaken || priority == 1
    case ExitCurrent => y.sched.fgTaken && CurPid(y.sched.cur) !in ForegroundPids(y.sched.list)
    case _ => y.sched.fgTaken
  }

  lemma EventForeground(y: System, e: Event)
    requires SystemInv(y) && Allowed(y, e)
    ensures var z := Apply(y, e).sched; ForegroundPids(z.list) == ForegroundAfter(y, e) && z.fgTaken == FlagAfter(y, e)
  {
    var l := y.sched.list;
    match e
    case Create(priority) =>
      var p := Process(y.nextPid, 1, priority, priority);
      LoadIsInsert(l, p);
      InsertedForeground(l, FirstLessUrgent(l, priority), p);
    case Nice(pid, priority) => NicedForeground(l, pid, priority);
    case Kill(pid) => KilledForeground(y, pid);
    case ExitCurrent =>
      OwnPriority(y);
      DeletedForeground(l, y.sched.cur.pid);
    case SetState(pid, state) => SameForeground(l, Apply(y, e).sched.list);
    case Tick => SwitchedForeground(y.sched);
  }

  lemma KilledForeground(y: System, pid: nat)
    requires SystemInv(y) && Allowed(y, Kill(pid))
    ensures ForegroundPids(Apply(y, Kill(pid)).sched.list) == ForegroundPids(y.sched.list) - {pid}
  {
    var l := y.sched.list;
    if pid > 1 {
      DeletedForeground(l, pid);
    } else {
      assert forall i | 1 <= i < |l| :: l[i].pid != pid;
    }
  }

  // ---------------------------------------------------------------- the flag, step by step

  /** The last foreground process is killed, or made less urgent by nice: the flag stays up. */
  predicate LeavesFlagUp(y: System, e: Event) {
    && y.sched.fgTaken
    && match e
       case Kill(pid) => ForegroundPids(y.sched.list) == {pid}
       case Nice(pid, priority) => Nicable(y.sched.list, pid, priority) && ForegroundPids(y.sched.list) == {pid}
       case _ => false
  }

  /** A foreground process exits while another one is there: the flag goes down. */
  predicate DropsFlagEarly(y: System, e: Event) {
    && e.ExitCurrent?
    && CurPid(y.sched.cur) in ForegroundPids(y.sched.list)
    && ForegroundPids(y.sched.list) != {CurPid(y.sched.cur)}
  }

  lemma BackedStepExactly(y: System, e: Event)
    requires SystemInv(y) && Allowed(y, e) && FlagBacked(y.sched)
    ensures FlagBacked(Apply(y, e).sched) <==> !LeavesFlagUp(y, e)
  {
    EventForeground(y, e);
    var fg := ForegroundPids(y.sched.list);
    match e
    case Create(priority) => if priority == 1 { assert y.nextPid in fg + {y.nextPid}; }
    case Nice(pid, priority) => assert fg - {pid} == {} <==> fg == {} || fg == {pid};
    case Kill(pid) => assert fg - {pid} == {} <==> fg == {} || fg == {pid};
    case ExitCurrent => if CurPid(y.sched.cur) !in fg { assert fg - {CurPid(y.sched.cur)} == fg; }
    case _ =>
  }

  lemma RaisedStepExactly(y: System, e: Event)
    requires SystemInv(y) && Allowed(y, e) && FlagRaised(y.sched)
    ensures FlagRaised(Apply(y, e).sched) <==> !DropsFlagEarly(y, e)
  {
    EventForeground(y, e);
    var fg := ForegroundPids(y.sched.list);
    if e.ExitCurrent? {
      var own := CurPid(y.sched.cur);
      assert fg - {own} == {} <==> fg == {} || fg == {own};
      if own !in fg { assert fg - {own} == fg; }
    }
  }

  // ---------------------------------------------------------------- whole runs

  predicate AlwaysBacked(y: System, events: seq<Event>)
    requires AllAllowed(y, events)
    decreases |events|
  {
    FlagBacked(y.sched) && (events == [] || AlwaysBacked(Apply(y, events[0]), events[1..]))
  }

  predicate AlwaysRaised(y: System, events: seq<Event>)
    requires AllAllowed(y, events)
    decreases |events|
  {
    FlagRaised(y.sched) && (events == [] || AlwaysRaised(Apply(y, events[0]), events[1..]))
  }

  predicate SomeLeavesFlagUp(y: System, events: seq<Event>)
    requires AllAllowed(y, events)
    decreases |events|
  {
    events != [] && (LeavesFlagUp(y, events[0]) || SomeLeavesFlagUp(Apply(y, events[0]), events[1..]))
  }

  predicate SomeDropsFlagEarly(y: System, events: seq<Event>)
    requires AllAllowed(y, events)
    decreases |events|
  {
    events != [] && (DropsFlagEarly(y, events[0]) || SomeDropsFlagEarly(Apply(y, events[0]), events[1..]))
  }

  lemma {:induction false} BackedAlongRun(y: System, events: seq<Event>)
    requires SystemInv(y) && FlagBacked(y.sched) && AllAllowed(y, events)
    ensures AlwaysBacked(y, events) <==> !SomeLeavesFlagUp(y, events)
    decreases |events|
  {
    if events == [] {
    } else {
      var z := Apply(y, events[0]);
      EventKeeps(y, events[0]);
      BackedStepExactly(y, events[0]);
      if FlagBacked(z.sched) {
        BackedAlongRun(z, events[1..]);
      } else {
        assert !AlwaysBacked(z, events[1..]);
      }
    }
  }

  lemma {:induction false} RaisedAlongRun(y: System, events: seq<Event>)
    requires SystemInv(y) && FlagRaised(y.sched) && AllAllowed(y, events)
    ensures AlwaysRaised(y, events) <==> !SomeDropsFlagEarly(y, events)
    decreases |events|
  {
    if events == [] {
    } else {
      var z := Apply(y, events[0]);
      EventKeeps(y, events[0]);
      RaisedStepExactly(y, events[0]);
      if FlagRaised(z.sched) {
        RaisedAlongRun(z, events[1..]);
      } else {
        assert !AlwaysRaised(z, events[1..]);
      }
    }
  }

  /** On a run from boot the flag is never up without a foreground process exactly when nobody kills
      or renices the last one under it, and never down beside one exactly when none exits while
      another is there. */
  lemma FlagExactly(events: seq<Event>)
    requires AllAllowed(BOOT, events)
    ensures AlwaysBacked(BOOT, events) <==> !SomeLeavesFlagUp(BOOT, events)
    ensures AlwaysRaised(BOOT, events) <==> !SomeDropsFlagEarly(BOOT, events)
  {
    BootInv();
    assert ForegroundPids(BOOT.sched.list) == {};
    BackedAlongRun(BOOT, events);
    RaisedAlongRun(BOOT, events);
  }

  // ---------------------------------------------------------------- the shell shut out

  /** Up without a foreground process. */
  predicate Stuck(y: System) {
    !y.sched.cur.Unstarted? && y.sched.fgTaken && ForegroundPids(y.sched.list) == {}
  }

  /** While the flag is up no switch runs the shell. */
  lemma FlagShutsShell(y: System)
    requires SystemInv(y) && Allowed(y, Tick) && y.sched.fgTaken && !y.sched.cur.Unstarted?
    ensures Apply(y, Tick).sched.cur != Listed(SHELL_PID)
  {
    ChoiceIsRunnable(y.sched);
  }

  /** Only a new foreground process brings the flag down again. */
  lemma StuckStays(y: System, e: Event)
    requires SystemInv(y) && Allowed(y, e) && Stuck(y) && e != Create(1)
    ensures Stuck(Apply(y, e))
  {
    EventForeground(y, e);
  }

  /** Once stuck, on any run that creates no other process of priority 1, every switch passes the
      shell over, ready or not. */
  lemma {:induction false} ShellShutOut(y: System, events: seq<Event>)
    requires SystemInv(y) && Stuck(y) && AllAllowed(y, events + [Tick])
    requires forall i | 0 <= i < |events| :: events[i] != Create(1)
    ensures Stuck(After(y, events + [Tick])) && After(y, events + [Tick]).sched.cur != Listed(SHELL_PID)
    decreases |events|
  {
    if events == [] {
      assert [] + [Tick] == [Tick];
      FlagShutsShell(y);
      StuckStays(y, Tick);
    } else {
      var rest := events[1..];
      assert events + [Tick] == [events[0]] + (rest + [Tick]);
      assert (events + [Tick])[1..] == rest + [Tick];
      EventKeeps(y, events[0]);
      StuckStays(y, events[0]);
      forall i | 0 <= i < |rest|
        ensures rest[i] != Create(1)
      {
        assert rest[i] == events[i + 1];
      }
      ShellShutOut(Apply(y, events[0]), rest);
    }
  }

  // ---------------------------------------------------------------- runs on which the flag is wrong

  /** A background process beside the foreground one. */
  function WithBoth(): System {
    System(Sched([SHELL, Process(2, 1, 1, 1), Process(3, 1, 3, 3)], Listed(1), true, PRIORITY_QUANTUM), 4)
  }

  lemma BackgroundStarted(rest: seq<Event>)
    ensures AllAllowed(BOOT, [Tick, Create(1)] + ([Create(3)] + rest)) <==> AllAllowed(WithBoth(), rest)
    ensures AllAllowed(WithBoth(), rest) ==>
              After(BOOT, [Tick, Create(1)] + ([Create(3)] + rest)) == After(WithBoth(), rest)
  {
    ThirdBehind();
    Chain(WithForeground(), Create(3), rest);
    ForegroundStarted([Create(3)] + rest);
  }

  lemma ThirdBehind()
    ensures Allowed(WithForeground(), Create(3)) && Apply(WithForeground(), Create(3)) == WithBoth()
  {
    var l := WithForeground().sched.list;
    LoadIsInsert(l, Process(3, 1, 3, 3));
    assert FirstLessUrgent(l, 3) == 2;
    assert InsertAt(l, 2, Process(3, 1, 3, 3)) == WithBoth().sched.list;
  }

  /** The foreground process is killed beside a background one: the shell is not alone, so no null
      pointer is read, but it is shut out. */
  lemma StuckFlagExample()
    ensures var events := [Tick, Create(1)] + ([Create(3)] + [Kill(2)]);
            && AllAllowed(BOOT, events) && Stuck(After(BOOT, events)) && Accompanied(After(BOOT, events).sched)
            && After(BOOT, events).sched.list == [SHELL, Process(3, 1, 3, 3)]
  {
    var y := WithBoth();
    var l := y.sched.list;
    assert IndexOf(l, 2) == 1;
    DeleteIsRemove(l, 2);
    assert RemoveAt(l, 1) == [SHELL, Process(3, 1, 3, 3)];
    assert [Kill(2)] + [] == [Kill(2)];
    Chain(y, Kill(2), []);
    BackgroundStarted([Kill(2)]);
  }

  /** The foreground process is made less urgent: the same. */
  lemma StuckByNiceExample()
    ensures var events := [Tick, Create(1)] + [Nice(2, 5)];
            AllAllowed(BOOT, events) && Stuck(After(BOOT, events))
  {
    var y := WithForeground();
    NicedSecond(y.sched.list);
    assert [Nice(2, 5)] + [] == [Nice(2, 5)];
    Chain(y, Nice(2, 5), []);
    ForegroundStarted([Nice(2, 5)]);
  }

  /** One of two foreground processes exits: the flag goes down under the other. */
  lemma EarlyDropExample()
    ensures var events := [Tick, Create(1)] + [Tick, Create(1), ExitCurrent];
            && AllAllowed(BOOT, events)
            && !After(BOOT, events).sched.fgTaken && ForegroundPids(After(BOOT, events).sched.list) == {3}
  {
    var y2 := WithForeground();
    SecondSwitched();
    var y3 := Apply(y2, Tick);
    ExitUnderAnother(y3);
    Chain(y2, Tick, [Create(1), ExitCurrent]);
    assert [Tick] + [Create(1), ExitCurrent] == [Tick, Create(1), ExitCurrent];
    ForegroundStarted([Tick, Create(1), ExitCurrent]);
  }

  lemma ExitUnderAnother(y: System)
    requires y == Apply(WithForeground(), Tick) && y.sched.list == [SHELL, Process(2, 1, 1, 1)]
    requires y.sched.cur == Listed(2) && y.nextPid == 3
    ensures var events := [Create(1), ExitCurrent];
            && AllAllowed(y, events)
            && !After(y, events).sched.fgTaken && ForegroundPids(After(y, events).sched.list) == {3}
  {
    var z := Apply(y, Create(1));
    ThirdInFront(y.sched.list);
    SecondExits(z);
    Chain(z, ExitCurrent, []);
    Chain(y, Create(1), [ExitCurrent] + []);
    assert [Create(1)] + ([ExitCurrent] + []) == [Create(1), ExitCurrent];
  }

  lemma ThirdInFront(l: seq<Process>)
    requires l == [SHELL, Process(2, 1, 1, 1)]
    ensures LoadProcess(l, Process(3, 1, 1, 1)) == [SHELL, Process(2, 1, 1, 1), Process(3, 1, 1, 1)]
  {
    LoadIsInsert(l, Process(3, 1, 1, 1));
    assert FirstLessUrgent(l, 1) == 2;
  }

  lemma SecondExits(y: System)
    requires y.sched.list == [SHELL, Process(2, 1, 1, 1), Process(3, 1, 1, 1)] && y.sched.cur == Listed(2)
    ensures Allowed(y, ExitCurrent)
    ensures var z := Apply(y, ExitCurrent).sched; !z.fgTaken && ForegroundPids(z.list) == {3}
  {
    var l := y.sched.list;
    assert IndexOf(l, 2) == 1;
    DeleteIsRemove(l, 2);
    assert RemoveAt(l, 1) == [SHELL, Process(3, 1, 1, 1)];
  }
}
