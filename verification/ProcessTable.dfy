// The process list as a table from pids to processes, over whole runs
// (Kernel/utils/scheduler.c:105-158, 178-355).
module ProcessTable {
  import opened SchedulerSpec
  import opened ProcessList
  import opened SchedulerAging

  type Table = map<nat, Process>

  /** List and table have the same processes, each under its pid. */
  ghost predicate Shows(l: seq<Process>, t: Table) {
    && (forall p | p in l :: p.pid in t && t[p.pid] == p)
    && (forall pid | pid in t :: t[pid].pid == pid && t[pid] in l)
  }

  /** What one call of the switch makes of a process, given which one ran, which one runs now and
      whether the aging counter stood at 0. */
  function Turned(p: Process, was: Current, now: Current, aging: bool): Process {
    if now == Listed(p.pid) && was != Unstarted then p.(auxPriority := p.priority)
    else if aging && was != Unstarted && was != Listed(p.pid) && p.state == 1 && p.auxPriority > 1 then
      p.(auxPriority := p.auxPriority - 1)
    else p
  }

  /** What each event does to the table, the next pid being `newPid`, the one running `was`, and the one
      that runs after a switch `now`. */
  function Effect(t: Table, e: Event, newPid: nat, was: Current, now: Current, aging: bool): Table {
    match e
    case Create(priority) => t[newPid := Process(newPid, 1, priority, priority)]
    case Nice(pid, priority) =>
      if pid in t && pid > 1 && 2 <= priority <= 10
      then t[pid := t[pid].(priority := priority, auxPriority := priority)] else t
    case Kill(pid) => if pid > 1 then t - {pid} else t
    case ExitCurrent => t - {CurPid(was)}
    case SetState(pid, state) => if pid in t then t[pid := t[pid].(state := state)] else t
    case Tick => AllTurned(t, was, now, aging)
  }

  function AllTurned(t: Table, was: Current, now: Current, aging: bool): Table {
    map pid | pid in t :: Turned(t[pid], was, now, aging)
  }

  function EffectOf(t: Table, y: System, e: Event): Table
    requires y.sched.list != [] && Allowed(y, e)
  {
    Effect(t, e, y.nextPid, y.sched.cur, Apply(y, e).sched.cur, y.sched.priorityQuantum == 0)
  }

  lemma InsertedShows(l: seq<Process>, t: Table, k: nat, p: Process)
    requires Shows(l, t) && k <= |l| && p.pid !in t
    ensures Shows(InsertAt(l, k, p), t[p.pid := p])
  {
    assert l == l[..k] + l[k..];
    assert forall x :: x in InsertAt(l, k, p) <==> x in l || x == p;
  }

  lemma RemovedShows(l: seq<Process>, t: Table, i: nat)
    requires Shows(l, t) && UniquePids(l) && i < |l|
    ensures Shows(RemoveAt(l, i), t - {l[i].pid})
  {
    var m := RemoveAt(l, i);
    forall x | x in m
      ensures x in l && x.pid != l[i].pid
    {
      var j :| 0 <= j < |m| && m[j] == x;
      assert m[j] == l[if j < i then j else j + 1];
    }
    forall x | x in l && x.pid != l[i].pid
      ensures x in m
    {
      var j :| 0 <= j < |l| && l[j] == x;
      assert m[if j < i then j else j - 1] == x;
    }
  }

  lemma DeletedShows(l: seq<Process>, t: Table, pid: nat)
    requires Shows(l, t) && UniquePids(l)
    ensures Shows(DeleteProcess(l, pid), t - {pid})
  {
    var i := IndexOf(l, pid);
    DeleteIsRemove(l, pid);
    if i < |l| {
      RemovedShows(l, t, i);
    } else {
      ListedIsKey(l, t, pid);
      NotThere(t, pid);
    }
  }

  lemma NotThere(t: Table, pid: nat)
    requires pid !in t
    ensures t - {pid} == t
  {
  }

  lemma ReplacedShows(l: seq<Process>, t: Table, i: nat, p: Process)
    requires Shows(l, t) && UniquePids(l) && i < |l| && p.pid == l[i].pid
    ensures Shows(l[i := p], t[p.pid := p])
  {
    var m := l[i := p];
    assert m[i] == p;
    forall x | x in m
      ensures x == p || (x in l && x.pid != p.pid)
    {
      var j :| 0 <= j < |m| && m[j] == x;
    }
    forall x | x in l && x.pid != p.pid
      ensures x in m
    {
      var j :| 0 <= j < |l| && l[j] == x;
      assert m[j] == x;
    }
  }

  lemma SameMembers(l: seq<Process>, m: seq<Process>, t: Table)
    requires Shows(l, t) && multiset(l) == multiset(m)
    ensures Shows(m, t)
  {
    assert forall x :: x in l <==> x in multiset(l);
    assert forall x :: x in m <==> x in multiset(m);
  }

  lemma NicedShows(l: seq<Process>, t: Table, pid: nat, priority: nat)
    requires Shows(l, t) && ListInv(l)
    ensures Shows(ChangePriority(l, pid, priority),
                  if pid in t && pid > 1 && 2 <= priority <= 10
                  then t[pid := t[pid].(priority := priority, auxPriority := priority)] else t)
  {
    ChangePriorityPermutes(l, pid, priority);
    ListedIsKey(l, t, pid);
    if Nicable(l, pid, priority) {
      var i := IndexOf(l, pid);
      var p := l[i].(priority := priority, auxPriority := priority);
      ReplacedShows(l, t, i, p);
      SameMembers(l[i := p], ChangePriority(l, pid, priority), t[pid := p]);
    }
  }

  lemma ListedIsKey(l: seq<Process>, t: Table, pid: nat)
    requires Shows(l, t)
    ensures pid in t <==> IndexOf(l, pid) < |l|
    ensures pid in t ==> t[pid] == l[IndexOf(l, pid)]
  {
    if pid in t {
      var j :| 0 <= j < |l| && l[j] == t[pid];
    }
  }

  lemma SwitchedShows(s: Sched, t: Table)
    requires WellFormed(s) && NoNullRead(s) && Shows(s.list, t)
    ensures Shows(Switch(s).list, AllTurned(t, s.cur, Switch(s).cur, s.priorityQuantum == 0))
  {
    var r := Switch(s);
    SwitchWellFormed(s);
    forall k: nat | k < |r.list|
      ensures r.list[k] == Turned(s.list[k], s.cur, r.cur, s.priorityQuantum == 0)
    {
      TurnedAt(s, k);
    }
    TurnedShows(s.list, r.list, t, s.cur, r.cur, s.priorityQuantum == 0);
  }

  lemma TurnedAt(s: Sched, k: nat)
    requires WellFormed(s) && NoNullRead(s) && k < |s.list| == |Switch(s).list|
    ensures Switch(s).list[k] == Turned(s.list[k], s.cur, Switch(s).cur, s.priorityQuantum == 0)
  {
    if s.cur.Unstarted? {
      FirstSwitch(s);
    } else {
      SwitchRewards(s);
      assert Rewarded(s, Switch(s), k);
    }
  }

  lemma TurnedShows(l: seq<Process>, m: seq<Process>, t: Table, was: Current, now: Current, aging: bool)
    requires Shows(l, t) && |l| == |m| && forall k: nat | k < |m| :: m[k] == Turned(l[k], was, now, aging)
    ensures Shows(m, AllTurned(t, was, now, aging))
  {
    var u := AllTurned(t, was, now, aging);
    forall x | x in m
      ensures x.pid in u && u[x.pid] == x
    {
      var k: nat :| k < |m| && m[k] == x;
      assert l[k] in l;
    }
    forall pid | pid in u
      ensures u[pid].pid == pid && u[pid] in m
    {
      var k: nat :| k < |l| && l[k] == t[pid];
      assert m[k] == u[pid];
    }
  }

  /** The running process has been taken out of the list; its pointer leads to the same nodes. */
  predicate LeftBehind(s: Sched, r: Sched, e: Event) {
    && s.cur.Listed? && (e == Kill(s.cur.pid) || e == ExitCurrent)
    && r.cur.Gone? && r.cur.pid == s.cur.pid && r.cur.rest <= |r.list|
    && IndexOf(s.list, s.cur.pid) < |s.list|
    && r.list[r.cur.rest..] == s.list[IndexOf(s.list, s.cur.pid) + 1..]
  }

  lemma CreateShows(y: System, t: Table, priority: nat)
    requires SystemInv(y) && Allowed(y, Create(priority)) && Shows(y.sched.list, t)
    ensures var z := Apply(y, Create(priority));
            Shows(z.sched.list, EffectOf(t, y, Create(priority))) && z.nextPid == y.nextPid + 1
  {
    Created(y, priority);
    AbsentPid(y.sched.list, y.nextPid);
    LoadedShows(y.sched.list, t, Process(y.nextPid, 1, priority, priority));
  }

  lemma Created(y: System, priority: nat)
    requires y.sched.list != [] && Allowed(y, Create(priority))
    ensures var z := Apply(y, Create(priority));
            && z.sched.list == LoadProcess(y.sched.list, Process(y.nextPid, 1, priority, priority))
            && z.nextPid == y.nextPid + 1
  {
    NextPidSmall(y.nextPid);
  }

  lemma LoadedShows(l: seq<Process>, t: Table, p: Process)
    requires Shows(l, t) && l != [] && IndexOf(l, p.pid) == |l|
    ensures Shows(LoadProcess(l, p), t[p.pid := p])
  {
    LoadIsInsert(l, p);
    ListedIsKey(l, t, p.pid);
    InsertedShows(l, t, FirstLessUrgent(l, p.priority), p);
  }

  lemma KillShows(y: System, t: Table, pid: nat)
    requires SystemInv(y) && Allowed(y, Kill(pid)) && Shows(y.sched.list, t)
    ensures var z := Apply(y, Kill(pid));
            && Shows(z.sched.list, EffectOf(t, y, Kill(pid)))
            && (z.sched.cur == y.sched.cur || LeftBehind(y.sched, z.sched, Kill(pid)))
  {
    DeletedShows(y.sched.list, t, pid);
    KillLeaves(y, pid);
  }

  lemma KillLeaves(y: System, pid: nat)
    requires SystemInv(y) && Allowed(y, Kill(pid))
    ensures var z := Apply(y, Kill(pid)); z.sched.cur == y.sched.cur || LeftBehind(y.sched, z.sched, Kill(pid))
  {
    if pid > 1 && y.sched.cur == Listed(pid) { WhatFollows(y.sched.list, pid); }
  }

  lemma ExitShows(y: System, t: Table)
    requires SystemInv(y) && Allowed(y, ExitCurrent) && Shows(y.sched.list, t)
    ensures var z := Apply(y, ExitCurrent);
            Shows(z.sched.list, EffectOf(t, y, ExitCurrent)) && LeftBehind(y.sched, z.sched, ExitCurrent)
  {
    DeletedShows(y.sched.list, t, y.sched.cur.pid);
    WhatFollows(y.sched.list, y.sched.cur.pid);
  }

  lemma WhatFollows(l: seq<Process>, pid: nat)
    requires IndexOf(l, pid) < |l|
    ensures var i := IndexOf(l, pid); i <= |DeleteProcess(l, pid)| && DeleteProcess(l, pid)[i..] == l[i + 1..]
  {
    DeleteIsRemove(l, pid);
  }

  lemma SetStateShows(y: System, t: Table, pid: nat, state: nat)
    requires SystemInv(y) && Allowed(y, SetState(pid, state)) && Shows(y.sched.list, t)
    ensures Shows(Apply(y, SetState(pid, state)).sched.list, EffectOf(t, y, SetState(pid, state)))
  {
    ListedIsKey(y.sched.list, t, pid);
    if pid in t { ReplacedShows(y.sched.list, t, IndexOf(y.sched.list, pid), t[pid].(state := state)); }
  }

  /** One event does to the table what `Effect` says.  Only create moves the next pid on.  Only a switch
      changes who is running; one that has left the list while it ran still points at what followed it. */
  lemma EventShows(y: System, t: Table, e: Event)
    requires SystemInv(y) && Allowed(y, e) && Shows(y.sched.list, t)
    ensures var z := Apply(y, e);
            && Shows(z.sched.list, EffectOf(t, y, e))
            && z.nextPid == (if e.Create? then y.nextPid + 1 else y.nextPid)
            && (!e.Tick? ==> z.sched.cur == y.sched.cur || LeftBehind(y.sched, z.sched, e))
  {
    match e
    case Create(priority) => CreateShows(y, t, priority);
    case Nice(pid, priority) => NicedShows(y.sched.list, t, pid, priority);
    case Kill(pid) => KillShows(y, t, pid);
    case ExitCurrent => ExitShows(y, t);
    case SetState(pid, state) => SetStateShows(y, t, pid, state);
    case Tick => SwitchedShows(y.sched, t);
  }

  // ---------------------------------------------------------------- runs

  function TableAfter(t: Table, y: System, events: seq<Event>): Table
    requires AllAllowed(y, events)
    decreases |events|
  {
    if events == [] then t else TableAfter(EffectOf(t, y, events[0]), Apply(y, events[0]), events[1..])
  }

  lemma {:induction false} ShowsAlongRun(y: System, t: Table, events: seq<Event>)
    requires SystemInv(y) && AllAllowed(y, events) && Shows(y.sched.list, t)
    ensures Shows(After(y, events).sched.list, TableAfter(t, y, events))
    decreases |events|
  {
    if events == [] {
    } else {
      EventShows(y, t, events[0]);
      EventKeeps(y, events[0]);
      ShowsAlongRun(Apply(y, events[0]), EffectOf(t, y, events[0]), events[1..]);
    }
  }

  /** After any run from boot the list holds exactly the processes of the table, each once, in the order
      of their priorities. */
  lemma ListIsATable(events: seq<Event>)
    requires AllAllowed(BOOT, events)
    ensures var l := After(BOOT, events).sched.list;
            && Shows(l, TableAfter(map[1 := Process(1, 1, 1, 1)], BOOT, events))
            && UniquePids(l) && Sorted(l)
  {
    BootInv();
    var p := Process(1, 1, 1, 1);
    assert BOOT.sched.list == [p];
    ShowsAlongRun(BOOT, map[1 := p], events);
    InvAlongRun(BOOT, events);
  }
}
