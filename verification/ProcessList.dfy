// The process list under create, nice, kill, exit and switch
// (Kernel/utils/scheduler.c:105-158, 261-289, 324-355).
module ProcessList {
  import opened SchedulerSpec

  const PID_LIMIT: nat := 0x1_0000_0000 // pid is a 32-bit counter

  // ---------------------------------------------------------------- operations

  /** loadProcess: step past nodes while the next one is not less urgent, then link. */
  function LoadProcess(l: seq<Process>, p: Process): seq<Process> {
    if l == [] then [p]
    else if |l| > 1 && p.priority >= l[1].priority then [l[0]] + LoadProcess(l[1..], p)
    else [l[0], p] + l[1..]
  }

  function DeleteProcess(l: seq<Process>, pid: nat): seq<Process> {
    if l == [] then []
    else if l[0].pid == pid then l[1..]
    else [l[0]] + DeleteProcess(l[1..], pid)
  }

  /** First position after the head whose process is less urgent than `priority`. */
  function FirstLessUrgent(l: seq<Process>, priority: nat): (k: nat)
    requires l != []
    ensures 1 <= k <= |l|
    ensures forall i | 1 <= i < k :: l[i].priority <= priority
    ensures k < |l| ==> l[k].priority > priority
  {
    if |l| > 1 && l[1].priority <= priority then 1 + FirstLessUrgent(l[1..], priority) else 1
  }

  function InsertAt(l: seq<Process>, k: nat, p: Process): seq<Process>
    requires k <= |l|
  {
    l[..k] + [p] + l[k..]
  }

  function RemoveAt(l: seq<Process>, k: nat): seq<Process>
    requires k < |l|
  {
    l[..k] + l[k + 1..]
  }

  /** changeProcessPriority refuses the shell, priorities outside 2..10 and unknown pids. */
  predicate Nicable(l: seq<Process>, pid: nat, priority: nat) {
    pid > 1 && 2 <= priority <= 10 && IndexOf(l, pid) < |l|
  }

  function ChangePriority(l: seq<Process>, pid: nat, priority: nat): seq<Process>
    requires l != []
  {
    var i := IndexOf(l, pid);
    if !Nicable(l, pid, priority) || |l| == 1 then l
    else
      var rest := RemoveAt(l, i);
      InsertAt(rest, FirstLessUrgent(rest, priority), l[i].(priority := priority, auxPriority := priority))
  }

  // ---------------------------------------------------------------- invariant

  predicate Sorted(l: seq<Process>) {
    forall i, j | 0 <= i < j < |l| :: l[i].priority <= l[j].priority
  }

  predicate ListInv(l: seq<Process>) {
    && l != [] && l[0].pid == SHELL_PID && l[0].priority == 1
    && UniquePids(l) && Sorted(l)
    && forall i | 0 <= i < |l| :: l[i].pid != 0 && 1 <= l[i].auxPriority <= l[i].priority
  }

  lemma {:induction false} LoadIsInsert(l: seq<Process>, p: Process)
    requires l != []
    ensures LoadProcess(l, p) == InsertAt(l, FirstLessUrgent(l, p.priority), p)
  {
    if |l| > 1 && p.priority >= l[1].priority {
      LoadIsInsert(l[1..], p);
      var k := FirstLessUrgent(l[1..], p.priority);
      assert l[..k + 1] == [l[0]] + l[1..][..k];
      assert l[k + 1..] == l[1..][k..];
    }
  }

  lemma {:induction false} DeleteIsRemove(l: seq<Process>, pid: nat)
    ensures var i := IndexOf(l, pid); DeleteProcess(l, pid) == if i < |l| then RemoveAt(l, i) else l
  {
    if l != [] && l[0].pid != pid {
      DeleteIsRemove(l[1..], pid);
      var i := IndexOf(l[1..], pid);
      if i < |l[1..]| {
        assert l[..i + 1] == [l[0]] + l[1..][..i];
        assert l[i + 2..] == l[1..][i + 1..];
      }
    }
  }

  /** A new process keeps the list sorted exactly when it is not more urgent than the head:
      the head is never displaced. */
  lemma InsertSortedExactly(l: seq<Process>, p: Process)
    requires l != [] && Sorted(l)
    ensures Sorted(LoadProcess(l, p)) <==> p.priority >= l[0].priority
  {
    LoadIsInsert(l, p);
    var k := FirstLessUrgent(l, p.priority);
    var m := InsertAt(l, k, p);
    assert m[0] == l[0] && m[k] == p;
    if p.priority >= l[0].priority {
      InsertSorted(l, k, p);
    }
  }

  lemma InsertSorted(l: seq<Process>, k: nat, p: Process)
    requires Sorted(l) && k <= |l|
    requires forall i | 0 <= i < k :: l[i].priority <= p.priority
    requires k < |l| ==> p.priority <= l[k].priority
    ensures Sorted(InsertAt(l, k, p))
  {
    var m := InsertAt(l, k, p);
    forall i, j | 0 <= i < j < |m|
      ensures m[i].priority <= m[j].priority
    {
      var x := if i < k then i else i - 1;
      var y := if j < k then j else j - 1;
      assert i != k ==> m[i] == l[x];
      assert j != k ==> m[j] == l[y];
    }
  }

  lemma InsertKeepsInv(l: seq<Process>, k: nat, p: Process)
    requires ListInv(l) && 1 <= k <= |l|
    requires forall i | 1 <= i < k :: l[i].priority <= p.priority
    requires k < |l| ==> p.priority < l[k].priority
    requires 1 <= p.auxPriority <= p.priority && p.pid != 0 && IndexOf(l, p.pid) == |l|
    ensures ListInv(InsertAt(l, k, p))
  {
    InsertedAt(l, k, p, 0);
    InsertSorted(l, k, p);
    InsertDistinct(l, k, p);
    forall i | 0 <= i <= |l|
      ensures var q := InsertAt(l, k, p)[i]; q.pid != 0 && 1 <= q.auxPriority <= q.priority
    {
      InsertedAt(l, k, p, i);
    }
  }

  lemma InsertDistinct(l: seq<Process>, k: nat, p: Process)
    requires UniquePids(l) && k <= |l| && IndexOf(l, p.pid) == |l|
    ensures UniquePids(InsertAt(l, k, p))
  {
    var m := InsertAt(l, k, p);
    assert forall i | 0 <= i < |l| :: l[i].pid != p.pid;
    forall i, j | 0 <= i < j < |m|
      ensures m[i].pid != m[j].pid
    {
      InsertedAt(l, k, p, i);
      InsertedAt(l, k, p, j);
    }
  }

  lemma InsertedAt(l: seq<Process>, k: nat, p: Process, i: nat)
    requires k <= |l| && i <= |l|
    ensures InsertAt(l, k, p)[i] == if i < k then l[i] else if i == k then p else l[i - 1]
  {
  }

  lemma RemovedAt(l: seq<Process>, k: nat)
    requires k < |l|
    ensures var m := RemoveAt(l, k);
            |m| == |l| - 1 && forall i | 0 <= i < |m| :: m[i] == if i < k then l[i] else l[i + 1]
  {
  }

  lemma RemoveKeepsInv(l: seq<Process>, k: nat)
    requires ListInv(l) && 1 <= k < |l|
    ensures ListInv(RemoveAt(l, k)) && IndexOf(RemoveAt(l, k), l[k].pid) == |l| - 1
  {
    var m := RemoveAt(l, k);
    RemovedAt(l, k);
    assert forall j | 0 <= j < |m| :: m[j].pid != l[k].pid;
  }

  /** nice keeps the invariant and only moves nodes: the result is a permutation of the list with
      one process's two priorities replaced. */
  lemma ChangePriorityPermutes(l: seq<Process>, pid: nat, priority: nat)
    requires ListInv(l)
    ensures ListInv(ChangePriority(l, pid, priority))
    ensures !Nicable(l, pid, priority) ==> ChangePriority(l, pid, priority) == l
    ensures Nicable(l, pid, priority) ==>
              var i := IndexOf(l, pid);
              multiset(ChangePriority(l, pid, priority)) ==
              multiset(l[i := l[i].(priority := priority, auxPriority := priority)])
  {
    if Nicable(l, pid, priority) {
      var i := IndexOf(l, pid);
      var p := l[i].(priority := priority, auxPriority := priority);
      assert i >= 1;
      RemoveKeepsInv(l, i);
      var rest := RemoveAt(l, i);
      var k := FirstLessUrgent(rest, priority);
      InsertKeepsInv(rest, k, p);
      MovePermutes(l, i, k, p);
    }
  }

  lemma MovePermutes(l: seq<Process>, i: nat, k: nat, p: Process)
    requires i < |l| && k < |l|
    ensures multiset(InsertAt(RemoveAt(l, i), k, p)) == multiset(l[i := p])
  {
    var rest := RemoveAt(l, i);
    assert rest == rest[..k] + rest[k..];
    assert l[i := p] == l[..i] + [p] + l[i + 1..];
    assert multiset(rest) == multiset(rest[..k]) + multiset(rest[k..]);
    assert multiset(rest) == multiset(l[..i]) + multiset(l[i + 1..]);
    assert multiset(InsertAt(rest, k, p)) == multiset(rest[..k]) + multiset{p} + multiset(rest[k..]);
    assert multiset(InsertAt(rest, k, p)) == multiset(rest) + multiset{p};
    assert multiset(l[..i] + [p] + l[i + 1..]) == multiset(l[..i]) + multiset{p} + multiset(l[i + 1..]);
    assert multiset(l[i := p]) == multiset(rest) + multiset{p};
  }

  // ---------------------------------------------------------------- scheduler events

  datatype System = System(sched: Sched, nextPid: nat)

  datatype Event =
    | Create(priority: nat)
    | Nice(pid: nat, priority: nat)
    | Kill(pid: nat)
    | ExitCurrent
    | SetState(pid: nat, state: nat) // blocking, waking or toggling some process
    | Tick

  const BOOT: System := System(Sched([Process(1, 1, 1, 1)], Unstarted, false, PRIORITY_QUANTUM), 2)

  /** What each entry point asks of its callers: the shell does not exit, and a process that has
      exited or killed itself makes no more calls before the next switch. */
  predicate Callable(y: System, e: Event) {
    match e
    case Create(priority) => priority >= 1 && y.nextPid < PID_LIMIT - 1 && !y.sched.cur.Gone?
    case Nice(_, _) => !y.sched.cur.Gone?
    case Kill(_) => !y.sched.cur.Gone?
    case ExitCurrent => y.sched.cur.Listed? && y.sched.cur.pid != SHELL_PID
    case SetState(_, _) => true
    case Tick => WellFormed(y.sched)
  }

  /** In addition a switch does not read through a null pointer. */
  predicate Allowed(y: System, e: Event) {
    Callable(y, e) && (e.Tick? ==> NoNullRead(y.sched))
  }

  function Apply(y: System, e: Event): System
    requires y.sched.list != [] && Allowed(y, e)
  {
    var s := y.sched;
    match e
    case Create(priority) =>
      System(s.(list := LoadProcess(s.list, Process(y.nextPid, 1, priority, priority)),
                fgTaken := s.fgTaken || (priority == 1 && y.nextPid > 1)),
             (y.nextPid + 1) % PID_LIMIT)
    case Nice(pid, priority) => y.(sched := s.(list := ChangePriority(s.list, pid, priority)))
    case Kill(pid) =>
      if pid > 1 then
        y.(sched := s.(list := DeleteProcess(s.list, pid),
                       cur := if s.cur == Listed(pid) then Gone(pid, IndexOf(s.list, pid)) else s.cur))
      else y
    case ExitCurrent =>
      var i := IndexOf(s.list, s.cur.pid);
      y.(sched := s.(list := DeleteProcess(s.list, s.cur.pid),
                     fgTaken := s.fgTaken && !(i < |s.list| && s.list[i].priority == 1),
                     cur := Gone(s.cur.pid, i)))
    case SetState(pid, state) =>
      var i := IndexOf(s.list, pid);
      if i < |s.list| then y.(sched := s.(list := s.list[i := s.list[i].(state := state)])) else y
    case Tick => y.(sched := Switch(s))
  }

  predicate SystemInv(y: System) {
    && ListInv(y.sched.list) && WellFormed(y.sched) && y.sched.priorityQuantum <= PRIORITY_QUANTUM
    && 1 < y.nextPid < PID_LIMIT
    && (forall i | 0 <= i < |y.sched.list| :: y.sched.list[i].pid < y.nextPid)
    && CurPid(y.sched.cur) < y.nextPid
  }

  lemma BootInv()
    ensures SystemInv(BOOT)
  {
  }

  lemma StillListed(l: seq<Process>, m: seq<Process>, pid: nat)
    requires IndexOf(l, pid) < |l|
    requires exists j | 0 <= j < |m| :: m[j].pid == pid
    ensures IndexOf(m, pid) < |m|
  {
  }

  lemma CreateKeeps(y: System, priority: nat)
    requires SystemInv(y) && Allowed(y, Create(priority))
    ensures SystemInv(Apply(y, Create(priority)))
  {
    var l, p := y.sched.list, Process(y.nextPid, 1, priority, priority);
    LoadIsInsert(l, p);
    InsertionKeeps(y, FirstLessUrgent(l, priority), p);
    NextPidSmall(y.nextPid);
  }

  lemma InsertionKeeps(y: System, k: nat, p: Process)
    requires SystemInv(y) && p.pid == y.nextPid && 1 <= p.auxPriority <= p.priority
    requires var l := y.sched.list;
             && 1 <= k <= |l| && (forall i | 1 <= i < k :: l[i].priority <= p.priority)
             && (k < |l| ==> p.priority < l[k].priority)
    ensures var m := InsertAt(y.sched.list, k, p);
            && ListInv(m) && (forall i | 0 <= i < |m| :: m[i].pid <= y.nextPid)
            && (y.sched.cur.Listed? ==> IndexOf(m, y.sched.cur.pid) < |m|)
  {
    var l := y.sched.list;
    var m := InsertAt(l, k, p);
    AbsentPid(l, p.pid);
    InsertKeepsInv(l, k, p);
    InsertedPids(l, k, p, y.nextPid);
    if y.sched.cur.Listed? {
      InsertedStillListed(l, k, p, y.sched.cur.pid);
    }
  }

  lemma AbsentPid(l: seq<Process>, pid: nat)
    requires forall i | 0 <= i < |l| :: l[i].pid < pid
    ensures IndexOf(l, pid) == |l|
  {
  }

  lemma InsertedPids(l: seq<Process>, k: nat, p: Process, bound: nat)
    requires k <= |l| && p.pid <= bound && forall i | 0 <= i < |l| :: l[i].pid < bound
    ensures forall i | 0 <= i < |InsertAt(l, k, p)| :: InsertAt(l, k, p)[i].pid <= bound
  {
  }

  lemma InsertedStillListed(l: seq<Process>, k: nat, p: Process, pid: nat)
    requires k <= |l| && IndexOf(l, pid) < |l|
    ensures IndexOf(InsertAt(l, k, p), pid) < |l| + 1
  {
    var c := IndexOf(l, pid);
    var m := InsertAt(l, k, p);
    assert m[if c < k then c else c + 1] == l[c];
    StillListed(l, m, pid);
  }

  lemma NextPidSmall(n: nat)
    requires n < PID_LIMIT - 1
    ensures (n + 1) % PID_LIMIT == n + 1
  {
  }

  lemma NiceKeeps(y: System, pid: nat, priority: nat)
    requires SystemInv(y) && Allowed(y, Nice(pid, priority))
    ensures SystemInv(Apply(y, Nice(pid, priority)))
  {
    ChangePriorityPermutes(y.sched.list, pid, priority);
    if Nicable(y.sched.list, pid, priority) {
      var i := IndexOf(y.sched.list, pid);
      var p := y.sched.list[i].(priority := priority, auxPriority := priority);
      PermutedPids(y, i, p, ChangePriority(y.sched.list, pid, priority));
      Reassembled(Apply(y, Nice(pid, priority)));
    }
  }

  /** A permutation of the list with one node's priorities changed lists the same pids. */
  lemma PermutedPids(y: System, i: nat, p: Process, m: seq<Process>)
    requires SystemInv(y) && i < |y.sched.list| && p.pid == y.sched.list[i].pid
    requires multiset(m) == multiset(y.sched.list[i := p])
    ensures forall j | 0 <= j < |m| :: m[j].pid < y.nextPid
    ensures y.sched.cur.Listed? ==> IndexOf(m, y.sched.cur.pid) < |m|
  {
    var l := y.sched.list;
    var n := l[i := p];
    forall j | 0 <= j < |m|
      ensures m[j].pid < y.nextPid
    {
      assert m[j] in multiset(m);
      assert m[j] in multiset(n);
    }
    if y.sched.cur.Listed? {
      var c := IndexOf(l, y.sched.cur.pid);
      assert n[c] in multiset(n);
      assert n[c] in multiset(m);
      assert n[c].pid == y.sched.cur.pid;
      StillListed(l, m, y.sched.cur.pid);
    }
  }

  lemma RemovalKeeps(y: System, k: nat)
    requires SystemInv(y) && 1 <= k < |y.sched.list|
    ensures var m := RemoveAt(y.sched.list, k);
            && ListInv(m) && (forall i | 0 <= i < |m| :: m[i].pid < y.nextPid)
            && (y.sched.cur.Listed? && y.sched.cur.pid != y.sched.list[k].pid ==> IndexOf(m, y.sched.cur.pid) < |m|)
  {
    var l := y.sched.list;
    RemoveKeepsInv(l, k);
    RemovedAt(l, k);
    if y.sched.cur.Listed? && y.sched.cur.pid != l[k].pid {
      OthersStillListed(l, k, y.sched.cur.pid);
    }
  }

  lemma OthersStillListed(l: seq<Process>, k: nat, pid: nat)
    requires k < |l| && IndexOf(l, pid) < |l| && pid != l[k].pid
    ensures IndexOf(RemoveAt(l, k), pid) < |l| - 1
  {
    var c, m := IndexOf(l, pid), RemoveAt(l, k);
    RemovedAt(l, k);
    assert m[if c < k then c else c - 1] == l[c];
    StillListed(l, m, pid);
  }

  /** The system after node `k` has left the list, whoever it was. */
  function Without(y: System, k: nat, fgTaken: bool): System
    requires k < |y.sched.list|
  {
    var s, pid := y.sched, y.sched.list[k].pid;
    y.(sched := s.(list := RemoveAt(s.list, k), fgTaken := fgTaken,
                   cur := if s.cur == Listed(pid) then Gone(pid, k) else s.cur))
  }

  lemma WithoutKeeps(y: System, k: nat, fgTaken: bool)
    requires SystemInv(y) && !y.sched.cur.Gone? && 1 <= k < |y.sched.list|
    ensures SystemInv(Without(y, k, fgTaken))
  {
    RemovalKeeps(y, k);
    RemoveKeepsInv(y.sched.list, k);
    Reassembled(Without(y, k, fgTaken));
  }

  predicate CurrentMeaningful(l: seq<Process>, cur: Current) {
    && (cur.Listed? ==> IndexOf(l, cur.pid) < |l|)
    && (cur.Gone? ==> 1 <= cur.rest <= |l| && IndexOf(l, cur.pid) == |l|)
  }

  lemma Reassembled(y: System)
    requires ListInv(y.sched.list) && CurrentMeaningful(y.sched.list, y.sched.cur)
    requires y.sched.priorityQuantum <= PRIORITY_QUANTUM && 1 < y.nextPid < PID_LIMIT
    requires (forall i | 0 <= i < |y.sched.list| :: y.sched.list[i].pid < y.nextPid) && CurPid(y.sched.cur) < y.nextPid
    ensures SystemInv(y)
  {
  }

  lemma KillKeeps(y: System, pid: nat)
    requires SystemInv(y) && Allowed(y, Kill(pid))
    ensures SystemInv(Apply(y, Kill(pid)))
  {
    DeleteIsRemove(y.sched.list, pid);
    var i := IndexOf(y.sched.list, pid);
    if pid > 1 && i < |y.sched.list| {
      WithoutKeeps(y, i, y.sched.fgTaken);
      assert Apply(y, Kill(pid)) == Without(y, i, y.sched.fgTaken);
    }
  }

  lemma ExitKeeps(y: System)
    requires SystemInv(y) && Allowed(y, ExitCurrent)
    ensures SystemInv(Apply(y, ExitCurrent))
  {
    var z := Apply(y, ExitCurrent);
    DeleteIsRemove(y.sched.list, y.sched.cur.pid);
    var i := IndexOf(y.sched.list, y.sched.cur.pid);
    WithoutKeeps(y, i, z.sched.fgTaken);
    assert z == Without(y, i, z.sched.fgTaken);
  }

  lemma SetStateKeeps(y: System, pid: nat, state: nat)
    requires SystemInv(y)
    ensures SystemInv(Apply(y, SetState(pid, state)))
  {
    var i := IndexOf(y.sched.list, pid);
    if i < |y.sched.list| {
      StateList(y.sched.list, i, state);
      SamePids(y.sched.list, Apply(y, SetState(pid, state)).sched.list, CurPid(y.sched.cur));
      Reassembled(Apply(y, SetState(pid, state)));
    }
  }

  lemma StateList(l: seq<Process>, i: nat, state: nat)
    requires ListInv(l) && i < |l|
    ensures var m := l[i := l[i].(state := state)];
            ListInv(m) && forall j | 0 <= j < |l| :: m[j].pid == l[j].pid
  {
  }

  lemma TickKeeps(y: System)
    requires SystemInv(y) && Allowed(y, Tick)
    ensures SystemInv(Apply(y, Tick))
  {
    SwitchWellFormed(y.sched);
    SwitchListInv(y.sched);
    SwitchCurrent(y.sched);
    Ticked(y, Switch(y.sched));
  }

  lemma SwitchListInv(s: Sched)
    requires WellFormed(s) && NoNullRead(s) && ListInv(s.list)
    ensures ListInv(Switch(s).list)
  {
    if !s.cur.Unstarted? {
      AgedWellFormed(s);
      TickList(s.list, Aged(s), Chosen(s));
    }
  }

  lemma SwitchCurrent(s: Sched)
    requires WellFormed(s) && NoNullRead(s) && s.priorityQuantum <= PRIORITY_QUANTUM
    ensures Switch(s).cur.Listed? || Switch(s).cur.Dummy?
    ensures Switch(s).priorityQuantum <= PRIORITY_QUANTUM
  {
  }

  lemma Ticked(y: System, t: Sched)
    requires SystemInv(y) && WellFormed(t) && ListInv(t.list) && t.priorityQuantum <= PRIORITY_QUANTUM
    requires t.cur.Listed? || t.cur.Dummy?
    requires |t.list| == |y.sched.list| && forall i | 0 <= i < |t.list| :: t.list[i].pid == y.sched.list[i].pid
    ensures SystemInv(y.(sched := t))
  {
  }

  lemma TickList(l: seq<Process>, a: Sched, c: Choice)
    requires ListInv(l) && |a.list| == |l| && (c.Run? ==> c.index < |l|)
    requires forall i | 0 <= i < |l| ::
               a.list[i].pid == l[i].pid && a.list[i].priority == l[i].priority && 1 <= a.list[i].auxPriority <= l[i].priority
    ensures ListInv(Dispatch(a, c).list)
  {
  }

  lemma EventKeeps(y: System, e: Event)
    requires SystemInv(y) && Allowed(y, e)
    ensures SystemInv(Apply(y, e))
  {
    match e
    case Create(priority) => CreateKeeps(y, priority);
    case Nice(pid, priority) => NiceKeeps(y, pid, priority);
    case Kill(pid) => KillKeeps(y, pid);
    case ExitCurrent => ExitKeeps(y);
    case SetState(pid, state) => SetStateKeeps(y, pid, state);
    case Tick => TickKeeps(y);
  }

  predicate AllAllowed(y: System, events: seq<Event>)
    decreases |events|
  {
    events == [] ||
    (y.sched.list != [] && Allowed(y, events[0]) && AllAllowed(Apply(y, events[0]), events[1..]))
  }

  function After(y: System, events: seq<Event>): System
    requires AllAllowed(y, events)
    decreases |events|
  {
    if events == [] then y else After(Apply(y, events[0]), events[1..])
  }

  lemma {:induction false} InvAlongRun(y: System, events: seq<Event>)
    requires SystemInv(y) && AllAllowed(y, events)
    ensures SystemInv(After(y, events))
    decreases |events|
  {
    if events == [] {
    } else {
      EventKeeps(y, events[0]);
      InvAlongRun(Apply(y, events[0]), events[1..]);
    }
  }

  /** After any run from boot: the shell heads the list with priority 1, pids are distinct, the
      list is sorted by priority and every auxPriority lies between 1 and the priority. */
  lemma ProcessListAfterAnyRun(events: seq<Event>)
    requires AllAllowed(BOOT, events)
    ensures ListInv(After(BOOT, events).sched.list) && WellFormed(After(BOOT, events).sched)
  {
    BootInv();
    InvAlongRun(BOOT, events);
  }

  // ---------------------------------------------------------------- the flag and the null read

  /** The flag is up only while some process besides the shell is listed, of whatever priority. */
  predicate Accompanied(s: Sched) {
    s.fgTaken ==> |s.list| > 1
  }

  lemma OtherEventsKeepCompany(y: System, e: Event)
    requires SystemInv(y) && Allowed(y, e) && Accompanied(y.sched) && !e.Kill? && !e.ExitCurrent?
    ensures Accompanied(Apply(y, e).sched)
  {
    match e
    case Create(priority) => LoadIsInsert(y.sched.list, Process(y.nextPid, 1, priority, priority));
    case Nice(pid, priority) =>
    case SetState(pid, state) =>
    case Tick =>
      if !y.sched.cur.Unstarted? {
        AgedWellFormed(y.sched);
        DispatchWellFormed(y.sched, Aged(y.sched), Chosen(y.sched));
        assert Switch(y.sched) == Dispatch(Aged(y.sched), Chosen(y.sched));
      }
  }

  /** killPid never lowers the flag, so the shell is left alone under it exactly when the flag is up
      and the only process besides the shell is killed. */
  lemma KillKeepsCompanyExactly(y: System, pid: nat)
    requires SystemInv(y) && Allowed(y, Kill(pid)) && Accompanied(y.sched)
    ensures Accompanied(Apply(y, Kill(pid)).sched) <==>
              !(y.sched.fgTaken && |y.sched.list| == 2 && y.sched.list[1].pid == pid)
  {
    DeleteIsRemove(y.sched.list, pid);
    if |y.sched.list| == 2 && y.sched.list[1].pid == pid { IndexOfUnique(y.sched.list, 1); }
  }

  /** exit lowers the flag for a process of priority 1 and for no other. */
  lemma ExitKeepsCompanyExactly(y: System)
    requires SystemInv(y) && Allowed(y, ExitCurrent) && Accompanied(y.sched)
    ensures Accompanied(Apply(y, ExitCurrent).sched) <==>
              !(y.sched.fgTaken && |y.sched.list| == 2 && y.sched.list[1].priority != 1)
  {
    DeleteIsRemove(y.sched.list, y.sched.cur.pid);
  }

  /** Then a switch never follows a null pointer. */
  lemma CompanyMeansNoNullRead(s: Sched)
    requires Accompanied(s)
    ensures NoNullRead(s)
  {
  }

  /** And without it, unless a process is created in between, one of the next two switches does. */
  lemma AloneReadsNull(y: System)
    requires SystemInv(y) && !Accompanied(y.sched) && !y.sched.cur.Unstarted?
    ensures !Allowed(y, Tick) || !Allowed(Apply(y, Tick), Tick)
  {
    if Allowed(y, Tick) {
      var s := y.sched;
      AgedWellFormed(s);
      assert PrefixEnd(Aged(s)) == 0 && SuffixStart(Aged(s)) == 1;
      assert Chosen(s) == Idle;
      assert Switch(s).cur == Dummy && |Switch(s).list| == 1;
    }
  }

  /** A kill or an exit that does not leave the shell alone under the flag. */
  predicate Prudent(y: System, e: Event) {
    match e
    case Kill(pid) => !(y.sched.fgTaken && |y.sched.list| == 2 && y.sched.list[1].pid == pid)
    case ExitCurrent => !(y.sched.fgTaken && |y.sched.list| == 2 && y.sched.list[1].priority != 1)
    case _ => true
  }

  predicate AllPrudent(y: System, events: seq<Event>)
    decreases |events|
  {
    || events == []
    || (&& y.sched.list != [] && Callable(y, events[0]) && Prudent(y, events[0])
        && (Allowed(y, events[0]) ==> AllPrudent(Apply(y, events[0]), events[1..])))
  }

  lemma PrudentKeepsCompany(y: System, e: Event)
    requires SystemInv(y) && Allowed(y, e) && Accompanied(y.sched) && Prudent(y, e)
    ensures Accompanied(Apply(y, e).sched)
  {
    match e
    case Kill(pid) => KillKeepsCompanyExactly(y, pid);
    case ExitCurrent => ExitKeepsCompanyExactly(y);
    case _ => OtherEventsKeepCompany(y, e);
  }

  lemma {:induction false} PrudentAlongRun(y: System, events: seq<Event>)
    requires SystemInv(y) && Accompanied(y.sched) && AllPrudent(y, events)
    ensures AllAllowed(y, events)
    decreases |events|
  {
    if events == [] {
    } else {
      CompanyMeansNoNullRead(y.sched);
      EventKeeps(y, events[0]);
      PrudentKeepsCompany(y, events[0]);
      PrudentAlongRun(Apply(y, events[0]), events[1..]);
    }
  }

  /** On a run from boot whose kills and exits meet their conditions no switch ever reads through a
      null pointer, and the process list stays sound. */
  lemma PrudentRunsNeverReadNull(events: seq<Event>)
    requires AllPrudent(BOOT, events)
    ensures AllAllowed(BOOT, events) && ListInv(After(BOOT, events).sched.list)
  {
    BootInv();
    PrudentAlongRun(BOOT, events);
    ProcessListAfterAnyRun(events);
  }

  // ---------------------------------------------------------------- runs that end in a null read

  lemma Chain(y: System, e: Event, rest: seq<Event>)
    requires y.sched.list != [] && Allowed(y, e)
    ensures AllAllowed(y, [e] + rest) <==> AllAllowed(Apply(y, e), rest)
    ensures AllAllowed(Apply(y, e), rest) ==> After(y, [e] + rest) == After(Apply(y, e), rest)
  {
    assert ([e] + rest)[1..] == rest;
  }

  const SHELL: Process := Process(1, 1, 1, 1)

  /** The shell is started and a second process is created in the foreground. */
  function WithForeground(): System {
    System(Sched([SHELL, Process(2, 1, 1, 1)], Listed(1), true, PRIORITY_QUANTUM), 3)
  }

  lemma ForegroundStarted(rest: seq<Event>)
    ensures AllAllowed(BOOT, [Tick, Create(1)] + rest) <==> AllAllowed(WithForeground(), rest)
    ensures AllAllowed(WithForeground(), rest) ==>
              After(BOOT, [Tick, Create(1)] + rest) == After(WithForeground(), rest)
  {
    var y1 := Apply(BOOT, Tick);
    assert y1 == System(Sched([SHELL], Listed(1), false, PRIORITY_QUANTUM), 2);
    var y2 := Apply(y1, Create(1));
    assert y2.sched.list == [SHELL, Process(2, 1, 1, 1)];
    assert y2 == WithForeground();
    Chain(y1, Create(1), rest);
    Chain(BOOT, Tick, [Create(1)] + rest);
    assert [Tick] + ([Create(1)] + rest) == [Tick, Create(1)] + rest;
  }

  lemma ShellAlone(cur: Current, quantum: nat)
    requires cur == Listed(1)
    ensures var s := Sched([SHELL], cur, true, quantum);
            && WellFormed(s) && NoNullRead(s)
            && Chosen(s) == Idle && Aged(s).list == [SHELL]
  {
    var s := Sched([SHELL], cur, true, quantum);
    var a := Aged(s);
    assert a.list == [SHELL];
    assert PrefixEnd(a) == 0 && SuffixStart(a) == 1;
  }

  /** Start a foreground process and kill it: the flag stays up over the shell alone, the next
      switch turns to the dummy, and the one after that reads through a null pointer. */
  lemma KilledForegroundExample()
    ensures var events := [Tick, Create(1)] + [Kill(2), Tick];
            && AllAllowed(BOOT, events)
            && Callable(After(BOOT, events), Tick) && !Allowed(After(BOOT, events), Tick)
  {
    var y2 := WithForeground();
    var y3 := System(Sched([SHELL], Listed(1), true, PRIORITY_QUANTUM), 3);
    assert Apply(y2, Kill(2)) == y3 by {
      assert y2.sched.list[1..] == [Process(2, 1, 1, 1)] && DeleteProcess(y2.sched.list[1..], 2) == [];
    }
    DummyNext(y3);
    Chain(y3, Tick, []);
    Chain(y2, Kill(2), [Tick] + []);
    assert [Kill(2)] + ([Tick] + []) == [Kill(2), Tick];
    ForegroundStarted([Kill(2), Tick]);
  }

  /** Over the shell alone, with the flag up, one switch turns to the dummy and leaves the next none
      to make. */
  lemma DummyNext(y: System)
    requires y == System(Sched([SHELL], Listed(1), true, PRIORITY_QUANTUM), 3)
    ensures Allowed(y, Tick) && Callable(Apply(y, Tick), Tick) && !Allowed(Apply(y, Tick), Tick)
  {
    ShellAlone(Listed(1), PRIORITY_QUANTUM);
    var z := Apply(y, Tick);
    assert z.sched.list == [SHELL] && z.sched.cur == Dummy && z.sched.fgTaken;
    assert IndexOf([SHELL], 0) == 1;
  }

  /** The second process is switched to. */
  lemma SecondRuns()
    ensures var s := WithForeground().sched;
            && WellFormed(s) && NoNullRead(s) && Chosen(s) == Run(1)
            && Aged(s).list == s.list
  {
    var s := WithForeground().sched;
    var a := Aged(s);
    assert a.list == s.list;
    assert PrefixEnd(a) == 0 && SuffixStart(a) == 1;
    assert Scan(Candidate, a.list, false, 1, 2, 2) == 1;
    assert Scan(Candidate, a.list, false, 1, 1, 2) == 1;
  }

  lemma SecondSwitched()
    ensures var y := WithForeground();
            && Allowed(y, Tick)
            && var z := Apply(y, Tick);
               && z.sched.list == [SHELL, Process(2, 1, 1, 1)] && z.sched.cur == Listed(2)
               && z.sched.fgTaken && z.nextPid == 3
  {
    SecondRuns();
    var z := Apply(WithForeground(), Tick);
    assert z.sched.list == [SHELL, Process(2, 1, 1, 1)];
  }

  /** A foreground process whose priority is lowered before it exits leaves the flag up as well, and
      the very next switch reads through a null pointer. */
  lemma NicedExitExample()
    ensures var events := [Tick, Create(1)] + [Tick, Nice(2, 5), ExitCurrent];
            && AllAllowed(BOOT, events)
            && Callable(After(BOOT, events), Tick) && !Allowed(After(BOOT, events), Tick)
  {
    var y2 := WithForeground();
    SecondSwitched();
    var y3 := Apply(y2, Tick);
    NicedSecond(y3.sched.list);
    var y4 := Apply(y3, Nice(2, 5));
    ExitAfterNice(y4);
    var s4 := [ExitCurrent] + [];
    var s3 := [Nice(2, 5)] + s4;
    Chain(y4, ExitCurrent, []);
    Chain(y3, Nice(2, 5), s4);
    Chain(y2, Tick, s3);
    assert [Tick] + s3 == [Tick, Nice(2, 5), ExitCurrent];
    ForegroundStarted([Tick, Nice(2, 5), ExitCurrent]);
  }

  /** The exit finds priority 5, not the foreground's 1, and leaves the flag up. */
  lemma ExitAfterNice(y: System)
    requires y.sched.list == [SHELL, Process(2, 1, 5, 5)] && y.sched.cur == Listed(2) && y.sched.fgTaken
    ensures Allowed(y, ExitCurrent)
    ensures Callable(Apply(y, ExitCurrent), Tick) && !Allowed(Apply(y, ExitCurrent), Tick)
  {
    var z := Apply(y, ExitCurrent);
    assert y.sched.list[1..] == [Process(2, 1, 5, 5)] && DeleteProcess(y.sched.list[1..], 2) == [];
    assert z.sched.list == [SHELL] && z.sched.cur == Gone(2, 1) && z.sched.fgTaken;
    assert IndexOf([SHELL], 2) == 1;
  }

  lemma NicedSecond(l: seq<Process>)
    requires l == [SHELL, Process(2, 1, 1, 1)]
    ensures IndexOf(l, 2) == 1 && ChangePriority(l, 2, 5) == [SHELL, Process(2, 1, 5, 5)]
  {
    assert IndexOf(l, 2) == 1;
    var rest := RemoveAt(l, 1);
    assert rest == [SHELL];
    assert FirstLessUrgent(rest, 5) == 1;
  }
}
