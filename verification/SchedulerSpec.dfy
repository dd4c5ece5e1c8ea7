// What one call of switchProcess does (Kernel/utils/scheduler.c:178-259), on values.
module SchedulerSpec {
  const PRIORITY_QUANTUM: nat := 5
  const SHELL_PID: nat := 1

  /** `state` is the pcb's pstate: 0 blocked, 1 ready, 2 deleted. */
  datatype Process = Process(pid: nat, state: nat, priority: nat, auxPriority: nat)

  /** What the current-process pointer refers to.  `Gone` is a node that has just left the list;
      its `next` still points at position `rest`. */
  datatype Current = Unstarted | Listed(pid: nat) | Dummy | Gone(pid: nat, rest: nat)

  datatype Sched = Sched(list: seq<Process>, cur: Current, fgTaken: bool, priorityQuantum: nat)

  predicate Ready(p: Process) {
    p.state == 1
  }

  function IndexOf(l: seq<Process>, pid: nat): (k: nat)
    ensures k <= |l|
    ensures forall i | 0 <= i < k :: l[i].pid != pid
    ensures k < |l| ==> l[k].pid == pid
  {
    if l == [] || l[0].pid == pid then 0 else 1 + IndexOf(l[1..], pid)
  }

  predicate UniquePids(l: seq<Process>) {
    forall i, j | 0 <= i < j < |l| :: l[i].pid != l[j].pid
  }

  lemma IndexOfUnique(l: seq<Process>, i: nat)
    requires UniquePids(l) && i < |l|
    ensures IndexOf(l, l[i].pid) == i
  {
    var k := IndexOf(l, l[i].pid);
    assert k <= i;
  }

  function CurPid(c: Current): nat {
    match c
    case Listed(p) => p
    case Gone(p, _) => p
    case _ => 0
  }

  /** The shell heads the list, pids are distinct, and the current pointer is meaningful. */
  predicate WellFormed(s: Sched) {
    && s.list != [] && s.list[0].pid == SHELL_PID
    && UniquePids(s.list)
    && (forall i | 0 <= i < |s.list| :: s.list[i].pid != 0)
    && (s.cur.Listed? ==> IndexOf(s.list, s.cur.pid) < |s.list|)
    && (s.cur.Gone? ==> 1 <= s.cur.rest <= |s.list| && IndexOf(s.list, s.cur.pid) == |s.list|)
  }

  // ---------------------------------------------------------------- aging

  function AgeOne(p: Process, curPid: nat): Process {
    if p.auxPriority > 1 && p.pid != curPid && Ready(p) then p.(auxPriority := p.auxPriority - 1) else p
  }

  function AgeAll(l: seq<Process>, curPid: nat): (r: seq<Process>)
    ensures |r| == |l|
    ensures forall i | 0 <= i < |l| :: r[i] == AgeOne(l[i], curPid)
  {
    seq(|l|, i requires 0 <= i < |l| => AgeOne(l[i], curPid))
  }

  // ---------------------------------------------------------------- the two scans

  /** Which node's readiness the replacement test of a scan looks at.  The scan after the current
      node looks at the candidate, the scan before it at the incumbent. */
  datatype Test = Candidate | Incumbent

  /** Either scan from position `j` to `hi` with `first` the best so far.  While a foreground
      process exists the shell is stepped over. */
  function Scan(t: Test, l: seq<Process>, fg: bool, first: nat, j: nat, hi: nat): (r: nat)
    requires j <= hi <= |l| && first < |l| && first <= j
    requires forall i | 1 <= i < |l| :: l[i].pid != SHELL_PID
    requires fg && first + 1 == |l| && l[first].pid == SHELL_PID ==> j == hi
    ensures r < |l|
    decreases hi - j
  {
    if j == hi then first
    else if l[j].pid == SHELL_PID && fg then
      Scan(t, l, fg, if l[first].pid == SHELL_PID then first + 1 else first, j + 1, hi)
    else
      var f := if !Ready(l[first]) then j else first;
      var ready := if t.Candidate? then Ready(l[j]) else Ready(l[f]);
      Scan(t, l, fg, if l[j].auxPriority < l[f].auxPriority && ready then j else f, j + 1, hi)
  }

  // ---------------------------------------------------------------- the choice

  function SuffixStart(s: Sched): nat
    requires WellFormed(s)
  {
    match s.cur
    case Listed(p) => IndexOf(s.list, p) + 1
    case Gone(_, r) => r
    case _ => |s.list|
  }

  function PrefixEnd(s: Sched): nat {
    IndexOf(s.list, CurPid(s.cur))
  }

  /** Without this the scan steps past the only node and the code reads through NULL at line 238. */
  predicate NoNullRead(s: Sched) {
    s.fgTaken && !s.cur.Unstarted? ==> |s.list| > 1 || PrefixEnd(s) == 0
  }

  function PrefixScan(t: Test, s: Sched): (r: nat)
    requires WellFormed(s) && NoNullRead(s) && !s.cur.Unstarted?
    ensures r < |s.list|
  {
    ShellOnlyAtHead(s);
    Scan(t, s.list, s.fgTaken, 0, 0, PrefixEnd(s))
  }

  lemma ShellOnlyAtHead(s: Sched)
    requires WellFormed(s)
    ensures forall i | 1 <= i < |s.list| :: s.list[i].pid != SHELL_PID
  {
  }

  datatype Choice = Idle | Run(index: nat)

  /** The decision after both scans, `first` being the prefix scan's result. */
  function Decide(s: Sched, first: nat): (c: Choice)
    requires WellFormed(s) && first < |s.list|
    ensures c.Run? ==> c.index < |s.list|
  {
    var l := s.list;
    var f := if !Ready(l[first]) && s.cur.Listed? && Ready(l[PrefixEnd(s)]) then PrefixEnd(s) else first;
    var firstOk := !(s.fgTaken && l[f].pid == SHELL_PID) && Ready(l[f]);
    if SuffixStart(s) >= |l| then
      if firstOk then Run(f) else Idle
    else
      ShellOnlyAtHead(s);
      var next := Scan(Candidate, l, false, SuffixStart(s), SuffixStart(s), |l|);
      if !Ready(l[next]) then
        if firstOk then Run(f) else Idle
      else if firstOk && l[f].auxPriority < l[next].auxPriority then Run(f)
      else Run(next)
  }

  // ---------------------------------------------------------------- one call

  function Aged(s: Sched): Sched {
    if s.priorityQuantum == 0
    then s.(list := AgeAll(s.list, CurPid(s.cur)), priorityQuantum := PRIORITY_QUANTUM)
    else s.(priorityQuantum := s.priorityQuantum - 1)
  }

  function Dispatch(s: Sched, c: Choice): Sched
    requires c.Run? ==> c.index < |s.list|
  {
    match c
    case Idle => s.(cur := Dummy)
    case Run(i) =>
      s.(cur := Listed(s.list[i].pid), list := s.list[i := s.list[i].(auxPriority := s.list[i].priority)])
  }

  lemma AgedWellFormed(s: Sched)
    requires WellFormed(s)
    ensures WellFormed(Aged(s)) && PrefixEnd(Aged(s)) == PrefixEnd(s) && |Aged(s).list| == |s.list|
    ensures NoNullRead(s) ==> NoNullRead(Aged(s))
    ensures SuffixStart(Aged(s)) == SuffixStart(s)
  {
    SamePids(s.list, Aged(s).list, CurPid(s.cur));
  }

  lemma {:induction false} SamePids(l: seq<Process>, m: seq<Process>, pid: nat)
    requires |l| == |m| && forall i | 0 <= i < |l| :: l[i].pid == m[i].pid
    ensures IndexOf(l, pid) == IndexOf(m, pid)
  {
    if l != [] && l[0].pid != pid {
      assert forall i | 0 <= i < |l[1..]| :: l[1..][i].pid == m[1..][i].pid by {
        assert forall i | 0 <= i < |l[1..]| :: l[1..][i] == l[i + 1] && m[1..][i] == m[i + 1];
      }
      SamePids(l[1..], m[1..], pid);
    }
  }

  /** The choice of one call as written. */
  function Chosen(s: Sched): (c: Choice)
    requires WellFormed(s) && NoNullRead(s) && !s.cur.Unstarted?
    ensures c.Run? ==> c.index < |s.list|
  {
    AgedWellFormed(s);
    Decide(Aged(s), PrefixScan(Incumbent, Aged(s)))
  }

  function Switch(s: Sched): Sched
    requires WellFormed(s) && NoNullRead(s)
  {
    if s.cur.Unstarted? then s.(cur := Listed(s.list[0].pid))
    else Dispatch(Aged(s), Chosen(s))
  }

  lemma SwitchWellFormed(s: Sched)
    requires WellFormed(s) && NoNullRead(s)
    ensures WellFormed(Switch(s)) && |Switch(s).list| == |s.list|
    ensures forall i | 0 <= i < |s.list| :: Switch(s).list[i].pid == s.list[i].pid
  {
    if s.cur.Unstarted? {
      IndexOfUnique(s.list, 0);
    } else {
      DispatchWellFormed(s, Aged(s), Chosen(s));
    }
  }

  lemma DispatchWellFormed(s: Sched, a: Sched, c: Choice)
    requires WellFormed(s) && a == Aged(s) && (c.Run? ==> c.index < |a.list|)
    ensures WellFormed(Dispatch(a, c)) && |Dispatch(a, c).list| == |s.list|
    ensures forall i | 0 <= i < |s.list| :: Dispatch(a, c).list[i].pid == s.list[i].pid
  {
    AgedWellFormed(s);
    if c.Run? {
      IndexOfUnique(a.list, c.index);
      SamePids(a.list, Dispatch(a, c).list, a.list[c.index].pid);
    }
  }
}
