// The scheduler as it works in place: a linked list of nodes walked by pointers, the aging counter
// and the foreground flag (Kernel/utils/scheduler.c).
module SchedulerCode {
  import opened SchedulerSpec
  import opened ProcessList

  class ListNode {
    var process: Process
    var next: ListNode?

    constructor (process: Process, next: ListNode?)
      ensures this.process == process && this.next == next
    {
      this.process := process;
      this.next := next;
    }
  }

  /** The node at position `k`, or null past the end. */
  function NodeAt(nodes: seq<ListNode>, k: nat): ListNode? {
    if k < |nodes| then nodes[k] else null
  }

  ghost predicate LinkedAt(nodes: seq<ListNode>, l: seq<Process>, i: nat)
    requires i < |nodes| == |l|
    reads nodes
  {
    nodes[i].process == l[i] && nodes[i].next == NodeAt(nodes, i + 1)
  }

  predicate Different(nodes: seq<ListNode>, i: nat, j: nat)
    requires i < |nodes| && j < |nodes|
  {
    nodes[i] == nodes[j] ==> i == j
  }

  /** Following `next` from `head` visits `nodes` in order, each once, and finds the processes `l`. */
  ghost predicate Linked(head: ListNode?, nodes: seq<ListNode>, l: seq<Process>)
    reads nodes
  {
    && |nodes| == |l| && head == NodeAt(nodes, 0)
    && (forall i: nat, j: nat | i < |nodes| && j < |nodes| :: Different(nodes, i, j))
    && forall i: nat | i < |nodes| :: LinkedAt(nodes, l, i)
  }

  /** The rest of a list behind its first node. */
  lemma TailLinked(node: ListNode, seg: seq<ListNode>, l: seq<Process>)
    requires seg != [] && Linked(node, seg, l)
    ensures node !in seg[1..] && node.process == l[0] && Linked(node.next, seg[1..], l[1..])
  {
    assert LinkedAt(seg, l, 0);
    forall i: nat | i < |seg[1..]|
      ensures LinkedAt(seg[1..], l[1..], i) && seg[1..][i] != node
    {
      assert LinkedAt(seg, l, i + 1) && Different(seg, 0, i + 1);
    }
    forall i: nat, j: nat | i < |seg[1..]| && j < |seg[1..]|
      ensures Different(seg[1..], i, j)
    {
      assert Different(seg, i + 1, j + 1);
    }
  }

  /** The node at `i`, if there is one, is terminated and out of the list that begins at `r`; it still
      points where it pointed. */
  ghost predicate CutOut(r: ListNode?, seg: seq<ListNode>, l: seq<Process>, i: nat)
    reads seg
  {
    && |seg| == |l| && i <= |l|
    && if i == |l| then Linked(r, seg, l) else
         && Linked(r, seg[..i] + seg[i + 1..], RemoveAt(l, i))
         && seg[i].process == l[i].(state := 2) && seg[i].next == NodeAt(seg, i + 1)
  }

  lemma TailDropped<T>(s: seq<T>, i: nat)
    requires i + 1 < |s|
    ensures [s[0]] + (s[1..][..i] + s[1..][i + 1..]) == s[..i + 1] + s[i + 2..]
  {
  }

  lemma FrontCutOut(node: ListNode, seg: seq<ListNode>, l: seq<Process>, i: nat)
    requires |seg| == |l| > 0 && node == seg[0] && node !in seg[1..] && node.process == l[0]
    requires CutOut(node.next, seg[1..], l[1..], i)
    ensures CutOut(node, seg, l, i + 1)
  {
    if i == |l[1..]| {
      FrontLinked(node, seg[1..], l[1..]);
      assert [node] + seg[1..] == seg && [l[0]] + l[1..] == l;
    } else {
      FrontLinked(node, seg[1..][..i] + seg[1..][i + 1..], RemoveAt(l[1..], i));
      TailDropped(seg, i);
      TailDropped(l, i);
    }
  }

  lemma FrontAdded(node: ListNode, seg: seq<ListNode>, l: seq<Process>, k: nat, newNode: ListNode, process: Process)
    requires k + 1 <= |seg| == |l| && node == seg[0] && node !in seg[1..] && node != newNode && node.process == l[0]
    requires Linked(node.next, seg[1..][..k] + [newNode] + seg[1..][k..], InsertAt(l[1..], k, process))
    ensures Linked(node, seg[..k + 1] + [newNode] + seg[k + 1..], InsertAt(l, k + 1, process))
  {
    FrontLinked(node, seg[1..][..k] + [newNode] + seg[1..][k..], InsertAt(l[1..], k, process));
    assert [node] + (seg[1..][..k] + [newNode] + seg[1..][k..]) == seg[..k + 1] + [newNode] + seg[k + 1..];
    assert [l[0]] + InsertAt(l[1..], k, process) == InsertAt(l, k + 1, process);
  }

  lemma NobodyNew(was: seq<ListNode>, i: nat, k: nat)
    requires i < |was| && k < |was|
    ensures var rest := was[..i] + was[i + 1..];
            forall n | n in rest[..k] + [was[i]] + rest[k..] :: n in was
  {
    var rest := was[..i] + was[i + 1..];
    assert forall n | n in rest[..k] + [was[i]] + rest[k..] :: n in rest || n == was[i];
  }

  lemma StillDifferent(was: seq<ListNode>, i: nat)
    requires i < |was| && forall j: nat, k: nat | j < |was| && k < |was| :: Different(was, j, k)
    ensures var nodes := was[..i] + was[i + 1..];
            forall j: nat, k: nat | j < |nodes| && k < |nodes| :: Different(nodes, j, k)
  {
    var nodes := was[..i] + was[i + 1..];
    forall j: nat, k: nat | j < |nodes| && k < |nodes|
      ensures Different(nodes, j, k)
    {
      assert Different(was, if j < i then j else j + 1, if k < i then k else k + 1);
    }
  }

  lemma OneMore(was: seq<ListNode>, i: nat, node: ListNode)
    requires i <= |was| && node !in was && forall j: nat, k: nat | j < |was| && k < |was| :: Different(was, j, k)
    ensures var nodes := was[..i] + [node] + was[i..];
            forall j: nat, k: nat | j < |nodes| && k < |nodes| :: Different(nodes, j, k)
  {
    var nodes := was[..i] + [node] + was[i..];
    forall j: nat, k: nat | j < |nodes| && k < |nodes|
      ensures Different(nodes, j, k)
    {
      if j != i && k != i { assert Different(was, if j < i then j else j - 1, if k < i then k else k - 1); }
    }
  }

  /** One link leads past the node at `i`. */
  lemma Unlinked(head: ListNode?, was: seq<ListNode>, l: seq<Process>, i: nat)
    requires 1 <= i < |was| == |l| && head == NodeAt(was, 0)
    requires forall j: nat, k: nat | j < |was| && k < |was| :: Different(was, j, k)
    requires forall j: nat | j < |was| && j != i - 1 :: LinkedAt(was, l, j)
    requires was[i - 1].process == l[i - 1] && was[i - 1].next == NodeAt(was, i + 1)
    ensures Linked(head, was[..i] + was[i + 1..], RemoveAt(l, i))
  {
    var nodes, m := was[..i] + was[i + 1..], RemoveAt(l, i);
    forall j: nat | j < |nodes|
      ensures LinkedAt(nodes, m, j)
    {
      var k := if j < i then j else j + 1;
      assert nodes[j] == was[k] && m[j] == l[k];
      if k != i - 1 { assert LinkedAt(was, l, k); }
    }
    StillDifferent(was, i);
  }

  /** One link leads over another node at `k`. */
  lemma Relinked(head: ListNode?, was: seq<ListNode>, l: seq<Process>, k: nat, node: ListNode)
    requires 1 <= k <= |was| == |l| && head == NodeAt(was, 0) && node !in was
    requires forall i: nat, j: nat | i < |was| && j < |was| :: Different(was, i, j)
    requires forall j: nat | j < |was| && j != k - 1 :: LinkedAt(was, l, j)
    requires was[k - 1].process == l[k - 1] && was[k - 1].next == node && node.next == NodeAt(was, k)
    ensures Linked(head, was[..k] + [node] + was[k..], InsertAt(l, k, node.process))
  {
    var nodes, m := was[..k] + [node] + was[k..], InsertAt(l, k, node.process);
    forall j: nat | j < |nodes|
      ensures LinkedAt(nodes, m, j)
    {
      if j != k {
        var i := if j < k then j else j - 1;
        assert nodes[j] == was[i] && m[j] == l[i];
        if i != k - 1 { assert LinkedAt(was, l, i); }
      }
    }
    OneMore(was, k, node);
  }

  /** The node at `i` is in the list no more. */
  lemma DroppedNode(nodes: seq<ListNode>, i: nat)
    requires i < |nodes| && forall j: nat, k: nat | j < |nodes| && k < |nodes| :: Different(nodes, j, k)
    ensures nodes[i] !in nodes[..i] + nodes[i + 1..]
    ensures NodeAt(nodes, i + 1) == NodeAt(nodes[..i] + nodes[i + 1..], i)
  {
    forall j: nat | j < |nodes| && j != i
      ensures nodes[j] != nodes[i]
    {
      assert Different(nodes, i, j);
    }
  }

  /** A node put in front of a list. */
  lemma FrontLinked(node: ListNode, rest: seq<ListNode>, l: seq<Process>)
    requires Linked(node.next, rest, l) && node !in rest
    ensures Linked(node, [node] + rest, [node.process] + l)
  {
    var seg, m := [node] + rest, [node.process] + l;
    forall i: nat | i < |seg|
      ensures LinkedAt(seg, m, i)
    {
      if i > 0 { assert LinkedAt(rest, l, i - 1); }
    }
    forall i: nat, j: nat | i < |seg| && j < |seg|
      ensures Different(seg, i, j)
    {
      if i > 0 && j > 0 { assert Different(rest, i - 1, j - 1); }
    }
  }

  class Scheduler {
    var start: ListNode?
    var currentProcess: ListNode?
    const dummy: ListNode
    var firstProcess: bool
    var fgTaken: bool
    var priorityQuantum: nat
    var pid: nat // the next pid to give out

    // the nodes in link order, their processes, and where the current pointer points
    ghost var nodes: seq<ListNode>
    ghost var list: seq<Process>
    ghost var current: Current

    /** What the current pointer points at: a listed node, the dummy, or a node that has just left the
        list and still points into it. */
    ghost predicate Points()
      reads this, currentProcess, dummy
    {
      && dummy !in nodes && dummy.next == null && dummy.process.pid == 0
      && (firstProcess <==> current.Unstarted?)
      && match current
         case Unstarted => true
         case Listed(p) => currentProcess != null && currentProcess in nodes && currentProcess.process.pid == p
         case Dummy => currentProcess == dummy
         case Gone(p, rest) =>
           && currentProcess != null && currentProcess != dummy && currentProcess !in nodes
           && currentProcess.process.pid == p && currentProcess.process.state == 2
           && currentProcess.next == NodeAt(nodes, rest)
    }

    ghost predicate Shows()
      reads this, nodes, currentProcess, dummy
    {
      nodes != [] && Linked(start, nodes, list) && Points()
    }

    ghost function State(): Sched
      reads this
    {
      Sched(list, current, fgTaken, priorityQuantum)
    }

    ghost function Whole(): System
      reads this
    {
      System(State(), pid)
    }

    /** The scheduler with the shell created, before its first tick. */
    constructor ()
      ensures Shows() && Whole() == BOOT && SystemInv(Whole())
      ensures fresh(dummy) && forall n | n in nodes :: fresh(n)
    {
      var shell := new ListNode(Process(1, 1, 1, 1), null);
      var idle := new ListNode(Process(0, 1, 1, 1), null);
      start := shell;
      dummy := idle;
      currentProcess := null;
      firstProcess := true;
      fgTaken := false;
      priorityQuantum := PRIORITY_QUANTUM;
      pid := 2;
      nodes := [shell];
      list := [Process(1, 1, 1, 1)];
      current := Unstarted;
    }

    /** Write the process block of the node at position `i`; its pid stays. */
    method SetProcess(node: ListNode, process: Process, ghost i: nat)
      requires Shows() && i < |nodes| && node == nodes[i] && process.pid == node.process.pid
      modifies node`process, this`list
      ensures Shows() && list == old(list)[i := process]
    {
      ghost var before := list;
      assert LinkedAt(nodes, list, i);
      forall j: nat | j < |nodes|
        ensures LinkedAt(nodes, list, j) && Different(nodes, i, j)
      {
      }
      node.process := process;
      list := list[i := process];
      forall j: nat | j < |nodes|
        ensures LinkedAt(nodes, list, j)
      {
        assert Different(nodes, i, j);
        assert nodes[j].next == NodeAt(nodes, j + 1) && (j != i ==> nodes[j].process == before[j]);
      }
    }

    // ---------------------------------------------------------------- the switch

    method AgeOthers()
      requires Shows() && !current.Unstarted?
      modifies this`list, nodes
      ensures Shows() && list == AgeAll(old(list), CurPid(current))
    {
      ghost var i: nat := 0;
      var auxNodeIter := start;
      while auxNodeIter != null
        invariant i <= |nodes| == |old(list)| && auxNodeIter == NodeAt(nodes, i) && Shows()
        invariant forall j | 0 <= j < i :: list[j] == AgeOne(old(list)[j], CurPid(current))
        invariant forall j | i <= j < |nodes| :: list[j] == old(list)[j]
        decreases |nodes| - i
      {
        assert LinkedAt(nodes, list, i);
        if auxNodeIter.process.auxPriority > 1 && auxNodeIter.process.pid != currentProcess.process.pid &&
           auxNodeIter.process.state == 1 {
          SetProcess(auxNodeIter, auxNodeIter.process.(auxPriority := auxNodeIter.process.auxPriority - 1), i);
        }
        assert LinkedAt(nodes, list, i);
        auxNodeIter := auxNodeIter.next;
        i := i + 1;
      }
    }

    /** Lines 193-202. */
    method AgeStep()
      requires Shows() && !current.Unstarted?
      modifies this`list, this`priorityQuantum, nodes
      ensures Shows() && State() == Aged(old(State()))
    {
      if priorityQuantum == 0 {
        AgeOthers();
        priorityQuantum := PRIORITY_QUANTUM + 1;
      }
      priorityQuantum := priorityQuantum - 1;
    }

    /** Where the current node points: the start of the scan after it. */
    lemma NextOfCurrent()
      requires Shows() && WellFormed(State()) && !current.Unstarted?
      ensures currentProcess != null && currentProcess.next == NodeAt(nodes, SuffixStart(State()))
      ensures currentProcess.process.pid == CurPid(current)
      ensures current.Listed? ==> PrefixEnd(State()) < |nodes| && currentProcess == nodes[PrefixEnd(State())]
      ensures !current.Listed? ==> currentProcess.process.state != 1 || currentProcess.process.pid == 0
    {
      if current.Listed? {
        var i: nat :| i < |nodes| && nodes[i] == currentProcess;
        assert LinkedAt(nodes, list, i);
        IndexOfUnique(list, i);
      }
    }

    /** Lines 208-216, from the node after the current one. */
    method ScanAfter(first: ListNode?, ghost b: nat) returns (nextProcess: ListNode?, ghost n: nat)
      requires Linked(start, nodes, list) && first == NodeAt(nodes, b)
      requires forall i | 1 <= i < |list| :: list[i].pid != SHELL_PID
      ensures b >= |list| ==> nextProcess == null
      ensures b < |list| ==> n < |list| && n == Scan(Candidate, list, false, b, b, |list|) && nextProcess == nodes[n]
    {
      nextProcess, n := first, b;
      ghost var j: nat := b;
      var auxNextProcess := first;
      while auxNextProcess != null
        invariant auxNextProcess == NodeAt(nodes, j) && nextProcess == NodeAt(nodes, n)
        invariant b >= |list| ==> auxNextProcess == null && nextProcess == null
        invariant b < |list| ==> n < |list| && n <= j <= |list|
        invariant b < |list| ==> Scan(Candidate, list, false, n, j, |list|) == Scan(Candidate, list, false, b, b, |list|)
        modifies {}
        decreases |list| - j
      {
        assert LinkedAt(nodes, list, n) && LinkedAt(nodes, list, j);
        CandidateStep(list, n, j);
        if nextProcess.process.state != 1 {
          nextProcess, n := auxNextProcess, j;
        }
        if auxNextProcess.process.auxPriority < nextProcess.process.auxPriority && auxNextProcess.process.state == 1 {
          nextProcess, n := auxNextProcess, j;
        }
        auxNextProcess := auxNextProcess.next;
        j := j + 1;
      }
    }

    /** Lines 218-236, from the head to the node with the current pid. */
    method ScanBefore(own: nat, ghost stop: nat) returns (firstMinReadyProcess: ListNode, ghost f: nat)
      requires nodes != [] && Linked(start, nodes, list) && stop == IndexOf(list, own)
      requires forall i | 1 <= i < |list| :: list[i].pid != SHELL_PID
      requires fgTaken && |list| == 1 && list[0].pid == SHELL_PID ==> stop == 0
      ensures f < |list| && f == Scan(Incumbent, list, fgTaken, 0, 0, stop) && firstMinReadyProcess == nodes[f]
    {
      firstMinReadyProcess, f := start, 0;
      ghost var j: nat := 0;
      var aux := start;
      assert LinkedAt(nodes, list, 0);
      while aux != null && aux.process.pid != own
        invariant j < |list| ==> LinkedAt(nodes, list, j)
        invariant f <= j <= stop && f < |list| && firstMinReadyProcess == nodes[f] && aux == NodeAt(nodes, j)
        invariant fgTaken && f + 1 == |list| && list[f].pid == SHELL_PID ==> j == stop
        invariant Scan(Incumbent, list, fgTaken, f, j, stop) == Scan(Incumbent, list, fgTaken, 0, 0, stop)
        modifies {}
        decreases |list| - j
      {
        assert LinkedAt(nodes, list, f);
        IncumbentStep(list, fgTaken, f, j, stop);
        if aux.process.pid == SHELL_PID && fgTaken {
          if firstMinReadyProcess.process.pid == SHELL_PID {
            firstMinReadyProcess, f := firstMinReadyProcess.next, f + 1;
          }
          aux := aux.next;
          j := j + 1;
          continue;
        }
        if firstMinReadyProcess.process.state != 1 && (!fgTaken || aux.process.pid != SHELL_PID) {
          firstMinReadyProcess, f := aux, j;
        }
        if aux.process.auxPriority < firstMinReadyProcess.process.auxPriority && firstMinReadyProcess.process.state == 1 {
          firstMinReadyProcess, f := aux, j;
        }
        aux := aux.next;
        j := j + 1;
      }
    }

    /** Lines 238-242: the prefix candidate, the current process standing in when that one is not
        ready; null when it is the shell under the flag. */
    method BestBefore() returns (firstMinReadyProcess: ListNode?, ghost f: nat)
      requires Shows() && WellFormed(State()) && NoNullRead(State()) && !current.Unstarted?
      ensures f < |list|
      ensures var g, own := PrefixScan(Incumbent, State()), PrefixEnd(State());
              f == if !Ready(list[g]) && current.Listed? && Ready(list[own]) then own else g
      ensures firstMinReadyProcess == if fgTaken && list[f].pid == SHELL_PID then null else nodes[f]
    {
      ShellOnlyAtHead(State());
      NextOfCurrent();
      firstMinReadyProcess, f := ScanBefore(currentProcess.process.pid, PrefixEnd(State()));
      assert LinkedAt(nodes, list, f) && (current.Listed? ==> LinkedAt(nodes, list, PrefixEnd(State())));
      if firstMinReadyProcess.process.state != 1 && currentProcess.process.state == 1 && currentProcess.process.pid != 0 {
        firstMinReadyProcess, f := currentProcess, PrefixEnd(State());
      }
      if fgTaken && firstMinReadyProcess.process.pid == 1 {
        firstMinReadyProcess := null;
      }
    }

    /** The node to run, or null for the dummy. */
    method Choose() returns (choice: ListNode?, ghost c: Choice)
      requires Shows() && WellFormed(State()) && NoNullRead(State()) && !current.Unstarted?
      ensures c == Decide(State(), PrefixScan(Incumbent, State()))
      ensures choice == match c case Idle => null case Run(k) => NodeAt(nodes, k)
      ensures c.Run? ==> c.index < |list|
    {
      ShellOnlyAtHead(State());
      NextOfCurrent();
      ghost var b := SuffixStart(State());
      ghost var n: nat, f: nat;
      var nextProcess: ListNode?, firstMinReadyProcess: ListNode?;
      nextProcess, n := ScanAfter(currentProcess.next, b);
      firstMinReadyProcess, f := BestBefore();
      assert LinkedAt(nodes, list, f) && (b < |list| ==> LinkedAt(nodes, list, n));
      if (nextProcess == null || nextProcess.process.state != 1) &&
         (firstMinReadyProcess == null || firstMinReadyProcess.process.state != 1) {
        choice, c := null, Idle;
      } else if nextProcess == null || nextProcess.process.state != 1 {
        choice, c := firstMinReadyProcess, Run(f);
      } else if firstMinReadyProcess == null || firstMinReadyProcess.process.state != 1 {
        choice, c := nextProcess, Run(n);
      } else if firstMinReadyProcess.process.auxPriority < nextProcess.process.auxPriority {
        choice, c := firstMinReadyProcess, Run(f);
      } else {
        choice, c := nextProcess, Run(n);
      }
    }

    method RunChoice(choice: ListNode?, ghost c: Choice)
      requires Shows() && !current.Unstarted? && (c.Run? ==> c.index < |list|)
      requires choice == match c case Idle => null case Run(k) => NodeAt(nodes, k)
      modifies this`list, this`current, this`currentProcess, nodes
      ensures Shows() && State() == Dispatch(old(State()), c)
    {
      if choice == null {
        currentProcess := dummy;
        current := Dummy;
        return;
      }
      assert LinkedAt(nodes, list, c.index);
      currentProcess := choice;
      current := Listed(choice.process.pid);
      SetProcess(choice, choice.process.(auxPriority := choice.process.priority), c.index);
    }

    method RunNext()
      requires Shows() && WellFormed(State()) && NoNullRead(State()) && !current.Unstarted?
      modifies this`list, this`current, this`currentProcess, this`priorityQuantum, nodes
      ensures Shows() && State() == Switch(old(State()))
    {
      AgedWellFormed(State());
      AgeStep();
      ghost var c: Choice;
      var choice: ListNode?;
      choice, c := Choose();
      RunChoice(choice, c);
    }

    /** One timer tick.  The slice counter `quantum` is always reset to QUANTUM - 1 == 0, so its
        early return is never taken. */
    method SwitchProcess()
      requires Shows() && WellFormed(State()) && NoNullRead(State())
      modifies this`list, this`current, this`currentProcess, this`priorityQuantum, this`firstProcess, nodes
      ensures Shows() && State() == Switch(old(State()))
      ensures WellFormed(State())
    {
      ghost var before := State();
      if firstProcess {
        assert LinkedAt(nodes, list, 0);
        firstProcess := false;
        currentProcess := start;
        current := Listed(start.process.pid);
      } else {
        RunNext();
      }
      SwitchWellFormed(before);
    }

    /** A timer tick on a sound system. */
    method TimerTick()
      requires Shows() && SystemInv(Whole()) && Allowed(Whole(), Tick)
      modifies this`list, this`current, this`currentProcess, this`priorityQuantum, this`firstProcess, nodes
      ensures Shows() && SystemInv(Whole()) && Whole() == Apply(old(Whole()), Tick)
    {
      TickKeeps(Whole());
      SwitchProcess();
    }

    // ---------------------------------------------------------------- nice and block

    /** getPCB, from the node at position `k` on. */
    method GetPCB(node: ListNode?, pid: nat, ghost k: nat) returns (found: ListNode?)
      requires Linked(start, nodes, list) && k <= |nodes| && node == NodeAt(nodes, k)
      requires forall i | 0 <= i < k :: list[i].pid != pid
      ensures found == NodeAt(nodes, IndexOf(list, pid))
      decreases |nodes| - k
    {
      if node == null {
        return null;
      }
      assert LinkedAt(nodes, list, k);
      if node.process.pid == pid {
        return node;
      }
      found := GetPCB(node.next, pid, k + 1);
    }

    /** Blocked becomes ready and ready becomes blocked; the yield that follows when the process
        blocks itself is a tick of its own. */
    method ChangeProcessState(pid: nat)
      requires Shows() && SystemInv(Whole())
      modifies this`list, nodes
      ensures Shows() && SystemInv(Whole())
      ensures Whole() == if pid <= 1 || pid !in Pids(old(list)) then old(Whole())
                         else
                           var s := old(list)[IndexOf(old(list), pid)].state;
                           Apply(old(Whole()), SetState(pid, if s == 1 then 0 else if s == 0 then 1 else s))
    {
      if pid <= 1 {
        return;
      }
      NotListed(list, pid);
      var pidPCB := GetPCB(start, pid, 0);
      if pidPCB == null {
        return;
      }
      ghost var before, i := Whole(), IndexOf(list, pid);
      ToggleState(pidPCB, i);
      StateToggled(before, pid, Whole());
    }

    method ToggleState(pidPCB: ListNode, ghost i: nat)
      requires Shows() && i < |nodes| && pidPCB == nodes[i]
      modifies this`list, nodes
      ensures Shows() && list == old(list)[i := old(list)[i].(state := Toggled(old(list)[i].state))]
    {
      assert LinkedAt(nodes, list, i);
      if pidPCB.process.state == 1 {
        SetProcess(pidPCB, pidPCB.process.(state := 0), i);
      } else if pidPCB.process.state == 0 {
        SetProcess(pidPCB, pidPCB.process.(state := 1), i);
      }
    }

    // ---------------------------------------------------------------- create, kill and exit

    /** loadProcess on the list from a node on, whose nodes are `seg`. */
    static method LoadProcess(node: ListNode, process: Process, ghost seg: seq<ListNode>, ghost l: seq<Process>)
      returns (r: ListNode, ghost newNode: ListNode, ghost k: nat)
      requires seg != [] && Linked(node, seg, l)
      modifies seg
      ensures r == node && fresh(newNode) && k == FirstLessUrgent(l, process.priority)
      ensures Linked(r, seg[..k] + [newNode] + seg[k..], InsertAt(l, k, process))
      decreases |seg|
    {
      TailLinked(node, seg, l);
      if |seg| > 1 { assert LinkedAt(seg, l, 1); }
      if node.next != null && process.priority >= node.next.process.priority {
        var n;
        n, newNode, k := LoadProcess(node.next, process, seg[1..], l[1..]);
        node.next := n;
        FrontAdded(node, seg, l, k, newNode, process);
        k := k + 1;
        r := node;
      } else {
        newNode := AddAfter(node, process, seg, l);
        r, k := node, 1;
      }
    }

    static method AddAfter(node: ListNode, process: Process, ghost seg: seq<ListNode>, ghost l: seq<Process>)
      returns (newNode: ListNode)
      requires seg != [] && Linked(node, seg, l)
      modifies node`next
      ensures fresh(newNode) && Linked(node, seg[..1] + [newNode] + seg[1..], InsertAt(l, 1, process))
    {
      TailLinked(node, seg, l);
      newNode := new ListNode(process, node.next);
      node.next := newNode;
      FrontLinked(newNode, seg[1..], l[1..]);
      FrontLinked(node, [newNode] + seg[1..], [process] + l[1..]);
      assert [node] + ([newNode] + seg[1..]) == seg[..1] + [newNode] + seg[1..];
      assert [l[0]] + ([process] + l[1..]) == InsertAt(l, 1, process);
    }

    /** deleteProcess on the list from a node on, whose nodes are `seg`. */
    static method DeleteProcess(node: ListNode?, pid: nat, ghost seg: seq<ListNode>, ghost l: seq<Process>)
      returns (r: ListNode?, ghost i: nat)
      requires Linked(node, seg, l)
      modifies seg
      ensures i == IndexOf(l, pid) && CutOut(r, seg, l, i)
      decreases |seg|
    {
      if node == null {
        return null, 0;
      }
      TailLinked(node, seg, l);
      if node.process.pid == pid {
        node.process := node.process.(state := 2);
        assert seg[..0] + seg[1..] == seg[1..] && RemoveAt(l, 0) == l[1..];
        return node.next, 0;
      }
      var n;
      n, i := DeleteProcess(node.next, pid, seg[1..], l[1..]);
      node.next := n;
      FrontCutOut(node, seg, l, i);
      i := i + 1;
      r := node;
    }

    method CreateProcess(priority: nat) returns (newPid: nat)
      requires Shows() && SystemInv(Whole()) && Allowed(Whole(), Create(priority))
      modifies this`start, this`nodes, this`list, this`fgTaken, this`pid, nodes
      ensures Shows() && SystemInv(Whole()) && Whole() == Apply(old(Whole()), Create(priority))
      ensures newPid == old(pid) && newPid !in Pids(old(list)) && newPid in Pids(list)
    {
      ghost var before := Whole();
      if priority == 1 && pid > 1 {
        fgTaken := true;
      }
      newPid := pid;
      pid := (pid + 1) % PID_LIMIT;
      LoadIsInsert(list, Process(newPid, 1, priority, priority));
      AddNode(Process(newPid, 1, priority, priority));
      Created(before, priority, Whole());
    }

    method AddNode(process: Process)
      requires Shows() && !current.Gone?
      modifies this`start, this`nodes, this`list, nodes
      ensures Shows() && list == InsertAt(old(list), FirstLessUrgent(old(list), process.priority), process)
    {
      ghost var i := PositionOfCurrent();
      ghost var was, l, newNode: ListNode, k: nat := nodes, list, dummy, 0;
      start, newNode, k := LoadProcess(start, process, nodes, list);
      nodes := nodes[..k] + [newNode] + nodes[k..];
      list := InsertAt(list, k, process);
      if current.Listed? {
        ShiftedNode(was, l, k, newNode, process, i);
      }
    }

    /** The node at `c` is still there, with its process. */
    lemma ShiftedNode(was: seq<ListNode>, l: seq<Process>, k: nat, newNode: ListNode, process: Process, c: nat)
      requires k <= |was| == |l| && c < |was|
      requires nodes == was[..k] + [newNode] + was[k..] && list == InsertAt(l, k, process)
      requires Linked(start, nodes, list)
      ensures was[c] in nodes && was[c].process == l[c]
    {
      var j := if c < k then c else c + 1;
      assert nodes[j] == was[c] && list[j] == l[c];
      assert LinkedAt(nodes, list, j);
    }

    method KillPid(pid: nat)
      requires Shows() && SystemInv(Whole()) && Allowed(Whole(), Kill(pid))
      modifies this`start, this`nodes, this`list, this`current, nodes
      ensures Shows() && SystemInv(Whole()) && Whole() == Apply(old(Whole()), Kill(pid))
      ensures pid > 1 ==> pid !in Pids(list)
    {
      ghost var before := Whole();
      DeleteIsRemove(list, pid);
      if pid > 1 {
        DropNode(pid);
      }
      Killed(before, pid, Whole());
    }

    /** Unlink the node with this pid; the current pointer keeps pointing at it if it was current. */
    method DropNode(pid: nat)
      requires Shows() && ListInv(list) && pid > 1 && !current.Gone?
      modifies this`start, this`nodes, this`list, this`current, nodes
      ensures Shows()
      ensures var i := IndexOf(old(list), pid);
              && list == (if i < |old(list)| then RemoveAt(old(list), i) else old(list))
              && current == (if old(current) == Listed(pid) then Gone(pid, i) else old(current))
    {
      ghost var c := PositionOfCurrent();
      ghost var i: nat := 0;
      start, i := DeleteProcess(start, pid, nodes, list);
      if i < |list| {
        ForgetNode(pid, i, c);
      } else if current.Listed? {
        assert LinkedAt(nodes, list, c);
      }
    }

    /** The node at `i` leaves the view of the list it has been cut out of. */
    ghost method ForgetNode(pid: nat, i: nat, c: nat)
      requires ListInv(list) && 0 < i == IndexOf(list, pid) < |list| && CutOut(start, nodes, list, i)
      requires forall j: nat, k: nat | j < |nodes| && k < |nodes| :: Different(nodes, j, k)
      requires !current.Gone? && dummy !in nodes && dummy.next == null && dummy.process.pid == 0
      requires (firstProcess <==> current.Unstarted?) && (current == Dummy ==> currentProcess == dummy)
      requires current.Listed? ==> c < |nodes| && nodes[c] == currentProcess && list[c].pid == current.pid
      modifies this`nodes, this`list, this`current
      ensures Shows() && list == RemoveAt(old(list), i)
      ensures current == if old(current) == Listed(pid) then Gone(pid, i) else old(current)
    {
      var was, l := nodes, list;
      nodes := was[..i] + was[i + 1..];
      list := RemoveAt(l, i);
      if current == Listed(pid) {
        DroppedNode(was, i);
        current := Gone(pid, i);
      } else if current.Listed? {
        OtherNode(was, l, i, c);
      }
    }

    /** The node at `c` is still there, with its process. */
    lemma OtherNode(was: seq<ListNode>, l: seq<Process>, i: nat, c: nat)
      requires i < |was| == |l| && c < |was| && c != i
      requires nodes == was[..i] + was[i + 1..] && list == RemoveAt(l, i) && Linked(start, nodes, list)
      ensures was[c] in nodes && was[c].process == l[c]
    {
      var k := if c < i then c else c - 1;
      assert nodes[k] == was[c] && list[k] == l[c];
      assert LinkedAt(nodes, list, k);
    }

    ghost method PositionOfCurrent() returns (c: nat)
      requires Shows()
      ensures current.Listed? ==> c < |nodes| && nodes[c] == currentProcess && list[c].pid == current.pid
    {
      c := 0;
      if current.Listed? {
        c :| c < |nodes| && nodes[c] == currentProcess;
        assert LinkedAt(nodes, list, c);
      }
    }

    method ExitCurrentProcess()
      requires Shows() && SystemInv(Whole()) && Allowed(Whole(), ExitCurrent)
      modifies this`start, this`nodes, this`list, this`current, this`fgTaken, nodes
      ensures Shows() && SystemInv(Whole()) && Whole() == Apply(old(Whole()), ExitCurrent)
    {
      ghost var before := Whole();
      LowerFlag();
      DropNode(currentProcess.process.pid);
      Exited(before, Whole());
    }

    /** Lines 280-281. */
    method LowerFlag()
      requires Shows() && WellFormed(State()) && current.Listed?
      modifies this`fgTaken
      ensures Shows() && currentProcess != null && currentProcess.process.pid == current.pid
      ensures fgTaken == (old(fgTaken) && list[IndexOf(list, current.pid)].priority != 1)
    {
      NextOfCurrent();
      assert LinkedAt(nodes, list, PrefixEnd(State()));
      if currentProcess.process.priority == 1 {
        fgTaken := false;
      }
    }

    // ---------------------------------------------------------------- nice

    method ChangeProcessPriority(pid: nat, newPriority: nat)
      requires Shows() && SystemInv(Whole()) && Allowed(Whole(), Nice(pid, newPriority))
      modifies this`nodes, this`list, nodes
      ensures Shows() && SystemInv(Whole()) && Whole() == Apply(old(Whole()), Nice(pid, newPriority))
    {
      NiceKeeps(Whole(), pid, newPriority);
      Renice(pid, newPriority);
    }

    method Renice(pid: nat, newPriority: nat)
      requires Shows() && ListInv(list) && !current.Gone?
      modifies this`nodes, this`list, nodes
      ensures Shows() && list == ChangePriority(old(list), pid, newPriority)
    {
      if pid <= 1 || newPriority <= 1 || newPriority > 10 {
        return;
      }
      var pidPCB := GetPCB(start, pid, 0);
      if pidPCB == null {
        return;
      }
      ghost var before, i := list, IndexOf(list, pid);
      assert LinkedAt(nodes, list, i);
      SetProcess(pidPCB, pidPCB.process.(priority := newPriority, auxPriority := newPriority), i);
      NicedInPlace(before, list, pid, newPriority);
      MoveNode(pid, newPriority);
    }

    /** Setting the two priorities first does not change where the process goes. */
    static lemma NicedInPlace(before: seq<Process>, l: seq<Process>, pid: nat, priority: nat)
      requires ListInv(before) && pid > 1 && 1 < priority <= 10 && IndexOf(before, pid) < |before|
      requires var i := IndexOf(before, pid);
               l == before[i := before[i].(priority := priority, auxPriority := priority)]
      ensures 1 <= IndexOf(l, pid) < |l|
      ensures var rest := RemoveAt(l, IndexOf(l, pid));
              InsertAt(rest, FirstLessUrgent(rest, priority), l[IndexOf(l, pid)]) == ChangePriority(before, pid, priority)
    {
      var i := IndexOf(before, pid);
      SamePids(before, l, pid);
      assert RemoveAt(l, i) == RemoveAt(before, i);
    }

    /** Lines 341-354: take the node out and put it behind all that are at least as urgent. */
    method MoveNode(pid: nat, newPriority: nat)
      requires Shows() && !current.Gone? && 1 <= IndexOf(list, pid) < |list|
      modifies this`nodes, this`list, nodes
      ensures Shows()
      ensures var i := IndexOf(old(list), pid);
              var rest := RemoveAt(old(list), i);
              list == InsertAt(rest, FirstLessUrgent(rest, newPriority), old(list)[i])
    {
      ghost var c := PositionOfCurrent();
      ghost var was, l := nodes, list;
      ghost var i, k := Relocate(pid, newPriority);
      NobodyNew(was, i, k);
      if current.Listed? {
        MovedNode(was, l, i, k, c);
      }
    }

    method Relocate(pid: nat, newPriority: nat) returns (ghost i: nat, ghost k: nat)
      requires Linked(start, nodes, list) && 1 <= IndexOf(list, pid) < |list|
      modifies this`nodes, this`list, nodes
      ensures Linked(start, nodes, list) && i == IndexOf(old(list), pid)
      ensures var rest := RemoveAt(old(list), i);
              k == FirstLessUrgent(rest, newPriority) && list == InsertAt(rest, k, old(list)[i])
      ensures var rest := old(nodes)[..i] + old(nodes)[i + 1..]; nodes == rest[..k] + [old(nodes)[i]] + rest[k..]
    {
      i := IndexOf(list, pid);
      var headPID := BeforePid(pid);
      DroppedNode(nodes, i);
      var process := UnlinkAfter(headPID, i);
      headPID, k := BeforeLessUrgent(newPriority);
      LinkAfter(headPID, process, k);
    }

    /** The node before the one with this pid. */
    method BeforePid(pid: nat) returns (headPID: ListNode)
      requires Linked(start, nodes, list) && 1 <= IndexOf(list, pid) < |list|
      ensures headPID == nodes[IndexOf(list, pid) - 1]
    {
      headPID := start;
      ghost var j: nat, i := 0, IndexOf(list, pid);
      assert LinkedAt(nodes, list, 0) && LinkedAt(nodes, list, 1);
      while headPID.next.process.pid != pid
        invariant j < i && headPID == nodes[j] && LinkedAt(nodes, list, j) && LinkedAt(nodes, list, j + 1)
        modifies {}
        decreases i - j
      {
        headPID := headPID.next;
        j := j + 1;
        assert LinkedAt(nodes, list, j + 1);
      }
    }

    /** The last node from the head on before a less urgent one. */
    method BeforeLessUrgent(newPriority: nat) returns (headPID: ListNode, ghost k: nat)
      requires nodes != [] && Linked(start, nodes, list)
      ensures k == FirstLessUrgent(list, newPriority) && headPID == nodes[k - 1]
    {
      headPID, k := start, 1;
      assert LinkedAt(nodes, list, 0) && (|list| > 1 ==> LinkedAt(nodes, list, 1));
      while headPID.next != null && newPriority >= headPID.next.process.priority
        invariant 1 <= k <= |list| && headPID == nodes[k - 1] && LinkedAt(nodes, list, k - 1)
        invariant k < |list| ==> LinkedAt(nodes, list, k)
        invariant forall j | 1 <= j < k :: list[j].priority <= newPriority
        modifies {}
        decreases |list| - k
      {
        headPID := headPID.next;
        k := k + 1;
        assert k < |list| ==> LinkedAt(nodes, list, k);
      }
      FirstLessUrgentUnique(list, newPriority, k);
    }

    method UnlinkAfter(headPID: ListNode, ghost i: nat) returns (process: ListNode)
      requires Linked(start, nodes, list) && 1 <= i < |nodes| && headPID == nodes[i - 1]
      modifies headPID`next, this`nodes, this`list
      ensures Linked(start, nodes, list) && nodes == old(nodes)[..i] + old(nodes)[i + 1..] && list == RemoveAt(old(list), i)
      ensures process == old(nodes)[i] && process.process == old(list)[i]
    {
      ghost var was, l := nodes, list;
      assert LinkedAt(was, l, i - 1) && LinkedAt(was, l, i);
      process := headPID.next;
      headPID.next := process.next;
      nodes := was[..i] + was[i + 1..];
      list := RemoveAt(l, i);
      forall j: nat | j < |was| && j != i - 1
        ensures LinkedAt(was, l, j)
      {
        assert old(LinkedAt(was, l, j)) && Different(was, i - 1, j);
      }
      Unlinked(start, was, l, i);
    }

    method LinkAfter(headPID: ListNode, process: ListNode, ghost k: nat)
      requires Linked(start, nodes, list) && 1 <= k <= |nodes| && headPID == nodes[k - 1] && process !in nodes
      modifies headPID`next, process`next, this`nodes, this`list
      ensures Linked(start, nodes, list) && nodes == old(nodes)[..k] + [process] + old(nodes)[k..]
      ensures list == InsertAt(old(list), k, process.process)
    {
      ghost var was, l := nodes, list;
      assert LinkedAt(was, l, k - 1);
      var aux := headPID.next;
      headPID.next := process;
      process.next := aux;
      nodes := was[..k] + [process] + was[k..];
      list := InsertAt(l, k, process.process);
      forall j: nat | j < |was| && j != k - 1
        ensures LinkedAt(was, l, j)
      {
        assert old(LinkedAt(was, l, j)) && Different(was, k - 1, j) && was[j] != process;
      }
      Relinked(start, was, l, k, process);
    }

    /** The current node keeps its process when another one, or it itself, is moved. */
    lemma MovedNode(was: seq<ListNode>, l: seq<Process>, i: nat, k: nat, c: nat)
      requires i < |was| == |l| && c < |was| && 1 <= k < |was|
      requires var rest := was[..i] + was[i + 1..]; nodes == rest[..k] + [was[i]] + rest[k..]
      requires list == InsertAt(RemoveAt(l, i), k, l[i]) && Linked(start, nodes, list)
      ensures was[c] in nodes && was[c].process == l[c]
    {
      var d := if c < i then c else c - 1;
      var j := if c == i then k else if d < k then d else d + 1;
      assert nodes[j] == was[c] && list[j] == l[c];
      assert LinkedAt(nodes, list, j);
    }
  }

  function AfterCandidate(l: seq<Process>, n: nat, j: nat): nat
    requires n < |l| && j < |l|
  {
    var f := if !Ready(l[n]) then j else n;
    if l[j].auxPriority < l[f].auxPriority && Ready(l[j]) then j else f
  }

  lemma CandidateStep(l: seq<Process>, n: nat, j: nat)
    requires n <= j < |l| && forall i | 1 <= i < |l| :: l[i].pid != SHELL_PID
    ensures Scan(Candidate, l, false, n, j, |l|) == Scan(Candidate, l, false, AfterCandidate(l, n, j), j + 1, |l|)
  {
  }

  function AfterIncumbent(l: seq<Process>, fg: bool, n: nat, j: nat): nat
    requires n < |l| && j < |l|
  {
    if l[j].pid == SHELL_PID && fg then if l[n].pid == SHELL_PID then n + 1 else n
    else
      var f := if !Ready(l[n]) then j else n;
      if l[j].auxPriority < l[f].auxPriority && Ready(l[f]) then j else f
  }

  lemma IncumbentStep(l: seq<Process>, fg: bool, n: nat, j: nat, hi: nat)
    requires n <= j < hi <= |l| && forall i | 1 <= i < |l| :: l[i].pid != SHELL_PID
    requires !(fg && n + 1 == |l| && l[n].pid == SHELL_PID)
    ensures var k := AfterIncumbent(l, fg, n, j);
            && k < |l| && k <= j + 1 && !(fg && k + 1 == |l| && l[k].pid == SHELL_PID && j + 1 < hi)
            && Scan(Incumbent, l, fg, n, j, hi) == Scan(Incumbent, l, fg, k, j + 1, hi)
  {
  }

  function Toggled(state: nat): nat {
    if state == 1 then 0 else if state == 0 then 1 else state
  }

  lemma StateToggled(y: System, pid: nat, z: System)
    requires SystemInv(y) && IndexOf(y.sched.list, pid) < |y.sched.list|
    requires var l, i := y.sched.list, IndexOf(y.sched.list, pid);
             z == y.(sched := y.sched.(list := l[i := l[i].(state := Toggled(l[i].state))]))
    ensures SystemInv(z)
    ensures z == Apply(y, SetState(pid, Toggled(y.sched.list[IndexOf(y.sched.list, pid)].state)))
  {
    SetStateKeeps(y, pid, Toggled(y.sched.list[IndexOf(y.sched.list, pid)].state));
  }

  function Pids(l: seq<Process>): set<nat> {
    set i | 0 <= i < |l| :: l[i].pid
  }

  lemma NotListed(l: seq<Process>, pid: nat)
    ensures pid !in Pids(l) <==> IndexOf(l, pid) == |l|
  {
    if IndexOf(l, pid) < |l| { assert l[IndexOf(l, pid)].pid == pid; }
  }

  lemma Created(y: System, priority: nat, z: System)
    requires SystemInv(y) && Allowed(y, Create(priority)) && z == Apply(y, Create(priority))
    ensures SystemInv(z) && y.nextPid !in Pids(y.sched.list) && y.nextPid in Pids(z.sched.list)
  {
    CreateKeeps(y, priority);
    var l, p := y.sched.list, Process(y.nextPid, 1, priority, priority);
    LoadIsInsert(l, p);
    assert InsertAt(l, FirstLessUrgent(l, priority), p)[FirstLessUrgent(l, priority)] == p;
  }

  lemma Killed(y: System, pid: nat, z: System)
    requires SystemInv(y) && Allowed(y, Kill(pid)) && z == Apply(y, Kill(pid))
    ensures SystemInv(z) && (pid > 1 ==> pid !in Pids(z.sched.list))
  {
    KillKeeps(y, pid);
    if pid > 1 { DeletedUnlisted(y.sched.list, pid); }
  }

  lemma Exited(y: System, z: System)
    requires SystemInv(y) && Allowed(y, ExitCurrent)
    requires var l, p := y.sched.list, y.sched.cur.pid;
             var i := IndexOf(l, p);
             && i < |l| && z.nextPid == y.nextPid
             && z.sched == Sched(RemoveAt(l, i), Gone(p, i), y.sched.fgTaken && l[i].priority != 1, y.sched.priorityQuantum)
    ensures SystemInv(z) && z == Apply(y, ExitCurrent)
  {
    DeleteIsRemove(y.sched.list, y.sched.cur.pid);
    ExitKeeps(y);
  }

  lemma DeletedUnlisted(l: seq<Process>, pid: nat)
    requires ListInv(l) && pid > 1
    ensures pid !in Pids(DeleteProcess(l, pid))
  {
    DeleteIsRemove(l, pid);
    var i := IndexOf(l, pid);
    if i < |l| { RemoveKeepsInv(l, i); }
    NotListed(DeleteProcess(l, pid), pid);
  }

  lemma FirstLessUrgentUnique(l: seq<Process>, priority: nat, k: nat)
    requires l != [] && 1 <= k <= |l|
    requires forall i | 1 <= i < k :: l[i].priority <= priority
    requires k < |l| ==> l[k].priority > priority
    ensures FirstLessUrgent(l, priority) == k
  {
  }
}
