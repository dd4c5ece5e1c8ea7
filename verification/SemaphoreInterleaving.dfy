// The semaphore at the granularity the code really has (Kernel/utils/semaphore.c:72-106).
//
// runScheduler enables interrupts (Kernel/asm/libasm.asm:72-74), so from the wakeup on a waiter
// runs preemptibly and without the spin lock.  Here its continuation is two steps: the test of
// line 75, and then either the decrement of lines 84-86 or the new block of lines 76-81.  First
// waits and posts run with interrupts off and stay single steps.
module SemaphoreInterleaving {
  import opened PidQueue
  import Calls = SemaphoreSpec
  import CallTheorems = SemaphoreTheorems

  /** `passed` have found the value non-zero and not yet taken; `falling` have found it zero and
      not yet queued again.  The value is an int and can go below zero. */
  datatype World = World(
    value: int,
    queue: seq<Pid>,
    locked: bool,
    woken: set<Pid>,
    passed: set<Pid>,
    falling: set<Pid>,
    holders: set<Pid>)

  datatype Step = Wait(p: Pid) | Recheck(p: Pid) | Take(p: Pid) | Enqueue(p: Pid) | Post(p: Pid)

  function Initial(value: nat): World {
    World(value, [], false, {}, {}, {}, {})
  }

  predicate Elsewhere(w: World, p: Pid) {
    p !in w.queue && p !in w.woken && p !in w.passed && p !in w.falling
  }

  /** As for whole calls, clients wait only when they do not hold and post only what they hold. */
  predicate Enabled(w: World, s: Step) {
    match s
    case Wait(p) => !w.locked && Elsewhere(w, p) && p !in w.holders
    case Recheck(p) => p in w.woken
    case Take(p) => p in w.passed
    case Enqueue(p) => p in w.falling
    case Post(p) => !w.locked && Elsewhere(w, p) && p in w.holders
  }

  function Next(w: World, s: Step): World {
    match s
    case Wait(p) =>
      if w.value != 0 then w.(value := w.value - 1, holders := w.holders + {p})
      else if |w.queue| == Calls.PROCESS_LIMIT then w.(locked := true)
      else w.(queue := w.queue + [p])
    case Recheck(p) =>
      if w.value != 0 then w.(woken := w.woken - {p}, passed := w.passed + {p})
      else w.(woken := w.woken - {p}, falling := w.falling + {p})
    case Take(p) =>
      w.(value := w.value - 1, locked := false, passed := w.passed - {p}, holders := w.holders + {p})
    case Enqueue(p) =>
      if |w.queue| == Calls.PROCESS_LIMIT then w.(falling := w.falling - {p})
      else w.(queue := w.queue + [p], locked := false, falling := w.falling - {p})
    case Post(p) =>
      var v := w.(value := w.value + 1, holders := w.holders - {p});
      if w.queue == [] then v else v.(queue := w.queue[1..], woken := w.woken + {w.queue[0]})
  }

  predicate AllEnabled(w: World, steps: seq<Step>)
    decreases |steps|
  {
    steps == [] || (Enabled(w, steps[0]) && AllEnabled(Next(w, steps[0]), steps[1..]))
  }

  function Run(w: World, steps: seq<Step>): World
    decreases |steps|
  {
    if steps == [] then w else Run(Next(w, steps[0]), steps[1..])
  }

  // ---------------------------------------------------------------- what always holds

  /** Everybody is in one place, and the value is what was put in less what is held. */
  predicate Ledger(w: World, initial: nat) {
    && DistinctPids(w.queue)
    && (forall p | p in w.queue :: p !in w.woken && p !in w.passed && p !in w.falling)
    && w.woken !! w.passed && w.woken !! w.falling && w.passed !! w.falling
    && (forall p | p in w.holders :: Elsewhere(w, p))
    && w.value + |w.holders| == initial
  }

  lemma LedgerKept(w: World, s: Step, initial: nat)
    requires Ledger(w, initial) && Enabled(w, s)
    ensures Ledger(Next(w, s), initial)
  {
    match s
    case Wait(p) => WaitLedger(w, p, initial);
    case Recheck(p) => RecheckLedger(w, p, initial);
    case Take(p) => TakeLedger(w, p, initial);
    case Enqueue(p) => EnqueueLedger(w, p, initial);
    case Post(p) => PostLedger(w, p, initial);
  }

  lemma RecheckLedger(w: World, p: Pid, initial: nat)
    requires Ledger(w, initial) && Enabled(w, Recheck(p))
    ensures Ledger(Next(w, Recheck(p)), initial)
  {
  }

  lemma TakeLedger(w: World, p: Pid, initial: nat)
    requires Ledger(w, initial) && Enabled(w, Take(p))
    ensures Ledger(Next(w, Take(p)), initial)
  {
    assert |w.holders + {p}| == |w.holders| + 1;
  }

  lemma EnqueueLedger(w: World, p: Pid, initial: nat)
    requires Ledger(w, initial) && Enabled(w, Enqueue(p))
    ensures Ledger(Next(w, Enqueue(p)), initial)
  {
  }

  lemma WaitLedger(w: World, p: Pid, initial: nat)
    requires Ledger(w, initial) && Enabled(w, Wait(p))
    ensures Ledger(Next(w, Wait(p)), initial)
  {
    if w.value != 0 { assert |w.holders + {p}| == |w.holders| + 1; }
  }

  lemma PostLedger(w: World, p: Pid, initial: nat)
    requires Ledger(w, initial) && Enabled(w, Post(p))
    ensures Ledger(Next(w, Post(p)), initial)
  {
    assert |w.holders - {p}| == |w.holders| - 1;
    if w.queue != [] {
      assert w.queue[0] in w.queue;
      assert w.queue == [w.queue[0]] + w.queue[1..];
    }
  }

  // ---------------------------------------------------------------- exclusion

  /** Never more holders than the start value. */
  predicate Exclusive(w: World, initial: nat) {
    |w.holders| <= initial
  }

  predicate AlwaysExclusive(w: World, steps: seq<Step>, initial: nat)
    decreases |steps|
  {
    Exclusive(w, initial) && (steps == [] || AlwaysExclusive(Next(w, steps[0]), steps[1..], initial))
  }

  /** Whoever takes finds something to take. */
  predicate TakesCovered(w: World, steps: seq<Step>)
    decreases |steps|
  {
    steps == [] || ((steps[0].Take? ==> w.value > 0) && TakesCovered(Next(w, steps[0]), steps[1..]))
  }

  lemma StepExclusiveExactly(w: World, s: Step, initial: nat)
    requires Ledger(w, initial) && Enabled(w, s) && Exclusive(w, initial)
    ensures Exclusive(Next(w, s), initial) <==> (s.Take? ==> w.value > 0)
  {
    LedgerKept(w, s, initial);
  }

  lemma {:induction false} ExclusiveAlongRun(w: World, steps: seq<Step>, initial: nat)
    requires Ledger(w, initial) && Exclusive(w, initial) && AllEnabled(w, steps)
    ensures AlwaysExclusive(w, steps, initial) <==> TakesCovered(w, steps)
    decreases |steps|
  {
    if steps == [] {
    } else {
      var v := Next(w, steps[0]);
      StepExclusiveExactly(w, steps[0], initial);
      LedgerKept(w, steps[0], initial);
      if Exclusive(v, initial) {
        ExclusiveAlongRun(v, steps[1..], initial);
      } else {
        assert !AlwaysExclusive(v, steps[1..], initial);
      }
    }
  }

  /** On any run there are never more holders than the start value if and only if every woken
      process that goes on to decrement still finds the value above zero. */
  lemma ExclusionExactly(initial: nat, steps: seq<Step>)
    requires AllEnabled(Initial(initial), steps)
    ensures AlwaysExclusive(Initial(initial), steps, initial) <==> TakesCovered(Initial(initial), steps)
  {
    ExclusiveAlongRun(Initial(initial), steps, initial);
  }

  predicate Grants(w: World, s: Step) {
    (s.Wait? && w.value != 0) || s.Take?
  }

  /** Nobody is granted the semaphore while another process stands between its test and its decrement. */
  predicate NoGrantBetween(w: World, steps: seq<Step>)
    decreases |steps|
  {
    steps == [] ||
    ((Grants(w, steps[0]) ==> w.passed <= {steps[0].p}) && NoGrantBetween(Next(w, steps[0]), steps[1..]))
  }

  lemma {:induction false} UndisturbedIsCovered(w: World, steps: seq<Step>, initial: nat)
    requires Ledger(w, initial) && w.value >= 0 && (w.passed != {} ==> w.value > 0)
    requires AllEnabled(w, steps) && NoGrantBetween(w, steps)
    ensures TakesCovered(w, steps)
    decreases |steps|
  {
    if steps == [] {
    } else {
      var s := steps[0];
      LedgerKept(w, s, initial);
      if s.Wait? && w.value != 0 { assert s.p !in w.passed && w.passed == {}; }
      if s.Take? { assert w.passed == {s.p}; }
      UndisturbedIsCovered(Next(w, s), steps[1..], initial);
    }
  }

  /** In particular exclusion survives when no grant falls between a passed test and its decrement. */
  lemma UndisturbedExclusion(initial: nat, steps: seq<Step>)
    requires AllEnabled(Initial(initial), steps) && NoGrantBetween(Initial(initial), steps)
    ensures AlwaysExclusive(Initial(initial), steps, initial)
  {
    UndisturbedIsCovered(Initial(initial), steps, initial);
    ExclusionExactly(initial, steps);
  }

  // ---------------------------------------------------------------- lost wakeups

  /** While anyone is queued, at least `value` processes are on their way to take it. */
  predicate Awake(w: World) {
    w.queue != [] ==> |w.woken| + |w.passed| >= w.value
  }

  predicate AlwaysAwake(w: World, steps: seq<Step>)
    decreases |steps|
  {
    Awake(w) && (steps == [] || AlwaysAwake(Next(w, steps[0]), steps[1..]))
  }

  /** Nobody goes back to the queue while the value exceeds those on their way to it. */
  predicate BlocksJustified(w: World, steps: seq<Step>)
    decreases |steps|
  {
    || steps == []
    || (BlockJustified(w, steps[0]) && BlocksJustified(Next(w, steps[0]), steps[1..]))
  }

  predicate BlockJustified(w: World, s: Step) {
    s.Enqueue? && |w.queue| < Calls.PROCESS_LIMIT ==> |w.woken| + |w.passed| >= w.value
  }

  lemma StepAwakeExactly(w: World, s: Step, initial: nat)
    requires Ledger(w, initial) && Enabled(w, s) && Awake(w) && |w.queue| <= Calls.PROCESS_LIMIT
    ensures Awake(Next(w, s)) <==> BlockJustified(w, s)
    ensures |Next(w, s).queue| <= Calls.PROCESS_LIMIT
  {
    match s
    case Wait(p) =>
    case Recheck(p) => RecheckAwake(w, p);
    case Take(p) => TakeAwake(w, p);
    case Enqueue(p) =>
    case Post(p) => PostAwake(w, p, initial);
  }

  lemma TakeAwake(w: World, p: Pid)
    requires p in w.passed && Awake(w)
    ensures Awake(Next(w, Take(p)))
  {
    assert |w.passed - {p}| == |w.passed| - 1;
  }

  lemma RecheckAwake(w: World, p: Pid)
    requires p in w.woken && p !in w.passed && Awake(w)
    ensures Awake(Next(w, Recheck(p)))
  {
    assert |w.woken - {p}| == |w.woken| - 1;
    if w.value != 0 { assert |w.passed + {p}| == |w.passed| + 1; }
  }

  lemma PostAwake(w: World, p: Pid, initial: nat)
    requires Ledger(w, initial) && Awake(w)
    ensures Awake(Next(w, Post(p)))
  {
    if w.queue != [] {
      assert w.queue[0] in w.queue;
      assert |w.woken + {w.queue[0]}| == |w.woken| + 1;
    }
  }

  lemma {:induction false} AwakeAlongRun(w: World, steps: seq<Step>, initial: nat)
    requires Ledger(w, initial) && Awake(w) && |w.queue| <= Calls.PROCESS_LIMIT && AllEnabled(w, steps)
    ensures AlwaysAwake(w, steps) <==> BlocksJustified(w, steps)
    decreases |steps|
  {
    if steps == [] {
    } else {
      var v := Next(w, steps[0]);
      StepAwakeExactly(w, steps[0], initial);
      LedgerKept(w, steps[0], initial);
      if Awake(v) {
        AwakeAlongRun(v, steps[1..], initial);
      } else {
        assert !AlwaysAwake(v, steps[1..]);
      }
    }
  }

  /** On any run no wakeup is ever lost if and only if nobody queues again while the value exceeds
      the processes already on their way to take it. */
  lemma WakeupsExactly(initial: nat, steps: seq<Step>)
    requires AllEnabled(Initial(initial), steps)
    ensures AlwaysAwake(Initial(initial), steps) <==> BlocksJustified(Initial(initial), steps)
  {
    AwakeAlongRun(Initial(initial), steps, initial);
  }

  /** Nobody posts while a process stands between its failed test and its place in the queue. */
  predicate NoPostBetween(w: World, steps: seq<Step>)
    decreases |steps|
  {
    steps == [] || ((steps[0].Post? ==> w.falling == {}) && NoPostBetween(Next(w, steps[0]), steps[1..]))
  }

  lemma {:induction false} UndisturbedIsJustified(w: World, steps: seq<Step>, initial: nat)
    requires Ledger(w, initial) && (w.falling != {} ==> w.value <= 0)
    requires AllEnabled(w, steps) && NoPostBetween(w, steps)
    ensures BlocksJustified(w, steps)
    decreases |steps|
  {
    if steps == [] {
    } else {
      LedgerKept(w, steps[0], initial);
      UndisturbedIsJustified(Next(w, steps[0]), steps[1..], initial);
    }
  }

  /** In particular no wakeup is lost when no post falls between a failed test and the queueing that
      follows it. */
  lemma UndisturbedWakeups(initial: nat, steps: seq<Step>)
    requires AllEnabled(Initial(initial), steps) && NoPostBetween(Initial(initial), steps)
    ensures AlwaysAwake(Initial(initial), steps)
  {
    UndisturbedIsJustified(Initial(initial), steps, initial);
    WakeupsExactly(initial, steps);
  }

  // ---------------------------------------------------------------- runs on which each fails

  /** Taking one step first. */
  lemma Chain(w: World, s: Step, rest: seq<Step>)
    ensures Run(w, [s] + rest) == Run(Next(w, s), rest)
    ensures AllEnabled(w, [s] + rest) <==> Enabled(w, s) && AllEnabled(Next(w, s), rest)
  {
    assert ([s] + rest)[1..] == rest;
  }

  const TWO_HOLDERS: seq<Step> := [Wait(1), Wait(2), Post(1)] + [Recheck(2), Wait(3), Take(2)]

  /** The first process holds, the second queues, the first posts. */
  lemma OneIsWoken(rest: seq<Step>)
    ensures var w := World(1, [], false, {2}, {}, {}, {});
            var steps := [Wait(1), Wait(2), Post(1)] + rest;
            && (AllEnabled(Initial(1), steps) <==> AllEnabled(w, rest))
            && Run(Initial(1), steps) == Run(w, rest)
  {
    var w1 := World(0, [], false, {}, {}, {}, {1});
    var w2 := World(0, [2], false, {}, {}, {}, {1});
    assert Next(Initial(1), Wait(1)) == w1;
    assert Next(w1, Wait(2)) == w2;
    assert Next(w2, Post(1)) == World(1, [], false, {2}, {}, {}, {});
    var s2 := [Post(1)] + rest;
    var s1 := [Wait(2)] + s2;
    Chain(w2, Post(1), rest);
    Chain(w1, Wait(2), s2);
    Chain(Initial(1), Wait(1), s1);
    assert [Wait(1)] + s1 == [Wait(1), Wait(2), Post(1)] + rest;
  }

  /** Process 2 passes the test, process 3 takes the value first, and both hold. */
  lemma TwoHoldersExample()
    ensures AllEnabled(Initial(1), TWO_HOLDERS)
    ensures Run(Initial(1), TWO_HOLDERS) == World(-1, [], false, {}, {}, {}, {2, 3})
    ensures !Exclusive(Run(Initial(1), TWO_HOLDERS), 1)
  {
    var w3 := World(1, [], false, {2}, {}, {}, {});
    var w4 := World(1, [], false, {}, {2}, {}, {});
    var w5 := World(0, [], false, {}, {2}, {}, {3});
    assert Next(w3, Recheck(2)) == w4;
    assert Next(w4, Wait(3)) == w5;
    assert Next(w5, Take(2)) == World(-1, [], false, {}, {}, {}, {2, 3});
    var s5 := [Take(2)] + [];
    var s4 := [Wait(3)] + s5;
    Chain(w5, Take(2), []);
    Chain(w4, Wait(3), s5);
    Chain(w3, Recheck(2), s4);
    OneIsWoken([Recheck(2)] + s4);
    assert [Recheck(2)] + s4 == [Recheck(2), Wait(3), Take(2)];
    assert |{2, 3}| == 2;
  }

  const LOST_WAKEUP: seq<Step> := [Wait(1), Wait(2), Post(1)] + [Wait(3), Recheck(2), Post(3), Enqueue(2)]

  /** Process 2 finds the value zero, process 3 posts to an empty queue, and only then does 2 queue:
      it sleeps although the semaphore is free and nobody holds it. */
  lemma LostWakeupExample()
    ensures AllEnabled(Initial(1), LOST_WAKEUP)
    ensures Run(Initial(1), LOST_WAKEUP) == World(1, [2], false, {}, {}, {}, {})
    ensures !Awake(Run(Initial(1), LOST_WAKEUP))
  {
    var w3 := World(1, [], false, {2}, {}, {}, {});
    var w4 := World(0, [], false, {2}, {}, {}, {3});
    var w5 := World(0, [], false, {}, {}, {2}, {3});
    var w6 := World(1, [], false, {}, {}, {2}, {});
    assert Next(w3, Wait(3)) == w4;
    assert Next(w4, Recheck(2)) == w5;
    assert Next(w5, Post(3)) == w6;
    assert Next(w6, Enqueue(2)) == World(1, [2], false, {}, {}, {}, {});
    var s6 := [Enqueue(2)] + [];
    var s5 := [Post(3)] + s6;
    var s4 := [Recheck(2)] + s5;
    Chain(w6, Enqueue(2), []);
    Chain(w5, Post(3), s6);
    Chain(w4, Recheck(2), s5);
    Chain(w3, Wait(3), s4);
    OneIsWoken([Wait(3)] + s4);
    assert [Wait(3)] + s4 == [Wait(3), Recheck(2), Post(3), Enqueue(2)];
  }

  // ---------------------------------------------------------------- whole calls as a special case

  /** The world of whole calls, with nobody half way through a continuation. */
  function Embed(c: Calls.World): World {
    World(c.sem.value, c.sem.queue, c.sem.locked, c.woken, {}, {}, c.holders)
  }

  /** A whole call is its steps with nothing in between. */
  function Expand(c: Calls.World, s: Calls.Step): seq<Step> {
    match s
    case Wait(p) => [Wait(p)]
    case Resume(p) => if c.sem.value > 0 then [Recheck(p), Take(p)] else [Recheck(p), Enqueue(p)]
    case Post(p) => [Post(p)]
  }

  lemma CallRefines(c: Calls.World, s: Calls.Step)
    requires Calls.Enabled(c, s) && CallTheorems.Disciplined(c, s)
    ensures AllEnabled(Embed(c), Expand(c, s)) && Run(Embed(c), Expand(c, s)) == Embed(Calls.Next(c, s))
  {
    var w := Embed(c);
    match s
    case Wait(p) => Chain(w, Wait(p), []);
    case Post(p) => Chain(w, Post(p), []);
    case Resume(p) =>
      var v := Next(w, Recheck(p));
      if c.sem.value > 0 {
        Chain(w, Recheck(p), [Take(p)]);
        Chain(v, Take(p), []);
        assert v.passed - {p} == {};
      } else {
        Chain(w, Recheck(p), [Enqueue(p)]);
        Chain(v, Enqueue(p), []);
        assert v.falling - {p} == {};
      }
  }

  function ExpandAll(c: Calls.World, steps: seq<Calls.Step>): seq<Step>
    decreases |steps|
  {
    if steps == [] then [] else Expand(c, steps[0]) + ExpandAll(Calls.Next(c, steps[0]), steps[1..])
  }

  lemma {:induction false} RunAppend(w: World, a: seq<Step>, b: seq<Step>)
    ensures Run(w, a + b) == Run(Run(w, a), b)
    ensures AllEnabled(w, a) && AllEnabled(Run(w, a), b) ==> AllEnabled(w, a + b)
    decreases |a|
  {
    if a == [] {
      assert a + b == b;
    } else {
      assert (a + b)[1..] == a[1..] + b;
      RunAppend(Next(w, a[0]), a[1..], b);
    }
  }

  /** Every run of whole calls is a run of these steps, the one on which no continuation is
      interrupted.  What is proved of whole calls holds of those runs. */
  lemma {:induction false} WholeCallsAreARun(c: Calls.World, steps: seq<Calls.Step>)
    requires CallTheorems.AllDisciplined(c, steps)
    ensures AllEnabled(Embed(c), ExpandAll(c, steps))
    ensures Run(Embed(c), ExpandAll(c, steps)) == Embed(Calls.RunSteps(c, steps))
    decreases |steps|
  {
    if steps == [] {
    } else {
      var d := Calls.Next(c, steps[0]);
      CallRefines(c, steps[0]);
      WholeCallsAreARun(d, steps[1..]);
      RunAppend(Embed(c), Expand(c, steps[0]), ExpandAll(d, steps[1..]));
    }
  }
}
