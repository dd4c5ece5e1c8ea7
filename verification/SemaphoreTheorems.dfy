// Wakeups, conservation, exclusion and the queue limit of the semaphore protocol
// (Kernel/utils/semaphore.c:72-106).
module SemaphoreTheorems {
  import opened PidQueue
  import opened SemaphoreSpec

  // ---------------------------------------------------------------- invariant

  predicate Inv(w: World, initial: nat) {
    && |w.sem.queue| <= PROCESS_LIMIT
    && DistinctPids(w.sem.queue)
    && (forall p | p in w.woken :: p !in w.sem.queue)
    // conservation
    && w.sem.value + w.grants == initial + w.posts
    // no lost wakeup
    && (w.sem.queue == [] || |w.woken| >= w.sem.value)
    // processes are woken in the order they queued
    && w.blocked == w.woke + w.sem.queue
  }

  lemma NextKeeps(w: World, s: Step, initial: nat)
    requires Inv(w, initial) && Enabled(w, s)
    ensures Inv(Next(w, s), initial)
  {
    match s {
      case Wait(p) => WaitKeepsInv(w, p, initial);
      case Resume(p) => ResumeKeepsInv(w, p, initial);
      case Post(p) => PostKeepsInv(w, p, initial);
    }
  }

  lemma WaitKeepsInv(w: World, p: Pid, initial: nat)
    requires Inv(w, initial) && Enabled(w, Wait(p))
    ensures Inv(Next(w, Wait(p)), initial)
  {
    assert w.woken - {p} == w.woken;
    assert (w.woke + w.sem.queue) + [p] == w.woke + (w.sem.queue + [p]);
  }

  lemma ResumeKeepsInv(w: World, p: Pid, initial: nat)
    requires Inv(w, initial) && Enabled(w, Resume(p))
    ensures Inv(Next(w, Resume(p)), initial)
  {
    assert |w.woken - {p}| == |w.woken| - 1;
    assert (w.woke + w.sem.queue) + [p] == w.woke + (w.sem.queue + [p]);
  }

  lemma PostKeepsInv(w: World, p: Pid, initial: nat)
    requires Inv(w, initial) && Enabled(w, Post(p))
    ensures Inv(Next(w, Post(p)), initial)
  {
    if w.sem.queue != [] {
      var q := w.sem.queue[0];
      assert q in w.sem.queue;
      assert |w.woken + {q}| == |w.woken| + 1;
      assert w.sem.queue == [q] + w.sem.queue[1..];
      assert w.woke + w.sem.queue == (w.woke + [q]) + w.sem.queue[1..];
    }
  }

  lemma {:induction false} InvAlongRun(w: World, steps: seq<Step>, initial: nat)
    requires Inv(w, initial) && AllEnabled(w, steps)
    ensures Inv(RunSteps(w, steps), initial)
    decreases |steps|
  {
    if steps == [] {
    } else {
      NextKeeps(w, steps[0], initial);
      InvAlongRun(Next(w, steps[0]), steps[1..], initial);
    }
  }

  /** On every run: the value is what was put in less what was taken out; while anyone is queued,
      at least as many woken processes as the value are still to re-check, even if newcomers take
      the value first; and the queue is served in order. */
  lemma NoLostWakeup(value: nat, steps: seq<Step>)
    requires AllEnabled(Initial(value), steps)
    ensures var w := RunSteps(Initial(value), steps);
            && w.sem.value + w.grants == value + w.posts
            && (w.sem.queue == [] || |w.woken| >= w.sem.value)
            && w.blocked == w.woke + w.sem.queue
  {
    InvAlongRun(Initial(value), steps, value);
  }

  // ---------------------------------------------------------------- exclusion

  /** Clients that wait only when they do not hold and post only what they hold. */
  predicate Disciplined(w: World, s: Step) {
    match s
    case Wait(p) => p !in w.holders
    case Resume(p) => true
    case Post(p) => p in w.holders
  }

  predicate AllDisciplined(w: World, steps: seq<Step>)
    decreases |steps|
  {
    steps == [] ||
    (Enabled(w, steps[0]) && Disciplined(w, steps[0]) && AllDisciplined(Next(w, steps[0]), steps[1..]))
  }

  predicate HolderInv(w: World, initial: nat) {
    && Inv(w, initial)
    && w.sem.value + |w.holders| == initial
    && (forall p | p in w.holders :: Elsewhere(w, p))
  }

  lemma HoldersKept(w: World, s: Step, initial: nat)
    requires HolderInv(w, initial) && Enabled(w, s) && Disciplined(w, s)
    ensures HolderInv(Next(w, s), initial)
  {
    NextKeeps(w, s, initial);
    HoldersCounted(w, s, initial);
  }

  lemma HoldersCounted(w: World, s: Step, initial: nat)
    requires w.sem.value + |w.holders| == initial && (forall p | p in w.holders :: Elsewhere(w, p))
    requires Enabled(w, s) && Disciplined(w, s) && (forall p | p in w.woken :: p !in w.sem.queue)
    requires DistinctPids(w.sem.queue)
    ensures var v := Next(w, s);
            v.sem.value + |v.holders| == initial && forall p | p in v.holders :: Elsewhere(v, p)
  {
    match s {
      case Wait(p) =>
        if w.sem.value > 0 { assert |w.holders + {p}| == |w.holders| + 1; }
      case Resume(p) =>
        assert p !in w.holders;
        if w.sem.value > 0 { assert |w.holders + {p}| == |w.holders| + 1; }
      case Post(p) =>
        PostCounted(w, p, initial);
    }
  }

  lemma PostCounted(w: World, p: Pid, initial: nat)
    requires w.sem.value + |w.holders| == initial && (forall q | q in w.holders :: Elsewhere(w, q)) && p in w.holders
    ensures var v := Next(w, Post(p));
            v.sem.value + |v.holders| == initial && forall q | q in v.holders :: Elsewhere(v, q)
  {
    assert |w.holders - {p}| == |w.holders| - 1;
    if w.sem.queue != [] { assert w.sem.queue[0] in w.sem.queue; }
  }

  lemma {:induction false} HoldersAlongRun(w: World, steps: seq<Step>, initial: nat)
    requires HolderInv(w, initial) && AllDisciplined(w, steps)
    ensures HolderInv(RunSteps(w, steps), initial)
    decreases |steps|
  {
    if steps == [] {
    } else {
      HoldersKept(w, steps[0], initial);
      HoldersAlongRun(Next(w, steps[0]), steps[1..], initial);
    }
  }

  /** At most `value` disciplined clients are ever between their wait and their post, and nobody
      is queued without a holder or a woken process to move things on. */
  lemma MutualExclusion(value: nat, steps: seq<Step>)
    requires AllDisciplined(Initial(value), steps)
    ensures var w := RunSteps(Initial(value), steps);
            && |w.holders| <= value && w.sem.value == value - |w.holders|
            && (value > 0 && w.sem.queue != [] ==> w.holders != {} || w.woken != {})
  {
    HoldersAlongRun(Initial(value), steps, value);
    var w := RunSteps(Initial(value), steps);
    if w.holders == {} { assert |w.holders| == 0; }
    if w.woken == {} { assert |w.woken| == 0; }
  }

  // ---------------------------------------------------------------- what each call does

  /** A wait, fresh or going on after a wakeup, is granted exactly when the value is above 0, and takes
      one of it.  At 0 it queues behind all others and gives the lock back, or, when ten wait already, is
      refused: a fresh one then keeps the lock, one that goes on leaves everything as it was. */
  lemma WaitsExactly(s: Sem, p: Pid)
    ensures var r := WaitSem(s, p);
            if s.value > 0 then r == (Sem(s.value - 1, s.queue, false), Acquired)
            else if |s.queue| == 10 then r == (Sem(0, s.queue, true), Full)
            else r == (Sem(0, s.queue + [p], false), Blocked)
    ensures ResumeSem(s, p) == if s.value == 0 && |s.queue| == 10 then (s, Full) else WaitSem(s, p)
  {
  }

  /** A post raises the value, and takes exactly the front of the queue, whom it wakes. */
  lemma PostsExactly(s: Sem)
    ensures var r := PostSem(s);
            && r.0.value == s.value + 1 && !r.0.locked
            && (s.queue == [] ==> r.0.queue == [] && r.1 == Nobody)
            && (s.queue != [] ==> r.1.Woke? && s.queue == [r.1.pid] + r.0.queue)
  {
  }

  // ---------------------------------------------------------------- the queue limit

  /** The lock is left held exactly when a wait finds the value at 0 and the queue full. */
  lemma LockLeaksExactly(w: World, p: Pid)
    requires Enabled(w, Wait(p))
    ensures Next(w, Wait(p)).sem.locked <==> w.sem.value == 0 && |w.sem.queue| == 10
  {
  }

  /** After that, unless a woken process comes back, nothing on this semaphore can step again. */
  lemma LeakedLockIsForGood(w: World, s: Step)
    requires w.sem.locked && w.woken == {}
    ensures !Enabled(w, s)
  {
  }

  function Waits(from: Pid, n: nat): seq<Step>
    decreases n
  {
    if n == 0 then [] else [Wait(from)] + Waits(from + 1, n - 1)
  }

  lemma {:induction false} WaitsLeak(w: World, from: Pid)
    requires w.sem.value == 0 && !w.sem.locked && |w.sem.queue| <= PROCESS_LIMIT && w.woken == {}
    requires forall x | x in w.sem.queue :: x < from
    ensures var steps := Waits(from, PROCESS_LIMIT + 1 - |w.sem.queue|);
            AllEnabled(w, steps) && RunSteps(w, steps).sem.locked && RunSteps(w, steps).woken == {}
    decreases PROCESS_LIMIT - |w.sem.queue|
  {
    var n := PROCESS_LIMIT - |w.sem.queue|;
    var v := Next(w, Wait(from));
    assert Waits(from, n + 1)[1..] == Waits(from + 1, n);
    if n == 0 {
      assert AllEnabled(v, []) && RunSteps(v, []) == v;
    } else {
      WaitsLeak(v, from + 1);
    }
  }

  /** A semaphore opened at 0 gets there with eleven waits: then no step is possible. */
  lemma EveryoneWaitsExample()
    ensures var steps := Waits(0, 11);
            AllEnabled(Initial(0), steps) && forall s: Step :: !Enabled(RunSteps(Initial(0), steps), s)
  {
    WaitsLeak(Initial(0), 0);
    var w := RunSteps(Initial(0), Waits(0, PROCESS_LIMIT + 1));
    forall s: Step
      ensures !Enabled(w, s)
    {
      LeakedLockIsForGood(w, s);
    }
  }

  predicate StepOf(clients: set<Pid>, s: Step) {
    match s
    case Wait(p) => p in clients
    case Resume(p) => p in clients
    case Post(p) => p in clients
  }

  predicate Unlocked(w: World, clients: set<Pid>) {
    && !w.sem.locked
    && (forall p | p in w.sem.queue :: p in clients)
  }

  /** With no more clients than queue slots the limit is never reached and the lock never leaks. */
  lemma {:induction false} FewClientsNeverLeak(w: World, clients: set<Pid>, steps: seq<Step>, initial: nat)
    requires |clients| <= 10 && Inv(w, initial) && Unlocked(w, clients) && AllEnabled(w, steps)
    requires forall i | 0 <= i < |steps| :: StepOf(clients, steps[i])
    ensures !RunSteps(w, steps).sem.locked
    decreases |steps|
  {
    if steps == [] {
    } else {
      var s := steps[0];
      assert StepOf(clients, s);
      if !s.Post? {
        QueueHasRoom(w.sem.queue, clients, s.p);
      }
      NextKeeps(w, s, initial);
      forall i | 0 <= i < |steps[1..]|
        ensures StepOf(clients, steps[1..][i])
      {
        assert steps[1..][i] == steps[i + 1];
      }
      FewClientsNeverLeak(Next(w, s), clients, steps[1..], initial);
    }
  }

  lemma QueueHasRoom(q: seq<Pid>, clients: set<Pid>, p: Pid)
    requires DistinctPids(q) && p !in q && p in clients && |clients| <= PROCESS_LIMIT
    requires forall x | x in q :: x in clients
    ensures |q| < PROCESS_LIMIT
  {
    QueueFits(q, clients - {p});
    assert |clients - {p}| == |clients| - 1;
  }
}
