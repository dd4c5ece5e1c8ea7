// Kills and the waiting queue (Kernel/utils/semaphore.c:132-142).
//
// A killed process is looked up in the queue, and then the queue is shifted down from its front:
// whoever stood first leaves it, whoever was killed.
module SemaphoreKills {
  import opened PidQueue
  import opened SemaphoreSpec

  /** The queue without one process, order kept: what a kill is meant to leave. */
  function Dropped(q: seq<Pid>, pid: Pid): seq<Pid> {
    if q == [] then [] else if q[0] == pid then q[1..] else [q[0]] + Dropped(q[1..], pid)
  }

  lemma {:induction false} DroppedMembers(q: seq<Pid>, pid: Pid)
    requires DistinctPids(q)
    ensures forall x :: x in Dropped(q, pid) <==> x in q && x != pid
  {
    if q == [] {
    } else {
      assert q == [q[0]] + q[1..];
      DroppedMembers(q[1..], pid);
    }
  }

  lemma NotQueued(q: seq<Pid>, pid: Pid)
    requires pid !in q
    ensures Dropped(q, pid) == q
  {
    if q == [] {
    } else {
      NotQueued(q[1..], pid);
    }
  }

  /** The kill takes the killed process out of the queue, and nobody else, exactly when it was not
      queued or stood first. */
  lemma KillRemovesExactly(s: Sem, pid: Pid)
    requires DistinctPids(s.queue)
    ensures KillSem(s, pid).queue == Dropped(s.queue, pid) <==> pid !in s.queue || s.queue[0] == pid
    ensures pid in s.queue && s.queue[0] != pid ==>
              s.queue[0] !in KillSem(s, pid).queue && pid in KillSem(s, pid).queue
    // what goes is the front, and nothing else changes
    ensures KillSem(s, pid) == if pid in s.queue then s.(queue := s.queue[1..]) else s
  {
    DroppedMembers(s.queue, pid);
    if pid !in s.queue {
      NotQueued(s.queue, pid);
    } else {
      assert s.queue == [s.queue[0]] + s.queue[1..];
    }
  }

  // ---------------------------------------------------------------- runs with kills

  /** `asleep` are the blocked processes, whether or not the queue still knows them. */
  datatype Scene = Scene(calls: SemaphoreSpec.World, asleep: set<Pid>, dead: set<Pid>)

  datatype Step = Call(s: SemaphoreSpec.Step) | Kill(pid: Pid)

  function Initial(value: nat): Scene {
    Scene(SemaphoreSpec.Initial(value), {}, {})
  }

  predicate Enabled(w: Scene, s: Step) {
    match s
    case Call(c) => SemaphoreSpec.Enabled(w.calls, c) && c.p !in w.asleep && c.p !in w.dead
    case Kill(pid) => pid !in w.dead
  }

  /** Who sleeps after a call: a new waiter may, the one a post wakes does not any more. */
  function Sleepers(w: Scene, c: SemaphoreSpec.Step): set<Pid> {
    match c
    case Wait(p) => if WaitSem(w.calls.sem, p).1.Blocked? then w.asleep + {p} else w.asleep
    case Resume(p) => if ResumeSem(w.calls.sem, p).1.Blocked? then w.asleep + {p} else w.asleep
    case Post(_) =>
      match PostSem(w.calls.sem).1
      case Nobody => w.asleep
      case Woke(q) => w.asleep - {q}
  }

  function Next(w: Scene, s: Step): Scene {
    match s
    case Call(c) => Scene(SemaphoreSpec.Next(w.calls, c), Sleepers(w, c), w.dead)
    case Kill(pid) =>
      var v := w.calls.(sem := KillSem(w.calls.sem, pid), woken := w.calls.woken - {pid});
      Scene(v, w.asleep - {pid}, w.dead + {pid})
  }

  predicate AllEnabled(w: Scene, steps: seq<Step>)
    decreases |steps|
  {
    steps == [] || (Enabled(w, steps[0]) && AllEnabled(Next(w, steps[0]), steps[1..]))
  }

  function Run(w: Scene, steps: seq<Step>): Scene
    decreases |steps|
  {
    if steps == [] then w else Run(Next(w, steps[0]), steps[1..])
  }

  /** The queue is exactly the sleepers: none is forgotten, and no place in it goes to the dead. */
  ghost predicate NoneForgotten(w: Scene) {
    && DistinctPids(w.calls.sem.queue)
    && (forall p :: p in w.calls.sem.queue <==> p in w.asleep)
    && w.asleep !! w.calls.woken
  }

  /** The kill of somebody who does not wait here, or waits in front. */
  predicate Harmless(w: Scene, s: Step) {
    s.Kill? ==> s.pid !in w.calls.sem.queue || w.calls.sem.queue[0] == s.pid
  }

  lemma CallKeeps(w: Scene, c: SemaphoreSpec.Step)
    requires NoneForgotten(w) && Enabled(w, Call(c))
    ensures NoneForgotten(Next(w, Call(c)))
  {
    if c.Post? && w.calls.sem.queue != [] {
      assert w.calls.sem.queue == [w.calls.sem.queue[0]] + w.calls.sem.queue[1..];
    }
  }

  lemma KillKeepsExactly(w: Scene, pid: Pid)
    requires NoneForgotten(w) && Enabled(w, Kill(pid))
    ensures NoneForgotten(Next(w, Kill(pid))) <==> Harmless(w, Kill(pid))
  {
    var q := w.calls.sem.queue;
    KillRemovesExactly(w.calls.sem, pid);
    DroppedMembers(q, pid);
    if pid in q && q[0] != pid {
      assert q[0] in w.asleep && q[0] in Next(w, Kill(pid)).asleep;
    }
  }

  ghost predicate NeverForgotten(w: Scene, steps: seq<Step>)
    decreases |steps|
  {
    NoneForgotten(w) && (steps == [] || NeverForgotten(Next(w, steps[0]), steps[1..]))
  }

  predicate AllHarmless(w: Scene, steps: seq<Step>)
    decreases |steps|
  {
    steps == [] || (Harmless(w, steps[0]) && AllHarmless(Next(w, steps[0]), steps[1..]))
  }

  lemma {:induction false} ForgottenAlongRun(w: Scene, steps: seq<Step>)
    requires NoneForgotten(w) && AllEnabled(w, steps)
    ensures NeverForgotten(w, steps) <==> AllHarmless(w, steps)
    decreases |steps|
  {
    if steps == [] {
    } else {
      var v := Next(w, steps[0]);
      match steps[0] {
        case Call(c) => CallKeeps(w, c);
        case Kill(pid) => KillKeepsExactly(w, pid);
      }
      if NoneForgotten(v) {
        ForgottenAlongRun(v, steps[1..]);
      } else {
        assert !NeverForgotten(v, steps[1..]);
      }
    }
  }

  /** On any run of calls and kills the queue is exactly the sleepers throughout if and only if
      every kill hits somebody who does not wait here or waits in front. */
  lemma ForgottenExactly(value: nat, steps: seq<Step>)
    requires AllEnabled(Initial(value), steps)
    ensures NeverForgotten(Initial(value), steps) <==> AllHarmless(Initial(value), steps)
  {
    ForgottenAlongRun(Initial(value), steps);
  }

  /** A sleeper the queue has lost sleeps on for as long as it lives, however often anyone posts. */
  lemma {:induction false} ForgottenForGood(w: Scene, steps: seq<Step>, p: Pid)
    requires p in w.asleep && p !in w.calls.sem.queue && AllEnabled(w, steps)
    requires forall i | 0 <= i < |steps| :: steps[i] != Kill(p)
    ensures p in Run(w, steps).asleep && p !in Run(w, steps).calls.sem.queue
    decreases |steps|
  {
    if steps == [] {
    } else {
      StillForgotten(w, steps[0], p);
      forall i | 0 <= i < |steps[1..]|
        ensures steps[1..][i] != Kill(p)
      {
        assert steps[1..][i] == steps[i + 1];
      }
      ForgottenForGood(Next(w, steps[0]), steps[1..], p);
    }
  }

  lemma StillForgotten(w: Scene, s: Step, p: Pid)
    requires p in w.asleep && p !in w.calls.sem.queue && Enabled(w, s) && s != Kill(p)
    ensures p in Next(w, s).asleep && p !in Next(w, s).calls.sem.queue
  {
    var q := w.calls.sem.queue;
    if q != [] { assert q == [q[0]] + q[1..]; }
  }

  // ---------------------------------------------------------------- wakeups that die

  /** Woken processes that are still alive: those on their way to take the value. */
  function OnTheWay(w: Scene): set<Pid> {
    w.calls.woken - w.dead
  }

  /** While anyone sleeps, at least `value` living processes are on their way to take it. */
  predicate Attended(w: Scene) {
    w.asleep != {} ==> |OnTheWay(w)| >= w.calls.sem.value
  }

  /** Sleepers are alive and not woken, and whoever is queued sleeps or has died. */
  ghost predicate Known(w: Scene) {
    && w.asleep !! w.dead && w.asleep !! w.calls.woken && DistinctPids(w.calls.sem.queue)
    && forall p | p in w.calls.sem.queue :: p in w.asleep || p in w.dead
  }

  lemma KnownKept(w: Scene, s: Step)
    requires Known(w) && Enabled(w, s)
    ensures Known(Next(w, s))
  {
    var v, q := Next(w, s), w.calls.sem.queue;
    forall p | p in v.calls.sem.queue
      ensures p in v.asleep || p in v.dead
    {
      if q != [] { assert q == [q[0]] + q[1..]; }
      match s {
        case Kill(pid) => assert p in q;
        case Call(c) => if c.Post? { assert p in q && p != q[0]; }
      }
    }
  }

  /** Somebody sleeps, no more are on their way than the value, and one of those is killed, or a post
      finds nobody asleep in front of the queue. */
  predicate LosesWakeup(w: Scene, s: Step) {
    && w.asleep != {} && |OnTheWay(w)| <= w.calls.sem.value
    && match s
       case Kill(pid) => pid in OnTheWay(w)
       case Call(c) => c.Post? && (w.calls.sem.queue == [] || w.calls.sem.queue[0] !in w.asleep)
  }

  lemma AttendedStepExactly(w: Scene, s: Step)
    requires Known(w) && Enabled(w, s) && Attended(w)
    ensures Attended(Next(w, s)) <==> !LosesWakeup(w, s)
  {
    match s
    case Kill(pid) => KillAttended(w, pid);
    case Call(c) =>
      match c
      case Wait(p) => assert OnTheWay(Next(w, s)) == OnTheWay(w);
      case Resume(p) => ResumeAttended(w, p);
      case Post(p) => PostAttended(w, p);
  }

  lemma KillAttended(w: Scene, pid: Pid)
    requires Known(w) && Enabled(w, Kill(pid)) && Attended(w)
    ensures Attended(Next(w, Kill(pid))) <==> !LosesWakeup(w, Kill(pid))
  {
    KillLeaves(w, pid);
    if pid in OnTheWay(w) {
      assert |OnTheWay(w) - {pid}| == |OnTheWay(w)| - 1;
    } else {
      assert OnTheWay(w) - {pid} == OnTheWay(w);
    }
  }

  lemma KillLeaves(w: Scene, pid: Pid)
    requires w.asleep !! w.calls.woken
    ensures var v := Next(w, Kill(pid)); OnTheWay(v) == OnTheWay(w) - {pid} && v.calls.sem.value == w.calls.sem.value
    ensures pid in OnTheWay(w) ==> Next(w, Kill(pid)).asleep == w.asleep
  {
  }

  lemma ResumeAttended(w: Scene, p: Pid)
    requires Known(w) && Enabled(w, Call(Resume(p))) && Attended(w)
    ensures Attended(Next(w, Call(Resume(p))))
  {
    assert OnTheWay(Next(w, Call(Resume(p)))) == OnTheWay(w) - {p};
    assert |OnTheWay(w) - {p}| == |OnTheWay(w)| - 1;
  }

  lemma PostAttended(w: Scene, p: Pid)
    requires Known(w) && Enabled(w, Call(Post(p))) && Attended(w)
    ensures Attended(Next(w, Call(Post(p)))) <==> !LosesWakeup(w, Call(Post(p)))
  {
    var v, q := Next(w, Call(Post(p))), w.calls.sem.queue;
    if q == [] {
      assert OnTheWay(v) == OnTheWay(w);
    } else if q[0] in w.asleep {
      assert OnTheWay(v) == OnTheWay(w) + {q[0]};
      assert |OnTheWay(w) + {q[0]}| == |OnTheWay(w)| + 1;
    } else {
      assert q[0] in w.dead;
      assert OnTheWay(v) == OnTheWay(w) && v.asleep == w.asleep;
    }
  }

  predicate AlwaysAttended(w: Scene, steps: seq<Step>)
    decreases |steps|
  {
    Attended(w) && (steps == [] || AlwaysAttended(Next(w, steps[0]), steps[1..]))
  }

  predicate SomeLosesWakeup(w: Scene, steps: seq<Step>)
    decreases |steps|
  {
    steps != [] && (LosesWakeup(w, steps[0]) || SomeLosesWakeup(Next(w, steps[0]), steps[1..]))
  }

  lemma {:induction false} AttendedAlongRun(w: Scene, steps: seq<Step>)
    requires Known(w) && Attended(w) && AllEnabled(w, steps)
    ensures AlwaysAttended(w, steps) <==> !SomeLosesWakeup(w, steps)
    decreases |steps|
  {
    if steps == [] {
    } else {
      var v := Next(w, steps[0]);
      AttendedStepExactly(w, steps[0]);
      KnownKept(w, steps[0]);
      if Attended(v) {
        AttendedAlongRun(v, steps[1..]);
      } else {
        assert !AlwaysAttended(v, steps[1..]);
      }
    }
  }

  /** On any run of calls and kills no wakeup is lost if and only if no step loses one. */
  lemma AttendedExactly(value: nat, steps: seq<Step>)
    requires AllEnabled(Initial(value), steps)
    ensures AlwaysAttended(Initial(value), steps) <==> !SomeLosesWakeup(Initial(value), steps)
  {
    AttendedAlongRun(Initial(value), steps);
  }

  /** A kill that takes no living waiter's place in the queue and nobody the sleepers count on. */
  predicate Careful(w: Scene, s: Step) {
    Harmless(w, s) && (s.Kill? ==> !LosesWakeup(w, s))
  }

  predicate AllCareful(w: Scene, steps: seq<Step>)
    decreases |steps|
  {
    steps == [] || (Careful(w, steps[0]) && AllCareful(Next(w, steps[0]), steps[1..]))
  }

  lemma {:induction false} CarefulAlongRun(w: Scene, steps: seq<Step>)
    requires NoneForgotten(w) && Known(w) && Attended(w) && AllEnabled(w, steps)
    ensures NeverForgotten(w, steps) && AlwaysAttended(w, steps) <==> AllCareful(w, steps)
    decreases |steps|
  {
    if steps == [] {
    } else {
      var s, v := steps[0], Next(w, steps[0]);
      AttendedStepExactly(w, s);
      KnownKept(w, s);
      match s {
        case Call(c) =>
          CallKeeps(w, c);
          assert w.asleep != {} ==> w.calls.sem.queue != [];
        case Kill(pid) => KillKeepsExactly(w, pid);
      }
      if NoneForgotten(v) && Attended(v) {
        CarefulAlongRun(v, steps[1..]);
      } else {
        assert !NeverForgotten(v, steps[1..]) || !AlwaysAttended(v, steps[1..]);
      }
    }
  }

  /** In terms of the kills alone: the queue stays exact and every wakeup reaches a living process
      throughout if and only if every kill is careful. */
  lemma KillsHarmNobodyExactly(value: nat, steps: seq<Step>)
    requires AllEnabled(Initial(value), steps)
    ensures NeverForgotten(Initial(value), steps) && AlwaysAttended(Initial(value), steps) <==>
              AllCareful(Initial(value), steps)
  {
    CarefulAlongRun(Initial(value), steps);
  }

  /** Taking one step first. */
  lemma Chain(w: Scene, s: Step, rest: seq<Step>)
    ensures Run(w, [s] + rest) == Run(Next(w, s), rest)
    ensures AllEnabled(w, [s] + rest) <==> Enabled(w, s) && AllEnabled(Next(w, s), rest)
    ensures AllHarmless(w, [s] + rest) <==> Harmless(w, s) && AllHarmless(Next(w, s), rest)
  {
    assert ([s] + rest)[1..] == rest;
  }

  function TwoWaiting(): Scene {
    Next(Next(Initial(0), Call(Wait(1))), Call(Wait(2)))
  }

  lemma SecondKilled()
    ensures var w1, w2 := Next(Initial(0), Call(Wait(1))), TwoWaiting();
            && Enabled(Initial(0), Call(Wait(1))) && Enabled(w1, Call(Wait(2))) && Enabled(w2, Kill(2))
            && var w3 := Next(w2, Kill(2));
               && Enabled(w3, Call(Post(3)))
               && var w := Next(w3, Call(Post(3)));
                  w.asleep == {1} && w.calls.sem == Sem(1, [], false) && w.calls.woken == {2} && w.dead == {2}
  {
    var w2 := TwoWaiting();
    assert w2.calls.sem == Sem(0, [1, 2], false) && w2.asleep == {1, 2} && w2.calls.woken == {};
    var w3 := Next(w2, Kill(2));
    assert w3.calls.sem == Sem(0, [2], false) && w3.asleep == {1} && w3.calls.woken == {};
  }

  const FORGETTING: seq<Step> := [Call(Wait(1)), Call(Wait(2)), Kill(2), Call(Post(3))]

  /** Two processes wait, the second is killed, somebody posts: the post goes to the dead process,
      and the first sleeps outside an empty queue. */
  lemma ForgottenWaiterExample()
    ensures AllEnabled(Initial(0), FORGETTING)
    ensures var w := Run(Initial(0), FORGETTING);
            w.asleep == {1} && w.calls.sem == Sem(1, [], false) && w.calls.woken == {2} && w.dead == {2}
  {
    var w1, w2 := Next(Initial(0), Call(Wait(1))), TwoWaiting();
    var w3 := Next(w2, Kill(2));
    SecondKilled();
    var s3 := [Call(Post(3))] + [];
    var s2 := [Kill(2)] + s3;
    var s1 := [Call(Wait(2))] + s2;
    Chain(w3, Call(Post(3)), []);
    Chain(w2, Kill(2), s3);
    Chain(w1, Call(Wait(2)), s2);
    Chain(Initial(0), Call(Wait(1)), s1);
    assert [Call(Wait(1))] + s1 == FORGETTING;
  }

  const DEAD_WAKEUP: seq<Step> := [Call(Wait(1)), Call(Wait(2)), Call(Post(3)), Kill(1)]

  lemma WokenKilled()
    ensures var w1, w2 := Next(Initial(0), Call(Wait(1))), TwoWaiting();
            && Enabled(Initial(0), Call(Wait(1))) && Enabled(w1, Call(Wait(2))) && Enabled(w2, Call(Post(3)))
            && var w3 := Next(w2, Call(Post(3)));
               && Enabled(w3, Kill(1)) && Harmless(w3, Kill(1))
               && var w := Next(w3, Kill(1));
                  w.calls.sem == Sem(1, [2], false) && w.asleep == {2} && w.calls.woken == {} && w.dead == {1}
  {
    var w2 := TwoWaiting();
    assert w2.calls.sem == Sem(0, [1, 2], false) && w2.asleep == {1, 2} && w2.calls.woken == {};
    var w3 := Next(w2, Call(Post(3)));
    assert w3.calls.sem == Sem(1, [2], false) && w3.asleep == {2} && w3.calls.woken == {1};
  }

  /** Two processes wait, a post wakes the first, and that one is killed before it takes the value:
      the second sleeps on although the value is 1 and nobody is on the way. */
  lemma DeadWakeupExample()
    ensures AllEnabled(Initial(0), DEAD_WAKEUP) && AllHarmless(Initial(0), DEAD_WAKEUP)
    ensures var w := Run(Initial(0), DEAD_WAKEUP);
            && w.calls.sem == Sem(1, [2], false) && w.asleep == {2} && w.calls.woken == {} && w.dead == {1}
            && !Attended(w)
  {
    var w1, w2 := Next(Initial(0), Call(Wait(1))), TwoWaiting();
    var w3 := Next(w2, Call(Post(3)));
    WokenKilled();
    var w := Next(w3, Kill(1));
    assert OnTheWay(w) == {};
    var s3 := [Kill(1)] + [];
    var s2 := [Call(Post(3))] + s3;
    var s1 := [Call(Wait(2))] + s2;
    Chain(w3, Kill(1), []);
    Chain(w2, Call(Post(3)), s3);
    Chain(w1, Call(Wait(2)), s2);
    Chain(Initial(0), Call(Wait(1)), s1);
    assert [Call(Wait(1))] + s1 == DEAD_WAKEUP;
  }
}
