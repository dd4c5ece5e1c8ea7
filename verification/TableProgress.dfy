// Nobody sleeps for ever at the table: who waits has been queued or woken, and somebody can always go
// on (Userland/SampleCodeModule/philo.c:86-117).
module TableProgress {
  import Semaphores = SemaphoreSpec
  import opened PidQueue
  import opened PhilosophersSpec
  import opened Philosophers

  /** Who waits for the mutex is in its queue or has been woken, and while the mutex is free and anyone
      is queued, somebody has been. */
  ghost predicate MutexAwake(t: Table)
    requires Shaped(t)
  {
    && (forall id: Pid :: Queued(t, id) ==> id in t.mutex.queue || id in t.mutexWoken)
    && (t.mutex.value == 1 && t.mutex.queue != [] ==> t.mutexWoken != {})
  }

  /** On its way to passing its private semaphore. */
  predicate Passing(p: Place) {
    p.TakeChecked? || p.AtPrivate? || p.PrivateQueued?
  }

  /** Philosopher `i` waits on its own semaphore only in its queue, at value 0, or woken; once it is
      marked EATING there is a value for it to take. */
  predicate PrivateAwake(t: Table, i: nat)
    requires Shaped(t) && i < |t.seat|
  {
    var s := t.private[i];
    && !s.locked
    && (s.queue == [] || (s.queue == [i] && s.value == 0 && t.place[i].PrivateQueued? && i !in t.privateWoken))
    && (t.place[i].PrivateQueued? ==> s.queue == [i] || i in t.privateWoken)
    && (t.seat[i].Eating? && Passing(t.place[i]) ==> s.value >= 1)
  }

  ghost predicate Awake(t: Table) {
    Shaped(t) && MutexAwake(t) && forall i: nat | i < |t.seat| :: PrivateAwake(t, i)
  }

  // ---------------------------------------------------------------- the mutex

  /** Going into the mutex: in when it is free, and otherwise to the end of the queue. */
  lemma EntersExactly(t: Table, s: Step, i: nat)
    requires MutexInv(t) && Enabled(t, s) && (s == MutexWait(i) || s == MutexResume(i))
    ensures var u := Next(t, s);
            var taking := t.place[i].Away? || t.place[i].TakeQueued?;
            && u.seat == t.seat && u.private == t.private && u.privateWoken == t.privateWoken && u.adder == t.adder
            && u.mutexWoken == t.mutexWoken - {i} && u.mutex.value == 0
            && if t.mutex.value == 1
               then u.mutex.queue == t.mutex.queue && u.place == t.place[i := if taking then TakeIn else PutIn]
               else
                 && u.mutex.queue == t.mutex.queue + [i]
                 && u.place == t.place[i := if taking then TakeQueued else PutQueued]
  {
    if t.mutex.value == 0 {
      assert i !in t.mutex.queue by {
        if s == MutexWait(i) { assert !Queued(t, i); }
      }
      MutexHasRoom(t, i);
    }
  }

  lemma AdderEntersExactly(t: Table, s: Step)
    requires MutexInv(t) && Enabled(t, s) && (s == AddWait || s == AddResume)
    ensures var u := Next(t, s);
            && u.seat == t.seat && u.place == t.place && u.private == t.private && u.privateWoken == t.privateWoken
            && u.mutexWoken == t.mutexWoken - {MAIN} && u.mutex.value == 0
            && if t.mutex.value == 1 then u.mutex.queue == t.mutex.queue && u.adder == AddIn
               else u.mutex.queue == t.mutex.queue + [MAIN] && u.adder == AddQueued
  {
    if t.mutex.value == 0 {
      assert MAIN !in t.mutex.queue by {
        if s == AddWait { assert !Queued(t, MAIN); }
      }
      assert !Holds(t, MAIN);
      MutexHasRoom(t, MAIN);
    }
  }

  lemma EntersAwake(t: Table, s: Step, i: nat)
    requires MutexInv(t) && MutexAwake(t) && Enabled(t, s) && (s == MutexWait(i) || s == MutexResume(i))
    ensures MutexAwake(Next(t, s))
  {
    var u := Next(t, s);
    EntersExactly(t, s, i);
    forall id: Pid | Queued(u, id)
      ensures id in u.mutex.queue || id in u.mutexWoken
    {
      if id != i { assert Queued(t, id); }
    }
  }

  lemma AdderEntersAwake(t: Table, s: Step)
    requires MutexInv(t) && MutexAwake(t) && Enabled(t, s) && (s == AddWait || s == AddResume)
    ensures MutexAwake(Next(t, s))
  {
    var u := Next(t, s);
    AdderEntersExactly(t, s);
    forall id: Pid | Queued(u, id)
      ensures id in u.mutex.queue || id in u.mutexWoken
    {
      if id != MAIN { assert Queued(t, id); }
    }
  }

  /** Giving the mutex back wakes the front of its queue. */
  lemma ReleaseWakes(t: Table)
    ensures var u, q := Release(t), t.mutex.queue;
            && u.seat == t.seat && u.place == t.place && u.private == t.private && u.privateWoken == t.privateWoken
            && u.mutex.value == t.mutex.value + 1
            && (q == [] ==> u.mutex.queue == [] && u.mutexWoken == t.mutexWoken)
            && (q != [] ==> q == [q[0]] + u.mutex.queue && u.mutexWoken == t.mutexWoken + {q[0]})
  {
  }

  lemma PostAwake(t: Table, s: Step)
    requires MutexInv(t) && MutexAwake(t) && Enabled(t, s) && (s.MutexPost? || s.AddPost?)
    ensures MutexAwake(Next(t, s))
  {
    var u := Next(t, s);
    ReleaseWakes(t);
    forall id: Pid | Queued(u, id)
      ensures id in u.mutex.queue || id in u.mutexWoken
    {
      assert Queued(t, id);
    }
  }

  /** A step that leaves the mutex and everybody's wait for it alone. */
  lemma SameMutex(t: Table, u: Table)
    requires Shaped(t) && Shaped(u) && MutexAwake(t) && u.mutex == t.mutex && u.mutexWoken == t.mutexWoken
    requires forall id: Pid :: Queued(u, id) <==> Queued(t, id)
    ensures MutexAwake(u)
  {
  }

  // ---------------------------------------------------------------- the private semaphores

  /** Passing the private semaphore: through at a value above 0, and otherwise asleep in its queue. */
  lemma PassesExactly(t: Table, s: Step, i: nat)
    requires Awake(t) && Enabled(t, s) && (s == PrivateWait(i) || s == PrivateResume(i))
    ensures var u, p := Next(t, s), t.private[i];
            && u.seat == t.seat && u.mutex == t.mutex && u.mutexWoken == t.mutexWoken && u.adder == t.adder
            && u.privateWoken == t.privateWoken - {i}
            && if p.value >= 1
               then
                 && u.place == t.place[i := Dining]
                 && u.private == t.private[i := Semaphores.Sem(p.value - 1, [], false)]
               else u.place == t.place[i := PrivateQueued] && u.private == t.private[i := Semaphores.Sem(0, [i], false)]
  {
    assert PrivateAwake(t, i) && t.private[i].queue == [] && [] + [i] == [i];
  }

  lemma PassKept(t: Table, s: Step, i: nat, j: nat)
    requires Awake(t) && Enabled(t, s) && (s == PrivateWait(i) || s == PrivateResume(i)) && j < |t.seat|
    ensures PrivateAwake(Next(t, s), j)
  {
    PassesExactly(t, s, i);
    assert PrivateAwake(t, i) && PrivateAwake(t, j);
  }

  lemma CheckKept(t: Table, c: nat, j: nat)
    requires Shaped(t) && c < |t.seat| && j < |t.seat| && PrivateAwake(t, c) && PrivateAwake(t, j)
    ensures PrivateAwake(Check(t, c), j)
  {
    assert [c][1..] == [];
  }

  /** A turn inside the mutex. */
  lemma TurnKeepsAwake(t: Table, i: nat, j: nat)
    requires Awake(t) && ProgressInv(t) && Enabled(t, Advance(i)) && j < |t.seat|
    ensures PrivateAwake(Next(t, Advance(i)), j)
  {
    var n := |t.seat|;
    assert PrivateAwake(t, i) && PrivateAwake(t, j) && SeatMatchesPlace(t, i);
    match t.place[i]
    case TakeIn =>
    case TakeHungry => CheckKept(t, i, j);
    case PutIn =>
    case PutThinking =>
      assert PrivateAwake(t, Left(n, i));
      CheckKept(t, Left(n, i), j);
    case PutLeft =>
      assert PrivateAwake(t, Right(n, i));
      CheckKept(t, Right(n, i), j);
    case _ =>
  }

  // ---------------------------------------------------------------- every step

  lemma SeatsKept(t: Table, u: Table)
    requires Awake(t) && Shaped(u) && u.private == t.private && u.privateWoken == t.privateWoken && |u.seat| == |t.seat|
    requires forall j: nat | j < |t.seat| ::
               && (u.place[j].PrivateQueued? <==> t.place[j].PrivateQueued?)
               && (u.seat[j].Eating? && Passing(u.place[j]) ==> t.seat[j].Eating? && Passing(t.place[j]))
    ensures forall j: nat | j < |u.seat| :: PrivateAwake(u, j)
  {
    forall j: nat | j < |u.seat|
      ensures PrivateAwake(u, j)
    {
      assert PrivateAwake(t, j);
    }
  }

  lemma AwakeKept(t: Table, s: Step)
    requires Awake(t) && MutexInv(t) && ProgressInv(t) && Enabled(t, s) && !s.AddSeat?
    ensures Awake(Next(t, s))
  {
    match s
    case MutexWait(i) => MutexStepAwake(t, s, i);
    case MutexResume(i) => MutexStepAwake(t, s, i);
    case Advance(i) => TurnAwake(t, i);
    case MutexPost(i) => PostStepAwake(t, s);
    case PrivateWait(i) => PassesAwake(t, s, i);
    case PrivateResume(i) => PassesAwake(t, s, i);
    case AddWait => AdderStepAwake(t, s);
    case AddResume => AdderStepAwake(t, s);
    case AddPost => PostStepAwake(t, s);
    case _ =>
  }

  lemma MutexStepAwake(t: Table, s: Step, i: nat)
    requires Awake(t) && MutexInv(t) && Enabled(t, s) && (s == MutexWait(i) || s == MutexResume(i))
    ensures Awake(Next(t, s))
  {
    EntersAwake(t, s, i);
    EntersExactly(t, s, i);
    SeatsKept(t, Next(t, s));
  }

  lemma AdderStepAwake(t: Table, s: Step)
    requires Awake(t) && MutexInv(t) && Enabled(t, s) && (s == AddWait || s == AddResume)
    ensures Awake(Next(t, s))
  {
    AdderEntersAwake(t, s);
    AdderEntersExactly(t, s);
    SeatsKept(t, Next(t, s));
  }

  lemma PostStepAwake(t: Table, s: Step)
    requires Awake(t) && MutexInv(t) && Enabled(t, s) && (s.MutexPost? || s.AddPost?)
    ensures Awake(Next(t, s))
  {
    PostAwake(t, s);
    ReleaseWakes(t);
    SeatsKept(t, Next(t, s));
  }

  lemma TurnAwake(t: Table, i: nat)
    requires Awake(t) && ProgressInv(t) && Enabled(t, Advance(i))
    ensures Awake(Next(t, Advance(i)))
  {
    var u := Next(t, Advance(i));
    SameMutex(t, u);
    forall j: nat | j < |u.seat|
      ensures PrivateAwake(u, j)
    {
      TurnKeepsAwake(t, i, j);
    }
  }

  lemma PassesAwake(t: Table, s: Step, i: nat)
    requires Awake(t) && Enabled(t, s) && (s == PrivateWait(i) || s == PrivateResume(i))
    ensures Awake(Next(t, s))
  {
    var u := Next(t, s);
    PassesExactly(t, s, i);
    SameMutex(t, u);
    forall j: nat | j < |u.seat|
      ensures PrivateAwake(u, j)
    {
      PassKept(t, s, i, j);
    }
  }

  predicate NoSeatAdded(steps: seq<Step>) {
    forall i | 0 <= i < |steps| :: !steps[i].AddSeat?
  }

  /** The adder waits for a seat that is there, and has not failed. */
  predicate AdderSound(t: Table) {
    !t.adder.AddFailed? && (t.adder.AddQueued? || t.adder.AddIn? ==> |t.seat| < MAX_PH)
  }

  lemma AdderSoundKept(t: Table, s: Step)
    requires AdderSound(t) && Enabled(t, s) && !s.AddSeat?
    ensures AdderSound(Next(t, s)) && |Next(t, s).seat| == |t.seat|
  {
  }

  lemma LaidAwake(n: nat, value: nat)
    requires n <= MAX_PH
    ensures Awake(Laid(n, value)) && AdderSound(Laid(n, value))
  {
  }

  lemma {:induction false} AwakeAlongRun(t: Table, steps: seq<Step>)
    requires Awake(t) && MutexInv(t) && ProgressInv(t) && AdderSound(t) && AllEnabled(t, steps) && NoSeatAdded(steps)
    ensures var u := Run(t, steps);
            Awake(u) && MutexInv(u) && ProgressInv(u) && AdderSound(u) && |u.seat| == |t.seat|
    decreases |steps|
  {
    if steps == [] {
    } else {
      var s := steps[0];
      AwakeKept(t, s);
      MutexKept(t, s);
      ProgressKept(t, s);
      AdderSoundKept(t, s);
      assert NoSeatAdded(steps[1..]);
      AwakeAlongRun(Next(t, s), steps[1..]);
    }
  }

  // ---------------------------------------------------------------- nobody forgotten, no deadlock

  /** On any run over a fixed table, whatever the private semaphores are opened with: who waits for the
      mutex stands in its queue or has been woken, while it is free somebody has been, and a
      philosopher that is marked EATING, or has a value to take, does not sleep on its own semaphore. */
  lemma NobodyIsForgotten(n: nat, value: nat, steps: seq<Step>)
    requires n <= 10 && AllEnabled(Laid(n, value), steps) && NoSeatAdded(steps)
    ensures var t := Run(Laid(n, value), steps);
            && Shaped(t) && MutexAwake(t)
            && forall i: nat
                 | i < |t.seat| && t.place[i].PrivateQueued? && (t.seat[i].Eating? || t.private[i].value > 0) ::
                 Enabled(t, PrivateResume(i))
  {
    LaidInv(n, value);
    LaidAwake(n, value);
    AwakeAlongRun(Laid(n, value), steps);
    var t := Run(Laid(n, value), steps);
    forall i: nat | i < |t.seat| && t.place[i].PrivateQueued? && (t.seat[i].Eating? || t.private[i].value > 0)
      ensures Enabled(t, PrivateResume(i))
    {
      assert PrivateAwake(t, i);
    }
  }

  /** Somebody other than a new adder can go on. */
  ghost predicate Moves(t: Table) {
    exists s: Step :: Enabled(t, s) && !s.AddWait?
  }

  lemma MovesBy(t: Table, s: Step)
    requires Enabled(t, s) && !s.AddWait?
    ensures Moves(t)
  {
  }

  /** While somebody is inside the mutex, that one can go on. */
  lemma InsideMoves(t: Table, h: Pid)
    requires MutexInv(t) && AdderSound(t) && Holds(t, h)
    ensures Moves(t)
  {
    if h < |t.seat| {
      var s := if t.place[h].TakeChecked? || t.place[h].PutRight? then MutexPost(h) else Advance(h);
      MovesBy(t, s);
    } else if t.adder.AddIn? {
      MovesBy(t, AddSeat(true, 1));
    } else {
      MovesBy(t, AddPost);
    }
  }

  /** Nobody is inside the mutex, but somebody waits for it: one who was woken can go on. */
  lemma WokenMoves(t: Table, id: Pid)
    requires MutexInv(t) && MutexAwake(t) && t.mutex.value == 1 && Queued(t, id)
    ensures Moves(t)
  {
    assert id in t.mutex.queue || id in t.mutexWoken;
    assert t.mutexWoken != {};
    var w :| w in t.mutexWoken;
    assert Queued(t, w);
    MovesBy(t, if w < |t.seat| then MutexResume(w) else AddResume);
  }

  /** Nobody is inside the mutex or waits for it: whoever is not asleep can go on, and one of those who
      are marked EATING is not. */
  lemma OthersMove(t: Table)
    requires Awake(t) && MutexInv(t) && ProgressInv(t) && t.mutex.value == 1 && |t.seat| >= 1
    requires forall id: Pid :: !Holds(t, id) && !Queued(t, id)
    ensures Moves(t)
  {
    var n := |t.seat|;
    assert !Holds(t, 0) && !Queued(t, 0) && PrivateAwake(t, 0);
    match t.place[0]
    case Away => MovesBy(t, MutexWait(0));
    case Dining => MovesBy(t, MutexWait(0));
    case AtPrivate => MovesBy(t, PrivateWait(0));
    case PrivateQueued =>
      var e := if t.seat[0].Eating? then 0 else if t.seat[Left(n, 0)].Eating? then Left(n, 0) else Right(n, 0);
      assert SeatMatchesPlace(t, 0);
      assert Served(t, 0) by {
        assert !Holds(t, Left(n, 0)) && !Holds(t, Right(n, 0));
      }
      EatingMoves(t, e);
    case _ =>
  }

  lemma EatingMoves(t: Table, e: nat)
    requires Awake(t) && MutexInv(t) && ProgressInv(t) && e < |t.seat| && t.seat[e].Eating? && t.mutex.value == 1
    requires !Holds(t, e) && !Queued(t, e)
    ensures Moves(t)
  {
    assert SeatMatchesPlace(t, e) && PrivateAwake(t, e);
    match t.place[e]
    case Dining => MovesBy(t, MutexWait(e));
    case AtPrivate => MovesBy(t, PrivateWait(e));
    case PrivateQueued => MovesBy(t, PrivateResume(e));
    case _ =>
  }

  /** The table never deadlocks: on any run over a fixed table of one seat or more, whatever the private
      semaphores are opened with, some step other than that of a new adder is possible. */
  lemma NeverDeadlocked(n: nat, value: nat, steps: seq<Step>)
    requires 1 <= n <= 10 && AllEnabled(Laid(n, value), steps) && NoSeatAdded(steps)
    ensures Moves(Run(Laid(n, value), steps))
  {
    LaidInv(n, value);
    LaidAwake(n, value);
    AwakeAlongRun(Laid(n, value), steps);
    var t := Run(Laid(n, value), steps);
    if t.mutex.value == 0 {
      var h: Pid :| Holds(t, h);
      InsideMoves(t, h);
    } else if id: Pid :| Queued(t, id) {
      WokenMoves(t, id);
    } else {
      forall id: Pid
        ensures !Holds(t, id)
      {
      }
      OthersMove(t);
    }
  }
}
