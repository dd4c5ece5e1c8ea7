// Dining philosophers over the kernel semaphores (Userland/SampleCodeModule/philo.c:48-125).
//
// One step of the model is one system call up to its grant or block, one assignment to the
// shared table, or one checkAvailability; all but the system calls happen with `mutex` held.
module PhilosophersSpec {
  import opened Arithmetic
  import opened PidQueue
  import opened SemaphoreSpec

  const MAX_PH: nat := 10
  const MAIN: Pid := 10 // the process that adds seats; philosophers are 0 .. MAX_PH - 1

  datatype Seat = Thinking | Eating | Hungry

  /** Where a philosopher stands in takeChopsticks or putChopsticks. */
  datatype Place =
    | Away             // before takeChopsticks
    | TakeQueued       // blocked at line 87
    | TakeIn           // past line 87
    | TakeHungry       // past line 89
    | TakeChecked      // past line 90
    | AtPrivate        // past line 92
    | PrivateQueued    // blocked at line 93
    | Dining           // past line 93
    | PutQueued        // blocked at line 99
    | PutIn            // past line 99
    | PutThinking      // past line 101
    | PutLeft          // past line 103
    | PutRight         // past line 104

  datatype Adder = Free | AddQueued | AddIn | AddDone | AddFailed

  datatype Table = Table(
    seat: seq<Seat>,
    place: seq<Place>,
    mutex: Sem,
    mutexWoken: set<Pid>,
    private: seq<Sem>,
    privateWoken: set<Pid>,
    adder: Adder)

  function Left(n: nat, i: nat): nat
    requires i < n
  {
    if i == 0 then n - 1 else i - 1
  }

  function Right(n: nat, i: nat): nat
    requires i < n
  {
    if i == n - 1 then 0 else i + 1
  }

  predicate Inside(p: Place) {
    p.TakeIn? || p.TakeHungry? || p.TakeChecked? || p.PutIn? || p.PutThinking? || p.PutLeft? || p.PutRight?
  }

  /** Past the private semaphore and not yet thinking again. */
  predicate PastPrivate(p: Place) {
    p.Dining? || p.PutQueued? || p.PutIn?
  }

  predicate Shaped(t: Table) {
    |t.place| == |t.seat| == |t.private| <= MAX_PH
  }

  /** The marks after checkAvailability, and whether it posted the private semaphore. */
  function CheckSeats(seats: seq<Seat>, i: nat): (r: (seq<Seat>, bool))
    requires i < |seats|
    ensures |r.0| == |seats|
  {
    var n := |seats|;
    if seats[i].Hungry? && !seats[Left(n, i)].Eating? && !seats[Right(n, i)].Eating? then (seats[i := Eating], true)
    else (seats, false)
  }

  predicate EatsBeside(seats: seq<Seat>, i: nat)
    requires i < |seats|
  {
    Left(|seats|, i) != i && seats[i].Eating? && seats[Left(|seats|, i)].Eating?
  }

  /** No two distinct neighbours are EATING. */
  predicate Apart(seats: seq<Seat>) {
    forall i: nat | i < |seats| :: !EatsBeside(seats, i)
  }

  predicate SeatServed(seats: seq<Seat>, i: nat)
    requires i < |seats|
  {
    seats[i].Hungry? ==> seats[Left(|seats|, i)].Eating? || seats[Right(|seats|, i)].Eating?
  }

  lemma CheckApart(seats: seq<Seat>, c: nat)
    requires c < |seats| && Apart(seats)
    ensures Apart(CheckSeats(seats, c).0)
  {
    var u := CheckSeats(seats, c).0;
    forall i: nat | i < |u|
      ensures !EatsBeside(u, i)
    {
      assert !EatsBeside(seats, i);
    }
  }

  lemma CheckServesAll(seats: seq<Seat>, c: nat)
    requires c < |seats|
    ensures SeatServed(CheckSeats(seats, c).0, c)
    ensures forall i: nat | i < |seats| && SeatServed(seats, i) :: SeatServed(CheckSeats(seats, c).0, i)
  {
  }

  /** At a round table the neighbours of seat `i` are the seats one before and one after it. */
  lemma NeighboursAreRound(n: nat, i: nat)
    requires i < n
    ensures Left(n, i) == (i + n - 1) % n && Right(n, i) == (i + 1) % n
  {
    RoundStep(n, i);
  }

  lemma RoundStep(n: nat, i: nat)
    requires i < n
    ensures (i + 1) % n == if i + 1 == n then 0 else i + 1
    ensures (i + n - 1) % n == if i == 0 then n - 1 else i - 1
  {
    if i + 1 == n { DivModUnique(i + 1, n, 1, 0); } else { DivModUnique(i + 1, n, 0, i + 1); }
    if i == 0 { DivModUnique(n - 1, n, 0, n - 1); } else { DivModUnique(i + n - 1, n, 1, i - 1); }
  }

  /** Seats `i` and the next one round the table are two, and both EATING. */
  predicate EatTogether(seats: seq<Seat>, i: nat)
    requires i < |seats|
  {
    (i + 1) % |seats| != i && seats[i].Eating? && seats[(i + 1) % |seats|].Eating?
  }

  lemma ApartExactly(seats: seq<Seat>)
    ensures Apart(seats) <==> forall i: nat | i < |seats| :: !EatTogether(seats, i)
  {
    var n := |seats|;
    forall i: nat | i < n
      ensures EatsBeside(seats, i) ==> EatTogether(seats, Left(n, i))
      ensures EatTogether(seats, i) ==> EatsBeside(seats, Right(n, i))
    {
      NeighboursAreRound(n, i);
      NeighboursAreRound(n, Left(n, i));
    }
  }

  /** Seat `i` is HUNGRY and neither seat beside it EATING. */
  predicate Grantable(seats: seq<Seat>, i: nat)
    requires i < |seats|
  {
    && seats[i] == Hungry
    && seats[(i + |seats| - 1) % |seats|] != Eating && seats[(i + 1) % |seats|] != Eating
  }

  /** A check makes a grantable seat EATING and posts its semaphore; any other it leaves alone. */
  lemma CheckExactly(seats: seq<Seat>, i: nat)
    requires i < |seats|
    ensures CheckSeats(seats, i) == if Grantable(seats, i) then (seats[i := Eating], true) else (seats, false)
  {
    NeighboursAreRound(|seats|, i);
  }

  lemma ServedExactly(seats: seq<Seat>, i: nat)
    requires i < |seats|
    ensures SeatServed(seats, i) <==> !Grantable(seats, i)
  {
    NeighboursAreRound(|seats|, i);
  }

  /** checkAvailability. */
  function Check(t: Table, i: nat): Table
    requires Shaped(t) && i < |t.seat|
  {
    var c := CheckSeats(t.seat, i);
    if c.1 then
      var r := PostSem(t.private[i]);
      t.(seat := c.0, private := t.private[i := r.0],
         privateWoken := if r.1.Woke? then t.privateWoken + {i} else t.privateWoken)
    else t
  }

  datatype Step =
    | MutexWait(i: nat)
    | MutexResume(i: nat)
    | Advance(i: nat)      // the next statement with the mutex held
    | MutexPost(i: nat)
    | PrivateWait(i: nat)
    | PrivateResume(i: nat)
    | AddWait
    | AddResume
    | AddSeat(ok: bool, value: nat)
    | AddPost

  predicate Enabled(t: Table, s: Step) {
    && Shaped(t)
    && match s
       case MutexWait(i) => i < |t.seat| && !t.mutex.locked && (t.place[i].Away? || t.place[i].Dining?)
       case MutexResume(i) => i < |t.seat| && i in t.mutexWoken && (t.place[i].TakeQueued? || t.place[i].PutQueued?)
       case Advance(i) => i < |t.seat| && (t.place[i].TakeIn? || t.place[i].TakeHungry? || t.place[i].PutIn?
                                           || t.place[i].PutThinking? || t.place[i].PutLeft?)
       case MutexPost(i) => i < |t.seat| && !t.mutex.locked && (t.place[i].TakeChecked? || t.place[i].PutRight?)
       case PrivateWait(i) => i < |t.seat| && !t.private[i].locked && t.place[i].AtPrivate?
       case PrivateResume(i) => i < |t.seat| && i in t.privateWoken && t.place[i].PrivateQueued?
       case AddWait => !t.mutex.locked && t.adder.Free? && |t.seat| < MAX_PH
       case AddResume => MAIN in t.mutexWoken && t.adder.AddQueued?
       case AddSeat(_, _) => t.adder.AddIn? && |t.seat| < MAX_PH
       case AddPost => !t.mutex.locked && t.adder.AddDone?
  }

  /** The result of a mutex wait is not looked at: a refusal goes on as if granted. */
  function EnterMutex(t: Table, i: nat, r: (Sem, Outcome)): Table
    requires Shaped(t) && i < |t.seat|
  {
    var taking := t.place[i].Away? || t.place[i].TakeQueued?;
    var there := if r.1.Blocked? then (if taking then TakeQueued else PutQueued) else if taking then TakeIn else PutIn;
    t.(mutex := r.0, mutexWoken := t.mutexWoken - {i}, place := t.place[i := there])
  }

  function EnterPrivate(t: Table, i: nat, r: (Sem, Outcome)): Table
    requires Shaped(t) && i < |t.seat|
  {
    t.(private := t.private[i := r.0], privateWoken := t.privateWoken - {i},
       place := t.place[i := if r.1.Blocked? then PrivateQueued else Dining])
  }

  function EnterAdder(t: Table, r: (Sem, Outcome)): Table {
    t.(mutex := r.0, mutexWoken := t.mutexWoken - {MAIN}, adder := if r.1.Blocked? then AddQueued else AddIn)
  }

  function Release(t: Table): Table {
    var r := PostSem(t.mutex);
    t.(mutex := r.0, mutexWoken := match r.1 case Nobody => t.mutexWoken case Woke(q) => t.mutexWoken + {q})
  }

  function AdvanceInside(t: Table, i: nat): Table
    requires Enabled(t, Advance(i))
  {
    var n := |t.seat|;
    match t.place[i]
    case TakeIn => t.(seat := t.seat[i := Hungry], place := t.place[i := TakeHungry])
    case TakeHungry => Check(t, i).(place := t.place[i := TakeChecked])
    case PutIn => t.(seat := t.seat[i := Thinking], place := t.place[i := PutThinking])
    case PutThinking => Check(t, Left(n, i)).(place := t.place[i := PutLeft])
    case _ => Check(t, Right(n, i)).(place := t.place[i := PutRight])
  }

  function Next(t: Table, s: Step): Table
    requires Enabled(t, s)
  {
    match s
    case MutexWait(i) => EnterMutex(t, i, WaitSem(t.mutex, i))
    case MutexResume(i) => EnterMutex(t, i, ResumeSem(t.mutex, i))
    case Advance(i) => AdvanceInside(t, i)
    case MutexPost(i) => Release(t).(place := t.place[i := if t.place[i].TakeChecked? then AtPrivate else Away])
    case PrivateWait(i) => EnterPrivate(t, i, WaitSem(t.private[i], i))
    case PrivateResume(i) => EnterPrivate(t, i, ResumeSem(t.private[i], i))
    case AddWait => EnterAdder(t, WaitSem(t.mutex, MAIN))
    case AddResume => EnterAdder(t, ResumeSem(t.mutex, MAIN))
    case AddSeat(ok, value) =>
      // a failed open returns without giving the mutex back
      if ok then
        t.(seat := t.seat + [Thinking], place := t.place + [Away], private := t.private + [OpenSem(value)], adder := AddDone)
      else t.(adder := AddFailed)
    case AddPost => Release(t).(adder := Free)
  }

  /** Philosophers sit down one by one, each private semaphore opened with `value`. */
  function Laid(n: nat, value: nat): Table {
    Table(seq(n, _ => Thinking), seq(n, _ => Away), OpenSem(1), {}, seq(n, _ => OpenSem(value)), {}, Free)
  }

  // ---------------------------------------------------------------- the mutex

  predicate Holds(t: Table, id: Pid)
    requires Shaped(t)
  {
    if id < |t.seat| then Inside(t.place[id]) else id == MAIN && (t.adder.AddIn? || t.adder.AddDone? || t.adder.AddFailed?)
  }

  predicate Queued(t: Table, id: Pid)
    requires Shaped(t)
  {
    if id < |t.seat| then t.place[id].TakeQueued? || t.place[id].PutQueued? else id == MAIN && t.adder.AddQueued?
  }

  ghost predicate MutexInv(t: Table) {
    && Shaped(t)
    && !t.mutex.locked && t.mutex.value <= 1
    && (forall a: Pid, b: Pid | Holds(t, a) && Holds(t, b) :: a == b)
    && (t.mutex.value == 0 <==> exists a: Pid :: Holds(t, a))
    && DistinctPids(t.mutex.queue)
    && (forall q | q in t.mutex.queue :: Queued(t, q) && q !in t.mutexWoken)
    && (forall q | q in t.mutexWoken :: Queued(t, q))
  }

  lemma MutexHasRoom(t: Table, p: Pid)
    requires MutexInv(t) && t.mutex.value == 0 && p !in t.mutex.queue && p <= MAIN && !Holds(t, p)
    ensures |t.mutex.queue| < PROCESS_LIMIT
  {
    var h: Pid :| Holds(t, h);
    assert h <= MAIN && h != p && h !in t.mutex.queue;
    RoomWithoutTwo(t.mutex.queue, UpTo(MAIN + 1), p, h);
  }

  lemma RoomWithoutTwo(q: seq<Pid>, everyone: set<Pid>, p: Pid, h: Pid)
    requires DistinctPids(q) && |everyone| == PROCESS_LIMIT + 1
    requires p in everyone && h in everyone && p != h && p !in q && h !in q
    requires forall x | x in q :: x in everyone
    ensures |q| < PROCESS_LIMIT
  {
    var others := everyone - {p, h};
    assert everyone == others + {p, h};
    QueueFits(q, others);
  }

  function UpTo(n: nat): (r: set<Pid>)
    ensures |r| == n && forall x: Pid :: x in r <==> x < n
  {
    if n == 0 then {} else UpTo(n - 1) + {n - 1}
  }

  /** Every step keeps the mutex sound: one holder at most, a value of 1 exactly when there is
      none, nobody refused for a full queue. */
  lemma MutexKept(t: Table, s: Step)
    requires MutexInv(t) && Enabled(t, s)
    ensures MutexInv(Next(t, s))
  {
    match s
    case MutexWait(i) => EnterKeeps(t, i, WaitSem(t.mutex, i));
    case MutexResume(i) => EnterKeeps(t, i, ResumeSem(t.mutex, i));
    case Advance(i) => AdvanceKeeps(t, i);
    case MutexPost(i) => PostKeeps(t, s, i);
    case PrivateWait(i) => SamePlaces(t, Next(t, s));
    case PrivateResume(i) => SamePlaces(t, Next(t, s));
    case AddWait => AdderEnterKeeps(t, WaitSem(t.mutex, MAIN));
    case AddResume => AdderEnterKeeps(t, ResumeSem(t.mutex, MAIN));
    case AddSeat(ok, value) => SamePlaces(t, Next(t, s));
    case AddPost => PostKeeps(t, s, MAIN);
  }

  /** Steps that move nobody in or out of the mutex or its queue. */
  lemma SamePlaces(t: Table, u: Table)
    requires MutexInv(t) && Shaped(u) && u.mutex == t.mutex && u.mutexWoken == t.mutexWoken
    requires forall id: Pid :: (Holds(u, id) <==> Holds(t, id)) && (Queued(u, id) <==> Queued(t, id))
    ensures MutexInv(u)
  {
  }

  lemma AdvanceKeeps(t: Table, i: nat)
    requires MutexInv(t) && Enabled(t, Advance(i))
    ensures MutexInv(Next(t, Advance(i)))
  {
    SamePlaces(t, Next(t, Advance(i)));
  }

  lemma EnterKeeps(t: Table, i: nat, r: (Sem, Outcome))
    requires MutexInv(t) && i < |t.seat| && i !in t.mutex.queue && !Holds(t, i)
    requires r == WaitSem(t.mutex, i) || r == ResumeSem(t.mutex, i)
    requires t.place[i].Away? || t.place[i].Dining? || Queued(t, i)
    ensures MutexInv(EnterMutex(t, i, r))
  {
    var u := EnterMutex(t, i, r);
    if t.mutex.value == 0 {
      MutexHasRoom(t, i);
      var h: Pid :| Holds(t, h);
      forall a: Pid ensures Holds(u, a) <==> Holds(t, a) {}
      assert Holds(u, h);
    } else {
      assert forall a: Pid :: !Holds(t, a);
      assert Holds(u, i);
      assert forall a: Pid | a != i :: !Holds(u, a) by {
        forall a: Pid | a != i ensures !Holds(u, a) { assert !Holds(t, a); }
      }
    }
  }

  lemma AdderEnterKeeps(t: Table, r: (Sem, Outcome))
    requires MutexInv(t) && MAIN !in t.mutex.queue && (t.adder.Free? || t.adder.AddQueued?)
    requires r == WaitSem(t.mutex, MAIN) || r == ResumeSem(t.mutex, MAIN)
    ensures MutexInv(EnterAdder(t, r))
  {
    var u := EnterAdder(t, r);
    if t.mutex.value == 0 {
      MutexHasRoom(t, MAIN);
      var h: Pid :| Holds(t, h);
      forall a: Pid ensures Holds(u, a) <==> Holds(t, a) {}
      assert Holds(u, h);
    } else {
      assert forall a: Pid :: !Holds(t, a);
      assert Holds(u, MAIN);
      assert forall a: Pid | a != MAIN :: !Holds(u, a) by {
        forall a: Pid | a != MAIN ensures !Holds(u, a) { assert !Holds(t, a); }
      }
    }
  }

  lemma PostKeeps(t: Table, s: Step, id: Pid)
    requires MutexInv(t) && Enabled(t, s) && ((s == MutexPost(id) && id < |t.seat|) || (s == AddPost && id == MAIN))
    ensures MutexInv(Next(t, s))
  {
    var u := Next(t, s);
    assert Holds(t, id) && !Holds(u, id);
    forall a: Pid | a != id
      ensures Holds(u, a) <==> Holds(t, a)
      ensures Queued(u, a) <==> Queued(t, a)
    {
    }
    assert !Queued(t, id) && t.mutex.value == 0;
    ReleasedQueue(t);
    NobodyHolds(t, u, id);
  }

  /** What a post does to the queue of the mutex and to those woken from it. */
  lemma ReleasedQueue(t: Table)
    requires DistinctPids(t.mutex.queue) && (forall q | q in t.mutex.queue :: q !in t.mutexWoken)
    ensures var u := Release(t);
            && DistinctPids(u.mutex.queue)
            && (forall q | q in u.mutex.queue :: q in t.mutex.queue && q !in u.mutexWoken)
            && (forall q | q in u.mutexWoken :: q in t.mutexWoken || q in t.mutex.queue)
  {
    var q := t.mutex.queue;
    if q != [] {
      forall i | 0 <= i < |q[1..]|
        ensures q[1..][i] == q[i + 1] && q[i + 1] in q && q[i + 1] != q[0]
      {
      }
      assert q[0] in q;
    }
  }

  lemma NobodyHolds(t: Table, u: Table, id: Pid)
    requires Shaped(t) && Shaped(u) && (forall a: Pid, b: Pid | Holds(t, a) && Holds(t, b) :: a == b)
    requires Holds(t, id) && !Holds(u, id) && forall a: Pid | a != id :: Holds(u, a) <==> Holds(t, a)
    ensures forall a: Pid :: !Holds(u, a)
  {
    forall a: Pid
      ensures !Holds(u, a)
    {
      assert Holds(t, a) ==> a == id;
    }
  }
}
