// Exclusion and progress of the dining philosophers (Userland/SampleCodeModule/philo.c).
module Philosophers {
  import Semaphores = SemaphoreSpec
  import opened PhilosophersSpec

  // ---------------------------------------------------------------- exclusion in the shared table

  /** No two distinct neighbours are EATING. */
  predicate NoNeighboursEating(t: Table) {
    Apart(t.seat)
  }

  lemma SidesAgree(n: nat, i: nat)
    requires i < n
    ensures Left(n, Right(n, i)) == i && Right(n, Left(n, i)) == i
  {
  }

  lemma CheckKeepsExclusion(t: Table, i: nat)
    requires Shaped(t) && i < |t.seat| && NoNeighboursEating(t)
    ensures NoNeighboursEating(Check(t, i))
  {
    CheckApart(t.seat, i);
  }

  lemma MarkKeepsApart(seats: seq<Seat>, i: nat, s: Seat)
    requires i < |seats| && Apart(seats) && !s.Eating?
    ensures Apart(seats[i := s])
  {
    var marked := seats[i := s];
    forall j: nat | j < |marked|
      ensures !EatsBeside(marked, j)
    {
      assert !EatsBeside(seats, j);
    }
  }

  /** Exclusion in the table survives every step, seats being added included. */
  lemma ExclusionKept(t: Table, s: Step)
    requires Enabled(t, s) && NoNeighboursEating(t)
    ensures NoNeighboursEating(Next(t, s))
  {
    match s {
      case Advance(i) =>
        match t.place[i] {
          case TakeHungry => CheckKeepsExclusion(t, i);
          case PutThinking => CheckKeepsExclusion(t, Left(|t.seat|, i));
          case PutLeft => CheckKeepsExclusion(t, Right(|t.seat|, i));
          case TakeIn => MarkKeepsApart(t.seat, i, Hungry);
          case PutIn => MarkKeepsApart(t.seat, i, Thinking);
        }
      case AddSeat(ok, value) =>
        var u := Next(t, s);
        if ok {
          forall j: nat | j < |u.seat|
            ensures !EatsBeside(u.seat, j)
          {
            if 0 < j < |t.seat| { assert !EatsBeside(t.seat, j); }
          }
        }
      case _ =>
    }
  }

  // ---------------------------------------------------------------- no hungry philosopher forgotten

  /** A philosopher is marked THINKING outside its turn, HUNGRY just after asking, and HUNGRY or
      EATING from then until it puts the chopsticks down. */
  predicate SeatMatchesPlace(t: Table, i: nat)
    requires Shaped(t) && i < |t.seat|
  {
    match t.place[i]
    case Away => t.seat[i].Thinking?
    case TakeQueued => t.seat[i].Thinking?
    case TakeIn => t.seat[i].Thinking?
    case TakeHungry => t.seat[i].Hungry?
    case PutThinking => t.seat[i].Thinking?
    case PutLeft => t.seat[i].Thinking?
    case PutRight => t.seat[i].Thinking?
    case _ => !t.seat[i].Thinking?
  }

  predicate Served(t: Table, j: nat)
    requires j < |t.seat|
  {
    SeatServed(t.seat, j)
  }

  /** Philosopher `j` is still to be looked at by the one inside the mutex. */
  predicate Pending(t: Table, j: nat)
    requires Shaped(t) && j < |t.seat|
  {
    var n := |t.seat|;
    || t.place[j].TakeHungry?
    || t.place[Right(n, j)].PutThinking?
    || t.place[Left(n, j)].PutThinking?
    || t.place[Left(n, j)].PutLeft?
  }

  predicate ProgressInv(t: Table) {
    && Shaped(t)
    && (forall i: nat | i < |t.seat| :: SeatMatchesPlace(t, i))
    && (forall j: nat | j < |t.seat| :: Served(t, j) || Pending(t, j))
  }

  lemma CheckServes(t: Table, i: nat)
    requires Shaped(t) && i < |t.seat|
    ensures Served(Check(t, i), i)
    ensures forall j: nat | j < |t.seat| && Served(t, j) :: Served(Check(t, i), j)
    ensures forall j: nat | j < |t.seat| && j != i :: Check(t, i).seat[j] == t.seat[j]
    ensures Check(t, i).seat[i] == t.seat[i] || (t.seat[i].Hungry? && Check(t, i).seat[i].Eating?)
  {
  }

  lemma AloneInside(t: Table, i: nat)
    requires MutexInv(t) && Enabled(t, Advance(i))
    ensures Alone(t, i)
  {
    assert Holds(t, i);
    forall j: nat | j < |t.seat| && j != i
      ensures !Inside(t.place[j])
    {
      assert Holds(t, j) ==> i == j;
    }
  }

  /** Nobody but `i` is inside the mutex. */
  predicate Alone(t: Table, i: nat)
    requires Shaped(t) && i < |t.seat|
  {
    forall j: nat | j < |t.seat| && j != i :: !Inside(t.place[j])
  }

  lemma AskTurn(t: Table, i: nat, j: nat)
    requires ProgressInv(t) && Enabled(t, Advance(i)) && Alone(t, i) && j < |t.seat|
    requires t.place[i].TakeIn? || t.place[i].TakeHungry?
    ensures var u := Next(t, Advance(i)); SeatMatchesPlace(u, j) && (Served(u, j) || Pending(u, j))
  {
    var n := |t.seat|;
    assert SeatMatchesPlace(t, i) && SeatMatchesPlace(t, j) && (Served(t, j) || Pending(t, j));
    CheckServes(t, i);
  }

  lemma LeaveTurn(t: Table, i: nat, j: nat)
    requires ProgressInv(t) && Enabled(t, Advance(i)) && Alone(t, i) && j < |t.seat| && t.place[i].PutIn?
    ensures var u := Next(t, Advance(i)); SeatMatchesPlace(u, j) && (Served(u, j) || Pending(u, j))
  {
    assert SeatMatchesPlace(t, i) && SeatMatchesPlace(t, j) && (Served(t, j) || Pending(t, j));
    SidesAgree(|t.seat|, i);
    SidesAgree(|t.seat|, j);
  }

  lemma LeftTurn(t: Table, i: nat, j: nat)
    requires ProgressInv(t) && Enabled(t, Advance(i)) && Alone(t, i) && j < |t.seat| && t.place[i].PutThinking?
    ensures var u := Next(t, Advance(i)); SeatMatchesPlace(u, j) && (Served(u, j) || Pending(u, j))
  {
    assert SeatMatchesPlace(t, i) && SeatMatchesPlace(t, j) && (Served(t, j) || Pending(t, j));
    SidesAgree(|t.seat|, i);
    SidesAgree(|t.seat|, j);
    CheckServes(t, Left(|t.seat|, i));
  }

  lemma RightTurn(t: Table, i: nat, j: nat)
    requires ProgressInv(t) && Enabled(t, Advance(i)) && Alone(t, i) && j < |t.seat| && t.place[i].PutLeft?
    ensures var u := Next(t, Advance(i)); SeatMatchesPlace(u, j) && (Served(u, j) || Pending(u, j))
  {
    var c, u := Right(|t.seat|, i), Next(t, Advance(i));
    assert SeatMatchesPlace(t, i) && SeatMatchesPlace(t, j) && (Served(t, j) || Pending(t, j));
    SidesAgree(|t.seat|, i);
    SidesAgree(|t.seat|, j);
    CheckServes(t, c);
    assert u.seat == Check(t, c).seat && u.place == t.place[i := PutRight];
    assert Pending(t, j) ==> j == c;
  }

  lemma TurnKept(t: Table, i: nat)
    requires ProgressInv(t) && MutexInv(t) && Enabled(t, Advance(i))
    ensures ProgressInv(Next(t, Advance(i)))
  {
    var u := Next(t, Advance(i));
    AloneInside(t, i);
    forall j: nat | j < |t.seat|
      ensures SeatMatchesPlace(u, j) && (Served(u, j) || Pending(u, j))
    {
      match t.place[i] {
        case PutIn => LeaveTurn(t, i, j);
        case PutThinking => LeftTurn(t, i, j);
        case PutLeft => RightTurn(t, i, j);
        case _ => AskTurn(t, i, j);
      }
    }
  }

  /** Every step that leaves the number of seats alone keeps the progress invariant. */
  lemma ProgressKept(t: Table, s: Step)
    requires ProgressInv(t) && MutexInv(t) && Enabled(t, s) && !(s.AddSeat? && s.ok)
    ensures ProgressInv(Next(t, s))
  {
    match s {
      case Advance(i) => TurnKept(t, i);
      case _ => OthersKept(t, s);
    }
  }

  lemma OthersKept(t: Table, s: Step)
    requires ProgressInv(t) && Enabled(t, s) && !s.Advance? && !(s.AddSeat? && s.ok)
    ensures ProgressInv(Next(t, s))
  {
    var u := Next(t, s);
    assert u.seat == t.seat;
    forall j: nat | j < |t.seat|
      ensures SeatMatchesPlace(u, j) && (Served(u, j) || Pending(u, j))
    {
      assert SeatMatchesPlace(t, j) && (Served(t, j) || Pending(t, j));
    }
  }

  // ---------------------------------------------------------------- runs

  predicate AllEnabled(t: Table, steps: seq<Step>)
    decreases |steps|
  {
    steps == [] || (Enabled(t, steps[0]) && AllEnabled(Next(t, steps[0]), steps[1..]))
  }

  function Run(t: Table, steps: seq<Step>): Table
    requires AllEnabled(t, steps)
    decreases |steps|
  {
    if steps == [] then t else Run(Next(t, steps[0]), steps[1..])
  }

  predicate FixedTable(steps: seq<Step>) {
    forall i | 0 <= i < |steps| :: !(steps[i].AddSeat? && steps[i].ok)
  }

  lemma LaidInv(n: nat, value: nat)
    requires n <= MAX_PH
    ensures MutexInv(Laid(n, value)) && ProgressInv(Laid(n, value)) && NoNeighboursEating(Laid(n, value))
  {
  }

  lemma {:induction false} TableAlongRun(t: Table, steps: seq<Step>)
    requires MutexInv(t) && NoNeighboursEating(t) && AllEnabled(t, steps)
    ensures MutexInv(Run(t, steps)) && NoNeighboursEating(Run(t, steps))
    ensures ProgressInv(t) && FixedTable(steps) ==> ProgressInv(Run(t, steps))
    decreases |steps|
  {
    if steps == [] {
    } else {
      var s := steps[0];
      MutexKept(t, s);
      ExclusionKept(t, s);
      if ProgressInv(t) && FixedTable(steps) {
        ProgressKept(t, s);
        assert FixedTable(steps[1..]);
      }
      TableAlongRun(Next(t, s), steps[1..]);
    }
  }

  /** On any run, seats being added included: at most one process is inside the mutex, the wait
      on it is never refused, and no two distinct neighbours are EATING. */
  lemma TableExclusion(n: nat, value: nat, steps: seq<Step>)
    requires n <= 10 && AllEnabled(Laid(n, value), steps)
    ensures var t := Run(Laid(n, value), steps);
            && Shaped(t) && NoNeighboursEating(t) && (forall i: nat | i < |t.seat| :: !EatTogether(t.seat, i))
            && (forall i: nat, j: nat | i < |t.seat| && j < |t.seat| && Inside(t.place[i]) && Inside(t.place[j]) :: i == j)
  {
    LaidInv(n, value);
    TableAlongRun(Laid(n, value), steps);
    var t := Run(Laid(n, value), steps);
    ApartExactly(t.seat);
    forall i: nat, j: nat | i < |t.seat| && j < |t.seat| && Inside(t.place[i]) && Inside(t.place[j])
      ensures i == j
    {
      assert Holds(t, i) && Holds(t, j);
    }
  }

  /** With a fixed table, whenever the mutex is free every HUNGRY philosopher has an EATING neighbour. */
  lemma HungryHaveEatingNeighbour(n: nat, value: nat, steps: seq<Step>)
    requires n <= 10 && AllEnabled(Laid(n, value), steps) && FixedTable(steps)
    ensures var t := Run(Laid(n, value), steps);
            t.mutex.value == 1 ==> forall j: nat | j < |t.seat| :: Served(t, j) && !Grantable(t.seat, j)
  {
    LaidInv(n, value);
    TableAlongRun(Laid(n, value), steps);
    var t := Run(Laid(n, value), steps);
    if t.mutex.value == 1 {
      forall j: nat | j < |t.seat|
        ensures Served(t, j) && !Grantable(t.seat, j)
      {
        ServedExactly(t.seat, j);
        assert !Holds(t, j) && !Holds(t, Left(|t.seat|, j)) && !Holds(t, Right(|t.seat|, j));
      }
    }
  }

  /** Adding a seat separates the first and the last philosopher.  Everybody stays served exactly
      when neither of the two was HUNGRY with the other as its only EATING neighbour. */
  lemma AddSeatKeepsServedExactly(t: Table, value: nat)
    requires MutexInv(t) && Enabled(t, AddSeat(true, value))
    requires forall j: nat | j < |t.seat| :: Served(t, j)
    ensures var n, u := |t.seat|, Next(t, AddSeat(true, value));
            (forall j: nat | j < |u.seat| :: Served(u, j)) <==>
            && !(n >= 2 && t.seat[0].Hungry? && !t.seat[1].Eating?)
            && !(n >= 2 && t.seat[n - 1].Hungry? && !t.seat[n - 2].Eating?)
  {
    var n, u := |t.seat|, Next(t, AddSeat(true, value));
    assert u.seat == t.seat + [Thinking];
    assert Served(u, n);
    if n >= 1 {
      assert Served(t, 0) && Served(t, n - 1);
      EndsServed(t, u);
      forall j: nat | 0 < j < n - 1
        ensures Served(u, j)
      {
        assert Served(t, j);
        InnerServed(t, u, j);
      }
    }
  }

  lemma EndsServed(t: Table, u: Table)
    requires |t.seat| >= 1 && u.seat == t.seat + [Thinking] && Served(t, 0) && Served(t, |t.seat| - 1)
    ensures var n := |t.seat|;
            && (Served(u, 0) <==> !(n >= 2 && t.seat[0].Hungry? && !t.seat[1].Eating?))
            && (Served(u, n - 1) <==> !(n >= 2 && t.seat[n - 1].Hungry? && !t.seat[n - 2].Eating?))
  {
    var n := |t.seat|;
    assert u.seat[n].Thinking? && u.seat[0] == t.seat[0] && u.seat[n - 1] == t.seat[n - 1];
    assert Left(n + 1, 0) == n && Right(n + 1, n - 1) == n;
    assert n >= 2 ==> u.seat[1] == t.seat[1] && u.seat[n - 2] == t.seat[n - 2];
  }

  lemma InnerServed(t: Table, u: Table, j: nat)
    requires u.seat == t.seat + [Thinking] && 0 < j < |t.seat| - 1 && Served(t, j)
    ensures Served(u, j)
  {
    assert u.seat[j - 1] == t.seat[j - 1] && u.seat[j] == t.seat[j] && u.seat[j + 1] == t.seat[j + 1];
  }

  // ---------------------------------------------------------------- the private semaphores

  /** With private semaphores opened at 0: a pass through the semaphore is a grant of EATING. */
  predicate TokenInv(t: Table) {
    && Shaped(t)
    && forall i: nat | i < |t.seat| :: SeatMatchesPlace(t, i) && Token(t, i)
  }

  predicate Token(t: Table, i: nat)
    requires Shaped(t) && i < |t.seat|
  {
    var s := t.private[i];
    && !s.locked
    && s.value == (if t.seat[i].Eating? && !PastPrivate(t.place[i]) then 1 else 0)
    && (PastPrivate(t.place[i]) ==> t.seat[i].Eating?)
    && (s.queue == [] || (s.queue == [i] && t.place[i].PrivateQueued? && i !in t.privateWoken))
    && (i in t.privateWoken ==> t.place[i].PrivateQueued?)
  }

  lemma CheckToken(t: Table, i: nat, j: nat)
    requires Shaped(t) && i < |t.seat| && j < |t.seat| && SeatMatchesPlace(t, i) && Token(t, i) && Token(t, j)
    ensures Token(Check(t, i), j)
  {
  }

  lemma TokenTurnAt(t: Table, i: nat, j: nat)
    requires TokenInv(t) && Enabled(t, Advance(i)) && Alone(t, i) && j < |t.seat|
    ensures SeatMatchesPlace(Next(t, Advance(i)), j) && Token(Next(t, Advance(i)), j)
  {
    assert SeatMatchesPlace(t, i) && Token(t, i);
    assert SeatMatchesPlace(t, j) && Token(t, j);
    match t.place[i] {
      case TakeHungry => CheckTurn(t, i, i, j);
      case PutThinking => CheckTurn(t, i, Left(|t.seat|, i), j);
      case PutLeft => CheckTurn(t, i, Right(|t.seat|, i), j);
      case _ =>
    }
  }

  /** A turn that checks philosopher `c`. */
  lemma CheckTurn(t: Table, i: nat, c: nat, j: nat)
    requires TokenInv(t) && Enabled(t, Advance(i)) && Alone(t, i) && j < |t.seat| && c < |t.seat|
    requires Next(t, Advance(i)) == Check(t, c).(place := Next(t, Advance(i)).place)
    requires t.place[i].TakeHungry? || t.place[i].PutThinking? || t.place[i].PutLeft?
    ensures SeatMatchesPlace(Next(t, Advance(i)), j) && Token(Next(t, Advance(i)), j)
  {
    assert SeatMatchesPlace(t, i) && Token(t, i);
    assert SeatMatchesPlace(t, j) && Token(t, j);
    assert SeatMatchesPlace(t, c) && Token(t, c);
    CheckToken(t, c, j);
    CheckServes(t, c);
    TokenMoved(Check(t, c), Next(t, Advance(i)), i, j);
  }

  /** Moving on inside the mutex leaves tokens alone. */
  lemma TokenMoved(t: Table, u: Table, i: nat, j: nat)
    requires Shaped(t) && Shaped(u) && j < |t.seat| && u == t.(place := u.place) && Token(t, j)
    requires i < |t.seat| && (j != i ==> u.place[j] == t.place[j])
    requires j == i ==> Inside(t.place[i]) && !t.place[i].PutIn? && (Inside(u.place[i]) && !u.place[i].PutIn?)
    ensures Token(u, j)
  {
  }

  lemma TokenTurn(t: Table, i: nat)
    requires TokenInv(t) && MutexInv(t) && Enabled(t, Advance(i))
    ensures TokenInv(Next(t, Advance(i)))
  {
    AloneInside(t, i);
    forall j: nat | j < |t.seat|
      ensures SeatMatchesPlace(Next(t, Advance(i)), j) && Token(Next(t, Advance(i)), j)
    {
      TokenTurnAt(t, i, j);
    }
  }

  lemma TokenPrivate(t: Table, i: nat, r: (Semaphores.Sem, Semaphores.Outcome))
    requires TokenInv(t) && i < |t.seat|
    requires (t.place[i].AtPrivate? && r == Semaphores.WaitSem(t.private[i], i)) ||
             (t.place[i].PrivateQueued? && i in t.privateWoken && r == Semaphores.ResumeSem(t.private[i], i))
    ensures TokenInv(EnterPrivate(t, i, r))
  {
    var u := EnterPrivate(t, i, r);
    assert SeatMatchesPlace(t, i) && Token(t, i);
    forall j: nat | j < |t.seat|
      ensures SeatMatchesPlace(u, j) && Token(u, j)
    {
      assert SeatMatchesPlace(t, j) && Token(t, j);
    }
  }

  lemma TokenKept(t: Table, s: Step)
    requires TokenInv(t) && MutexInv(t) && Enabled(t, s) && (s.AddSeat? ==> s.value == 0)
    requires |t.seat| !in t.privateWoken
    ensures TokenInv(Next(t, s))
  {
    match s {
      case Advance(i) => TokenTurn(t, i);
      case PrivateWait(i) => TokenPrivate(t, i, Semaphores.WaitSem(t.private[i], i));
      case PrivateResume(i) => TokenPrivate(t, i, Semaphores.ResumeSem(t.private[i], i));
      case _ =>
        var u := Next(t, s);
        forall j: nat | j < |u.seat|
          ensures SeatMatchesPlace(u, j) && Token(u, j)
        {
          TokenElsewhere(t, s, j);
        }
    }
  }

  /** The mutex and new seats leave tokens alone. */
  lemma TokenElsewhere(t: Table, s: Step, j: nat)
    requires TokenInv(t) && MutexInv(t) && Enabled(t, s) && (s.AddSeat? ==> s.value == 0)
    requires |t.seat| !in t.privateWoken && !s.Advance? && !s.PrivateWait? && !s.PrivateResume?
    requires j < |Next(t, s).seat|
    ensures SeatMatchesPlace(Next(t, s), j) && Token(Next(t, s), j)
  {
    if j < |t.seat| { assert SeatMatchesPlace(t, j) && Token(t, j); }
  }

  /** Only seated philosophers are ever woken on a private semaphore. */
  predicate WokenSeated(t: Table) {
    forall q | q in t.privateWoken :: q < |t.seat|
  }

  lemma WokenSeatedKept(t: Table, s: Step)
    requires WokenSeated(t) && Enabled(t, s)
    ensures WokenSeated(Next(t, s))
  {
  }

  predicate SeatsOpenWith(value: nat, steps: seq<Step>) {
    forall i | 0 <= i < |steps| :: steps[i].AddSeat? ==> steps[i].value == value
  }

  lemma {:induction false} TokenAlongRun(t: Table, steps: seq<Step>)
    requires TokenInv(t) && MutexInv(t) && WokenSeated(t) && AllEnabled(t, steps) && SeatsOpenWith(0, steps)
    ensures TokenInv(Run(t, steps))
    decreases |steps|
  {
    if steps == [] {
    } else {
      MutexKept(t, steps[0]);
      TokenKept(t, steps[0]);
      WokenSeatedKept(t, steps[0]);
      TokenAlongRun(Next(t, steps[0]), steps[1..]);
    }
  }

  /** Everyone past line 93 and not yet at line 101 is EATING. */
  predicate PastAreEating(t: Table)
    requires Shaped(t)
  {
    forall i: nat | i < |t.seat| && PastPrivate(t.place[i]) :: t.seat[i].Eating?
  }

  /** The philosophers at `i` and at the next seat round the table are two, and both past line 93. */
  predicate DineTogether(t: Table, i: nat)
    requires Shaped(t) && i < |t.seat|
  {
    var j := (i + 1) % |t.seat|;
    j != i && PastPrivate(t.place[i]) && PastPrivate(t.place[j])
  }

  /** With private semaphores opened at 0, on any run, two distinct neighbours are never both
      between their private wait and putting the chopsticks down. */
  lemma DiningIsExclusive(n: nat, steps: seq<Step>)
    requires n <= 10 && AllEnabled(Laid(n, 0), steps) && SeatsOpenWith(0, steps)
    ensures var t := Run(Laid(n, 0), steps);
            && Shaped(t) && PastAreEating(t)
            && forall i: nat | i < |t.seat| :: !DineTogether(t, i)
  {
    LaidInv(n, 0);
    TableAlongRun(Laid(n, 0), steps);
    TokenAlongRun(Laid(n, 0), steps);
    var t := Run(Laid(n, 0), steps);
    forall i: nat | i < |t.seat| && PastPrivate(t.place[i])
      ensures t.seat[i].Eating?
    {
      assert Token(t, i);
    }
    ApartExactly(t.seat);
    forall i: nat | i < |t.seat|
      ensures !DineTogether(t, i)
    {
      assert !EatTogether(t.seat, i);
    }
  }

  // ---------------------------------------------------------------- opened at 1, as written

  const BOTH_DINE: seq<Step> :=
    [MutexWait(0), Advance(0), Advance(0), MutexPost(0), PrivateWait(0)] +
    [MutexWait(1), Advance(1), Advance(1), MutexPost(1), PrivateWait(1)]

  function Two(s0: Seat, s1: Seat, p0: Place, p1: Place, mutex: nat, v0: nat, v1: nat): Table {
    Table([s0, s1], [p0, p1], Semaphores.OpenSem(mutex), {}, [Semaphores.OpenSem(v0), Semaphores.OpenSem(v1)], {}, Free)
  }

  /** Taking one step first. */
  lemma Chain(t: Table, s: Step, rest: seq<Step>)
    requires Enabled(t, s)
    ensures AllEnabled(t, [s] + rest) <==> AllEnabled(Next(t, s), rest)
    ensures AllEnabled(Next(t, s), rest) ==> Run(t, [s] + rest) == Run(Next(t, s), rest)
  {
    assert ([s] + rest)[1..] == rest;
  }

  /** The five steps of seat `i` from asking to the far side of its private semaphore. */
  function Asks(i: nat): seq<Step> {
    [MutexWait(i), Advance(i), Advance(i), MutexPost(i), PrivateWait(i)]
  }

  lemma FiveSteps(i: nat, t: Table, t1: Table, t2: Table, t3: Table, t4: Table, rest: seq<Step>)
    requires Enabled(t, MutexWait(i)) && Next(t, MutexWait(i)) == t1
    requires Enabled(t1, Advance(i)) && Next(t1, Advance(i)) == t2
    requires Enabled(t2, Advance(i)) && Next(t2, Advance(i)) == t3
    requires Enabled(t3, MutexPost(i)) && Next(t3, MutexPost(i)) == t4
    requires Enabled(t4, PrivateWait(i))
    ensures var u := Next(t4, PrivateWait(i));
            AllEnabled(u, rest) ==> AllEnabled(t, Asks(i) + rest) && Run(t, Asks(i) + rest) == Run(u, rest)
  {
    var s4 := [PrivateWait(i)] + rest;
    var s3 := [MutexPost(i)] + s4;
    var s2 := [Advance(i)] + s3;
    var s1 := [Advance(i)] + s2;
    Chain(t4, PrivateWait(i), rest);
    Chain(t3, MutexPost(i), s4);
    Chain(t2, Advance(i), s3);
    Chain(t1, Advance(i), s2);
    Chain(t, MutexWait(i), s1);
    assert [MutexWait(i)] + s1 == Asks(i) + rest;
  }

  /** Seat 0 asks, is granted EATING and passes its private semaphore. */
  lemma FirstDines(v: nat, rest: seq<Step>)
    requires v > 0
    ensures var t, u := Two(Thinking, Thinking, Away, Away, 1, v, v), Two(Eating, Thinking, Dining, Away, 1, v, v);
            AllEnabled(u, rest) ==> AllEnabled(t, Asks(0) + rest) && Run(t, Asks(0) + rest) == Run(u, rest)
  {
    var t := Two(Thinking, Thinking, Away, Away, 1, v, v);
    var t1 := Two(Thinking, Thinking, TakeIn, Away, 0, v, v);
    var t2 := Two(Hungry, Thinking, TakeHungry, Away, 0, v, v);
    var t3 := Two(Eating, Thinking, TakeChecked, Away, 0, v + 1, v);
    var t4 := Two(Eating, Thinking, AtPrivate, Away, 1, v + 1, v);
    assert Next(t, MutexWait(0)) == t1;
    assert Next(t1, Advance(0)) == t2;
    assert Next(t2, Advance(0)) == t3;
    assert Next(t3, MutexPost(0)) == t4;
    assert Next(t4, PrivateWait(0)) == Two(Eating, Thinking, Dining, Away, 1, v, v);
    FiveSteps(0, t, t1, t2, t3, t4, rest);
  }

  /** Seat 1 asks, stays HUNGRY, and passes its private semaphore all the same. */
  lemma SecondDinesHungry(v: nat)
    requires v > 0
    ensures var t, u := Two(Eating, Thinking, Dining, Away, 1, v, v), Two(Eating, Hungry, Dining, Dining, 1, v, v - 1);
            AllEnabled(t, Asks(1)) && Run(t, Asks(1)) == u
  {
    var t := Two(Eating, Thinking, Dining, Away, 1, v, v);
    var t1 := Two(Eating, Thinking, Dining, TakeIn, 0, v, v);
    var t2 := Two(Eating, Hungry, Dining, TakeHungry, 0, v, v);
    var t3 := Two(Eating, Hungry, Dining, TakeChecked, 0, v, v);
    var t4 := Two(Eating, Hungry, Dining, AtPrivate, 1, v, v);
    assert Next(t, MutexWait(1)) == t1;
    assert Next(t1, Advance(1)) == t2;
    assert Next(t2, Advance(1)) == t3;
    assert Next(t3, MutexPost(1)) == t4;
    assert Next(t4, PrivateWait(1)) == Two(Eating, Hungry, Dining, Dining, 1, v, v - 1);
    FiveSteps(1, t, t1, t2, t3, t4, []);
    assert Asks(1) + [] == Asks(1);
  }

  /** Two seats with private semaphores opened at 1 or more: both neighbours end up dining, one of
      them marked HUNGRY. */
  lemma BothNeighboursDine(v: nat)
    requires v > 0
    ensures AllEnabled(Laid(2, v), BOTH_DINE) && Shaped(Run(Laid(2, v), BOTH_DINE))
    ensures Run(Laid(2, v), BOTH_DINE) == Two(Eating, Hungry, Dining, Dining, 1, v, v - 1)
    ensures !PastAreEating(Run(Laid(2, v), BOTH_DINE))
  {
    assert BOTH_DINE == Asks(0) + Asks(1);
    assert Laid(2, v) == Two(Thinking, Thinking, Away, Away, 1, v, v);
    SecondDinesHungry(v);
    FirstDines(v, Asks(1));
    var u := Two(Eating, Hungry, Dining, Dining, 1, v, v - 1);
    assert PastPrivate(u.place[1]) && u.seat[1].Hungry?;
  }

  ghost predicate AlwaysEatingPast(v: nat) {
    forall n: nat, steps: seq<Step> | n <= MAX_PH && AllEnabled(Laid(n, v), steps) && SeatsOpenWith(v, steps) ::
      Shaped(Run(Laid(n, v), steps)) && PastAreEating(Run(Laid(n, v), steps))
  }

  /** Passing the private semaphore means EATING, on every run, exactly when it is opened at 0.
      The program opens it at 1. */
  lemma PrivateStartExactly(v: nat)
    ensures AlwaysEatingPast(v) <==> v == 0
  {
    if v == 0 {
      forall n: nat, steps: seq<Step> | n <= MAX_PH && AllEnabled(Laid(n, v), steps) && SeatsOpenWith(v, steps)
        ensures Shaped(Run(Laid(n, v), steps)) && PastAreEating(Run(Laid(n, v), steps))
      {
        DiningIsExclusive(n, steps);
      }
    } else {
      BothNeighboursDine(v);
      assert SeatsOpenWith(v, BOTH_DINE);
    }
  }
}
