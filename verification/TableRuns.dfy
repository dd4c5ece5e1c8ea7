// Runs of the table that end badly: seats added and removed beside diners, and a seat whose
// semaphore cannot be opened (Userland/SampleCodeModule/philo.c:48-71, 86-125, 128-151).
module TableRuns {
  import Semaphores = SemaphoreSpec
  import opened PhilosophersSpec
  import opened Philosophers
  import opened SeatRemoval

  lemma {:induction false} RunAppend(t: Table, a: seq<Step>, b: seq<Step>)
    requires AllEnabled(t, a) && AllEnabled(Run(t, a), b)
    ensures AllEnabled(t, a + b) && Run(t, a + b) == Run(Run(t, a), b)
    decreases |a|
  {
    if a == [] {
      assert a + b == b;
    } else {
      assert (a + b)[1..] == a[1..] + b;
      RunAppend(Next(t, a[0]), a[1..], b);
    }
  }

  /** Nobody is inside the mutex or waits for it, and no seat is being added. */
  predicate Idle(t: Table) {
    Shaped(t) && t.mutex == Semaphores.OpenSem(1) && t.mutexWoken == {} && t.adder.Free?
  }

  /** takeChopsticks of seat `i` as far as its private semaphore. */
  function Section(i: nat): seq<Step> {
    [MutexWait(i), Advance(i), Advance(i), MutexPost(i)]
  }

  /** Somebody is inside the mutex and nobody waits for it. */
  predicate Held(t: Table) {
    Shaped(t) && t.mutex == Semaphores.Sem(0, [], false) && t.mutexWoken == {} && t.adder.Free?
  }

  lemma Enters(t: Table, i: nat)
    requires Idle(t) && i < |t.seat| && t.place[i].Away?
    ensures Enabled(t, MutexWait(i)) && Held(Next(t, MutexWait(i)))
    ensures Next(t, MutexWait(i)).seat == t.seat && Next(t, MutexWait(i)).place == t.place[i := TakeIn]
  {
  }

  lemma Marks(t: Table, i: nat)
    requires Held(t) && i < |t.seat| && t.place[i].TakeIn?
    ensures Enabled(t, Advance(i)) && Held(Next(t, Advance(i)))
    ensures Next(t, Advance(i)).seat == t.seat[i := Hungry] && Next(t, Advance(i)).place == t.place[i := TakeHungry]
  {
  }

  lemma Checks(t: Table, i: nat)
    requires Held(t) && i < |t.seat| && t.place[i].TakeHungry?
    ensures Enabled(t, Advance(i)) && Held(Next(t, Advance(i)))
    ensures Next(t, Advance(i)).seat == CheckSeats(t.seat, i).0
    ensures Next(t, Advance(i)).place == t.place[i := TakeChecked]
  {
  }

  lemma Leaves(t: Table, i: nat)
    requires Held(t) && i < |t.seat| && t.place[i].TakeChecked?
    ensures Enabled(t, MutexPost(i)) && Idle(Next(t, MutexPost(i)))
    ensures Next(t, MutexPost(i)).seat == t.seat && Next(t, MutexPost(i)).place == t.place[i := AtPrivate]
  {
  }

  lemma SectionMarks(t: Table, i: nat)
    requires Idle(t) && i < |t.seat| && t.place[i].Away?
    ensures AllEnabled(t, Section(i)) && Idle(Run(t, Section(i)))
    ensures Run(t, Section(i)).seat == CheckSeats(t.seat[i := Hungry], i).0
    ensures Run(t, Section(i)).place == t.place[i := AtPrivate]
  {
    Enters(t, i);
    var t1 := Next(t, MutexWait(i));
    Marks(t1, i);
    var t2 := Next(t1, Advance(i));
    Checks(t2, i);
    var t3 := Next(t2, Advance(i));
    Leaves(t3, i);
    FourSteps(i, t, t1, t2, t3);
    assert t.place[i := TakeIn][i := TakeHungry][i := TakeChecked][i := AtPrivate] == t.place[i := AtPrivate];
  }

  lemma FourSteps(i: nat, t: Table, t1: Table, t2: Table, t3: Table)
    requires Enabled(t, MutexWait(i)) && Next(t, MutexWait(i)) == t1
    requires Enabled(t1, Advance(i)) && Next(t1, Advance(i)) == t2
    requires Enabled(t2, Advance(i)) && Next(t2, Advance(i)) == t3
    requires Enabled(t3, MutexPost(i))
    ensures AllEnabled(t, Section(i)) && Run(t, Section(i)) == Next(t3, MutexPost(i))
  {
    var s3 := [MutexPost(i)] + [];
    var s2 := [Advance(i)] + s3;
    var s1 := [Advance(i)] + s2;
    Chain(t3, MutexPost(i), []);
    Chain(t2, Advance(i), s3);
    Chain(t1, Advance(i), s2);
    Chain(t, MutexWait(i), s1);
    assert [MutexWait(i)] + s1 == Section(i);
  }

  /** Two seats ask, one after the other. */
  lemma TwoSections(n: nat, value: nat, i: nat, j: nat)
    requires i < n <= MAX_PH && j < n && i != j
    ensures AllEnabled(Laid(n, value), Section(i) + Section(j))
    ensures var t := Run(Laid(n, value), Section(i) + Section(j));
            && Idle(t)
            && t.seat == CheckSeats(CheckSeats(seq(n, _ => Thinking)[i := Hungry], i).0[j := Hungry], j).0
  {
    var t := Laid(n, value);
    SectionMarks(t, i);
    var u := Run(t, Section(i));
    SectionMarks(u, j);
    RunAppend(t, Section(i), Section(j));
  }

  // ---------------------------------------------------------------- a seat added beside diners

  const ADDING: seq<Step> := [AddWait] + ([AddSeat(true, 1)] + ([AddPost] + []))

  lemma SeatIsAdded(t: Table)
    requires Idle(t) && |t.seat| < MAX_PH
    ensures AllEnabled(t, ADDING) && Idle(Run(t, ADDING)) && Run(t, ADDING).seat == t.seat + [Thinking]
  {
    var t1 := Next(t, AddWait);
    var t2 := Next(t1, AddSeat(true, 1));
    Chain(t2, AddPost, []);
    Chain(t1, AddSeat(true, 1), [AddPost] + []);
    Chain(t, AddWait, [AddSeat(true, 1)] + ([AddPost] + []));
  }

  /** Seat 2 of three eats, seat 0 asks and stays HUNGRY because of it, and a fourth seat comes
      between them: nobody is inside the mutex, and seat 0 is HUNGRY without an EATING neighbour. */
  lemma AddedSeatStarvesExample(value: nat)
    ensures var steps := (Section(2) + Section(0)) + ADDING;
            && AllEnabled(Laid(3, value), steps)
            && var t := Run(Laid(3, value), steps);
               && Idle(t) && t.seat == [Hungry, Thinking, Eating, Thinking] && !Served(t, 0)
  {
    TwoSections(3, value, 2, 0);
    var t := Run(Laid(3, value), Section(2) + Section(0));
    TwoOfThree();
    SeatIsAdded(t);
    RunAppend(Laid(3, value), Section(2) + Section(0), ADDING);
  }

  lemma TwoOfThree()
    ensures CheckSeats(CheckSeats(seq(3, _ => Thinking)[2 := Hungry], 2).0[0 := Hungry], 0).0 == [Hungry, Thinking, Eating]
  {
    assert CheckSeats(seq(3, _ => Thinking)[2 := Hungry], 2).0 == [Thinking, Thinking, Eating];
  }

  // ---------------------------------------------------------------- a seat removed between diners

  /** What a removal does on any run over a fixed table, whenever the mutex is free. */
  lemma RemovalOnRuns(n: nat, value: nat, steps: seq<Step>)
    requires 1 <= n <= MAX_PH && AllEnabled(Laid(n, value), steps) && FixedTable(steps)
    requires Run(Laid(n, value), steps).mutex.value == 1
    ensures var seats := Run(Laid(n, value), steps).seat;
            && |seats| >= 1 && AllServed(RemoveLast(seats).0)
            && (Apart(RemoveLast(seats).0) <==> !(|seats| >= 4 && seats[0].Eating? && seats[|seats| - 2].Eating?))
  {
    var t := Run(Laid(n, value), steps);
    HungryHaveEatingNeighbour(n, value, steps);
    TableExclusion(n, value, steps);
    SameTable(Laid(n, value), steps);
    assert AllServed(t.seat) by {
      forall i: nat | i < |t.seat|
        ensures SeatServed(t.seat, i)
      {
        assert Served(t, i);
      }
    }
    RemovalServes(t.seat);
    RemovalApartExactly(t.seat);
  }

  lemma {:induction false} SameTable(t: Table, steps: seq<Step>)
    requires AllEnabled(t, steps) && FixedTable(steps)
    ensures |Run(t, steps).seat| == |t.seat|
    decreases |steps|
  {
    if steps == [] {
    } else {
      assert FixedTable(steps[1..]);
      SameTable(Next(t, steps[0]), steps[1..]);
    }
  }

  /** Seats 0 and 2 of four eat, and the fourth seat, between them, is removed. */
  lemma RemovedSeatExample(value: nat)
    ensures var steps := Section(0) + Section(2);
            && AllEnabled(Laid(4, value), steps)
            && var t := Run(Laid(4, value), steps);
               && Idle(t) && t.seat == [Eating, Thinking, Eating, Thinking]
               && NoNeighboursEating(t) && !Apart(RemoveLast(t.seat).0)
  {
    TwoSections(4, value, 0, 2);
    TwoOfFour();
    NeighboursByRemovalExample();
  }

  lemma TwoOfFour()
    ensures CheckSeats(CheckSeats(seq(4, _ => Thinking)[0 := Hungry], 0).0[2 := Hungry], 2).0 ==
            [Eating, Thinking, Eating, Thinking]
  {
    assert CheckSeats(seq(4, _ => Thinking)[0 := Hungry], 0).0 == [Eating, Thinking, Thinking, Thinking];
  }

  // ---------------------------------------------------------------- a seat that cannot be opened

  /** A failed open returns with the mutex held: from then on nobody is ever inside it again. */
  lemma {:induction false} FailedOpenIsForGood(t: Table, steps: seq<Step>)
    requires MutexInv(t) && t.adder.AddFailed? && |t.seat| <= MAIN && AllEnabled(t, steps)
    ensures var u := Run(t, steps);
            && MutexInv(u) && u.adder.AddFailed? && u.seat == t.seat
            && forall i: nat | i < |u.seat| :: !Inside(u.place[i])
    decreases |steps|
  {
    if steps == [] {
      NobodyInside(t);
    } else {
      var s := steps[0];
      NobodyInside(t);
      MutexKept(t, s);
      StillFailed(t, s);
      FailedOpenIsForGood(Next(t, s), steps[1..]);
    }
  }

  lemma NobodyInside(t: Table)
    requires MutexInv(t) && t.adder.AddFailed?
    ensures forall i: nat | i < |t.seat| :: !Inside(t.place[i])
  {
    assert Holds(t, MAIN);
    forall i: nat | i < |t.seat|
      ensures !Inside(t.place[i])
    {
      assert Holds(t, i) <==> Inside(t.place[i]);
    }
  }

  lemma StillFailed(t: Table, s: Step)
    requires MutexInv(t) && t.adder.AddFailed? && Enabled(t, s)
    requires forall i: nat | i < |t.seat| :: !Inside(t.place[i])
    ensures Next(t, s).adder.AddFailed? && Next(t, s).seat == t.seat
  {
  }

  const FAILED_OPEN: seq<Step> := [AddWait] + ([AddSeat(false, 1)] + [])

  /** At any table with room: the semaphore of the next seat cannot be opened, and on every run from
      there on no philosopher gets inside the mutex and no mark changes. */
  lemma FailedOpenExample(n: nat, value: nat, steps: seq<Step>)
    requires n < MAX_PH && AllEnabled(Run(Laid(n, value), FAILED_OPEN), steps)
    ensures AllEnabled(Laid(n, value), FAILED_OPEN)
    ensures var u := Run(Run(Laid(n, value), FAILED_OPEN), steps);
            && Shaped(u) && u.seat == Laid(n, value).seat
            && forall i: nat | i < |u.seat| :: !Inside(u.place[i])
  {
    var t := Laid(n, value);
    var t1 := Next(t, AddWait);
    Chain(t1, AddSeat(false, 1), []);
    Chain(t, AddWait, [AddSeat(false, 1)] + []);
    LaidInv(n, value);
    MutexKept(t, AddWait);
    MutexKept(t1, AddSeat(false, 1));
    FailedOpenIsForGood(Run(t, FAILED_OPEN), steps);
  }
}
