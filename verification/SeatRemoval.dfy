// Removing the last seat from the table (Userland/SampleCodeModule/philo.c:128-151): its two
// neighbours become neighbours of each other.
module SeatRemoval {
  import opened PhilosophersSpec

  /** The marks after deletePh, with the neighbours looked at only when the one who leaves was
      EATING, and which of them were granted. */
  function RemoveLast(seats: seq<Seat>): (seq<Seat>, bool, bool)
    requires |seats| >= 1
  {
    var n := |seats| - 1;
    var rest := seats[..n];
    if seats[n].Eating? && !LooksOutside(seats) then
      var last := CheckSeats(rest, n - 1);
      var first := CheckSeats(last.0, 0);
      (first.0, last.1, first.1)
    else (rest, false, false)
  }

  /** The only seat is EATING: the check of its left neighbour is one of seat -1. */
  predicate LooksOutside(seats: seq<Seat>) {
    |seats| == 1 && seats[0].Eating?
  }

  /** Everyone HUNGRY has an EATING neighbour. */
  predicate AllServed(seats: seq<Seat>) {
    forall i: nat | i < |seats| :: SeatServed(seats, i)
  }

  /** When the one who leaves is EATING, the new last seat and then the first are checked, each against
      the two seats that are now beside it; otherwise no mark changes and nothing is posted. */
  lemma RemovalExactly(seats: seq<Seat>)
    requires |seats| >= 2
    ensures var n, rest := |seats| - 1, seats[..|seats| - 1];
            var one := seats[n] == Eating && Grantable(rest, n - 1);
            var marked := if one then rest[n - 1 := Eating] else rest;
            var two := seats[n] == Eating && Grantable(marked, 0);
            RemoveLast(seats) == (if two then marked[0 := Eating] else marked, one, two)
  {
    var n, rest := |seats| - 1, seats[..|seats| - 1];
    CheckExactly(rest, n - 1);
    CheckExactly(CheckSeats(rest, n - 1).0, 0);
  }

  /** Without its last seat the row closes on the two ends: they are the only new neighbours. */
  lemma RestApart(seats: seq<Seat>)
    requires |seats| >= 1 && Apart(seats)
    ensures var n, rest := |seats| - 1, seats[..|seats| - 1];
            Apart(rest) <==> !(n >= 3 && seats[0].Eating? && seats[n - 1].Eating?)
  {
    var n := |seats| - 1;
    var rest := seats[..n];
    forall i: nat | 0 < i < n
      ensures !EatsBeside(rest, i)
    {
      assert !EatsBeside(seats, i);
    }
    if n >= 1 {
      assert EatsBeside(rest, 0) <==> n != 1 && seats[0].Eating? && seats[n - 1].Eating?;
      if n == 2 { assert !EatsBeside(seats, 1); }
    }
  }

  /** Taking the last seat away keeps distinct neighbours from eating together exactly when the two
      who become neighbours were not both EATING.  When the one who leaves was EATING that is so. */
  lemma RemovalApartExactly(seats: seq<Seat>)
    requires |seats| >= 1 && Apart(seats)
    ensures var n := |seats| - 1;
            && (Apart(RemoveLast(seats).0) <==> !(n >= 3 && seats[0].Eating? && seats[n - 1].Eating?))
            && (seats[n].Eating? ==> Apart(RemoveLast(seats).0))
  {
    var n := |seats| - 1;
    var rest := seats[..n];
    RestApart(seats);
    if seats[n].Eating? && n >= 1 {
      assert !EatsBeside(seats, n) && !EatsBeside(seats, 0);
      CheckApart(rest, n - 1);
      CheckApart(CheckSeats(rest, n - 1).0, 0);
    }
  }

  lemma RestServed(seats: seq<Seat>, i: nat)
    requires i < |seats| - 1 && SeatServed(seats, i)
    requires i == 0 || i == |seats| - 2 ==> !seats[|seats| - 1].Eating?
    ensures SeatServed(seats[..|seats| - 1], i)
  {
  }

  /** Nobody is left HUNGRY without an EATING neighbour by a removal. */
  lemma RemovalServes(seats: seq<Seat>)
    requires |seats| >= 1 && AllServed(seats)
    ensures AllServed(RemoveLast(seats).0)
  {
    var n := |seats| - 1;
    var rest := seats[..n];
    forall i: nat | i < n
      ensures SeatServed(RemoveLast(seats).0, i)
    {
      assert SeatServed(seats, i);
      if !seats[n].Eating? || 0 < i < n - 1 { RestServed(seats, i); }
      if seats[n].Eating? {
        CheckServesAll(rest, n - 1);
        CheckServesAll(CheckSeats(rest, n - 1).0, 0);
      }
    }
  }

  /** Four seats, the first and the third EATING: when the fourth goes they sit side by side. */
  lemma NeighboursByRemovalExample()
    ensures var seats := [Eating, Thinking, Eating, Thinking];
            Apart(seats) && AllServed(seats) && !Apart(RemoveLast(seats).0)
  {
    var seats := [Eating, Thinking, Eating, Thinking];
    RemovalApartExactly(seats);
  }
}
