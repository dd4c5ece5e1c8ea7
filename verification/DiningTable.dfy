// The shared table in place: what one philosopher does to it while it holds the mutex
// (Userland/SampleCodeModule/philo.c:86-125).
module DiningTable {
  import opened PhilosophersSpec
  import opened SeatRemoval
  import Semaphores = SemaphoreSpec

  function AskSeats(seats: seq<Seat>, i: nat): (seq<Seat>, bool)
    requires i < |seats|
  {
    CheckSeats(seats[i := Hungry], i)
  }

  function LeaveSeats(seats: seq<Seat>, i: nat): (seq<Seat>, bool, bool)
    requires i < |seats|
  {
    var left := CheckSeats(seats[i := Thinking], Left(|seats|, i));
    var right := CheckSeats(left.0, Right(|seats|, i));
    (right.0, left.1, right.1)
  }

  /** Asking marks the seat HUNGRY, and EATING at once when nobody beside it is. */
  lemma AskExactly(seats: seq<Seat>, i: nat)
    requires i < |seats|
    ensures var m := seats[i := Hungry];
            AskSeats(seats, i) == if Grantable(m, i) then (m[i := Eating], true) else (m, false)
  {
    CheckExactly(seats[i := Hungry], i);
  }

  /** Leaving marks the seat THINKING and looks at the seat before it, and then at the one after it, with
      what the first may have been granted. */
  lemma LeaveExactly(seats: seq<Seat>, i: nat)
    requires i < |seats|
    ensures var m, l, r := seats[i := Thinking], (i + |seats| - 1) % |seats|, (i + 1) % |seats|;
            var one := Grantable(m, l);
            var m' := if one then m[l := Eating] else m;
            var two := Grantable(m', r);
            LeaveSeats(seats, i) == (if two then m'[r := Eating] else m', one, two)
  {
    var m := seats[i := Thinking];
    NeighboursAreRound(|seats|, i);
    CheckExactly(m, Left(|seats|, i));
    CheckExactly(CheckSeats(m, Left(|seats|, i)).0, Right(|seats|, i));
  }

  class Philosophers {
    const philos: array<Seat>
    var amountPh: nat

    ghost predicate Valid()
      reads this
    {
      philos.Length == MAX_PH && amountPh <= MAX_PH
    }

    ghost function Seats(): seq<Seat>
      requires Valid()
      reads this, philos
    {
      philos[..amountPh]
    }

    constructor ()
      ensures Valid() && Seats() == [] && fresh(philos)
    {
      philos := new Seat[MAX_PH](_ => Thinking);
      amountPh := 0;
    }

    method LeftOf(index: nat) returns (r: nat)
      requires index < amountPh
      ensures r == Left(amountPh, index)
    {
      if index == 0 { r := amountPh - 1; } else { r := index - 1; }
    }

    method RightOf(index: nat) returns (r: nat)
      requires index < amountPh
      ensures r == Right(amountPh, index)
    {
      if index == amountPh - 1 { r := 0; } else { r := index + 1; }
    }

    /** addPh with the mutex held; `semOpened` is what sys_semOpen came back with.  A failed open
        returns with the mutex still held. */
    method AddPh(semOpened: bool, ghost t: Table, ghost value: nat) returns (ok: bool)
      requires Valid() && Enabled(t, AddSeat(semOpened, value)) && t.seat == Seats()
      modifies this, philos
      ensures Valid() && ok == semOpened
      ensures Seats() == Next(t, AddSeat(semOpened, value)).seat
    {
      philos[amountPh] := Thinking;
      if !semOpened {
        return false;
      }
      amountPh := amountPh + 1;
      return true;
    }

    /** deletePh of the last seat with the mutex held; `semClosed` is whether sys_semClose went
        through.  A failed close returns with the mutex still held. */
    method DeletePh(semClosed: bool) returns (ok: bool, lastPosted: bool, firstPosted: bool, outside: bool)
      requires Valid()
      modifies this, philos
      ensures Valid() && ok == (semClosed && old(Seats()) != [])
      ensures outside == (ok && LooksOutside(old(Seats())))
      ensures !ok ==> Seats() == old(Seats())
      ensures ok ==> (Seats(), lastPosted, firstPosted) == RemoveLast(old(Seats()))
    {
      lastPosted, firstPosted, outside := false, false, false;
      if amountPh == 0 {
        return false, false, false, false;
      }
      var eating := philos[amountPh - 1].Eating?;
      if !semClosed {
        return false, false, false, false;
      }
      ok := true;
      amountPh := amountPh - 1;
      assert Seats() == old(Seats())[..amountPh];
      if eating && amountPh == 0 {
        // the check of seat -1 looks before the table, that of seat 0 at the mark of who left
        outside := true;
      } else if eating {
        lastPosted := CheckAvailability(amountPh - 1);
        firstPosted := CheckAvailability(0);
      }
    }

    method CheckAvailability(index: nat) returns (posted: bool)
      requires Valid() && index < amountPh
      modifies philos
      ensures Valid() && (Seats(), posted) == CheckSeats(old(Seats()), index)
    {
      posted := false;
      if philos[index].Hungry? {
        var l := LeftOf(index);
        var r := RightOf(index);
        if !philos[l].Eating? && !philos[r].Eating? {
          philos[index] := Eating;
          posted := true;
        }
      }
    }

    /** takeChopsticks with the mutex held. */
    method TakeChopsticks(index: nat) returns (posted: bool)
      requires Valid() && index < amountPh
      modifies philos
      ensures Valid() && (Seats(), posted) == AskSeats(old(Seats()), index)
    {
      philos[index] := Hungry;
      assert Seats() == old(Seats())[index := Hungry];
      posted := CheckAvailability(index);
    }

    /** putChopsticks with the mutex held. */
    method PutChopsticks(index: nat) returns (postedLeft: bool, postedRight: bool)
      requires Valid() && index < amountPh
      modifies philos
      ensures Valid() && (Seats(), postedLeft, postedRight) == LeaveSeats(old(Seats()), index)
    {
      philos[index] := Thinking;
      assert Seats() == old(Seats())[index := Thinking];
      var l := LeftOf(index);
      var r := RightOf(index);
      postedLeft := CheckAvailability(l);
      postedRight := CheckAvailability(r);
    }
  }

  function Posted(t: Table, i: nat, yes: bool): Semaphores.Sem
    requires Shaped(t) && i < |t.seat|
  {
    if yes then Semaphores.PostSem(t.private[i]).0 else t.private[i]
  }

  /** Who a post of the private semaphore of seat `i` wakes. */
  function WokenBy(t: Table, i: nat, yes: bool): set<nat>
    requires Shaped(t) && i < |t.seat|
  {
    if yes && t.private[i].queue != [] then {i} else {}
  }

  lemma CheckIsCheckSeats(t: Table, i: nat)
    requires Shaped(t) && i < |t.seat|
    ensures var c := CheckSeats(t.seat, i);
            && Check(t, i).seat == c.0 && Check(t, i).private == t.private[i := Posted(t, i, c.1)]
            && Check(t, i).privateWoken == t.privateWoken + WokenBy(t, i, c.1)
            && Check(t, i).place == t.place
  {
  }

  /** takeChopsticks under the mutex is two steps of the protocol: same marks, same post. */
  lemma TakeIsTwoSteps(t: Table, i: nat)
    requires Shaped(t) && i < |t.seat| && t.place[i].TakeIn?
    ensures var mid := Next(t, Advance(i));
            && Enabled(mid, Advance(i))
            && var u := Next(mid, Advance(i));
               var c := AskSeats(t.seat, i);
               && u.seat == c.0 && u.place[i].TakeChecked? && u.private == t.private[i := Posted(t, i, c.1)]
               && u.privateWoken == t.privateWoken + WokenBy(t, i, c.1)
  {
    var mid := Next(t, Advance(i));
    CheckIsCheckSeats(mid, i);
  }

  /** putChopsticks under the mutex is three steps of the protocol. */
  lemma PutIsThreeSteps(t: Table, i: nat)
    requires Shaped(t) && i < |t.seat| && t.place[i].PutIn?
    ensures var a := Next(t, Advance(i));
            && Enabled(a, Advance(i))
            && var b := Next(a, Advance(i));
               && Enabled(b, Advance(i))
               && var u := Next(b, Advance(i));
                  var c := LeaveSeats(t.seat, i);
                  var l, r := Left(|t.seat|, i), Right(|t.seat|, i);
                  && u.seat == c.0 && u.place[i].PutRight?
                  && b.private == t.private[l := Posted(t, l, c.1)]
                  && u.private == b.private[r := Posted(b, r, c.2)]
                  && u.privateWoken == t.privateWoken + WokenBy(t, l, c.1) + WokenBy(b, r, c.2)
  {
    var a := Next(t, Advance(i));
    CheckIsCheckSeats(a, Left(|t.seat|, i));
    var b := Next(a, Advance(i));
    CheckIsCheckSeats(b, Right(|t.seat|, i));
  }
}
