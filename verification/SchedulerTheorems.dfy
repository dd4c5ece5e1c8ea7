// Dispatch choice and bounded waiting of the scheduler.
module SchedulerTheorems {
  import opened SchedulerSpec

  // ---------------------------------------------------------------- what a scan finds

  predicate AnyReady(l: seq<Process>, lo: nat, hi: nat)
    requires hi <= |l|
  {
    exists i | lo <= i < hi :: Ready(l[i])
  }

  /** A ready process of least auxPriority in [lo, hi). */
  predicate IsBest(l: seq<Process>, lo: nat, hi: nat, r: nat)
    requires hi <= |l|
  {
    && lo <= r < hi && Ready(l[r])
    && forall i | lo <= i < hi && Ready(l[i]) :: l[r].auxPriority <= l[i].auxPriority
  }

  /** A best process followed in [lo, hi) by none of strictly lower auxPriority. */
  predicate Kept(l: seq<Process>, lo: nat, hi: nat, m: nat)
    requires hi <= |l|
  {
    IsBest(l, lo, hi, m) && forall i | m < i < hi :: l[i].auxPriority >= l[m].auxPriority
  }

  predicate IsFirstBest(l: seq<Process>, lo: nat, hi: nat, r: nat)
    requires hi <= |l|
  {
    && IsBest(l, lo, hi, r)
    && forall i | lo <= i < r && Ready(l[i]) :: l[r].auxPriority < l[i].auxPriority
  }

  /** No shell to step over from `lo` on, or no foreground process. */
  predicate NoSkip(l: seq<Process>, fg: bool, lo: nat) {
    forall i | lo <= i < |l| :: !fg || l[i].pid != SHELL_PID
  }

  predicate Scannable(l: seq<Process>, fg: bool, lo: nat, hi: nat) {
    && lo < |l| && lo <= hi <= |l| && NoSkip(l, fg, lo)
    && forall i | 1 <= i < |l| :: l[i].pid != SHELL_PID
  }

  /** Best so far after looking at [lo, j). */
  predicate SoFar(l: seq<Process>, lo: nat, first: nat, j: nat)
    requires j <= |l|
  {
    if j == lo then first == lo
    else IsFirstBest(l, lo, j, first) || (lo <= first < j && !Ready(l[first]) && !AnyReady(l, lo, j))
  }

  /** Testing the candidate finds the first best process whenever one is ready. */
  lemma {:induction false} CandidateScan(l: seq<Process>, fg: bool, lo: nat, first: nat, j: nat, hi: nat)
    requires Scannable(l, fg, lo, hi) && lo <= first < |l| && first <= j && lo <= j <= hi && SoFar(l, lo, first, j)
    ensures SoFar(l, lo, Scan(Candidate, l, fg, first, j, hi), hi)
    decreases hi - j
  {
    if j < hi {
      var f := if !Ready(l[first]) then j else first;
      var g := if l[j].auxPriority < l[f].auxPriority && Ready(l[j]) then j else f;
      assert SoFar(l, lo, g, j + 1);
      CandidateScan(l, fg, lo, g, j + 1, hi);
    }
  }

  /** Testing the incumbent: where the result stays, nothing later was strictly lower. */
  lemma {:induction false} IncumbentStays(l: seq<Process>, fg: bool, lo: nat, first: nat, j: nat, hi: nat)
    requires Scannable(l, fg, lo, hi) && lo <= first < |l| && first <= j && lo <= j <= hi
    ensures var r := Scan(Incumbent, l, fg, first, j, hi);
            && first <= r && (r == first || j <= r < hi)
            && (Ready(l[r]) ==> forall i | j <= i < hi && i > r :: l[i].auxPriority >= l[r].auxPriority)
    decreases hi - j
  {
    if j < hi {
      var f := if !Ready(l[first]) then j else first;
      var g := if l[j].auxPriority < l[f].auxPriority && Ready(l[f]) then j else f;
      IncumbentStays(l, fg, lo, g, j + 1, hi);
    }
  }

  /** Testing the incumbent: a best process with nothing lower after it is kept. */
  lemma {:induction false} IncumbentKeepsBest(l: seq<Process>, fg: bool, lo: nat, first: nat, j: nat, hi: nat, m: nat)
    requires Scannable(l, fg, lo, hi) && lo <= first < |l| && first <= j && lo <= j <= hi && (j == lo || first < j)
    requires Kept(l, lo, hi, m)
    requires m < j ==> Ready(l[first]) && l[first].auxPriority == l[m].auxPriority
    ensures IsBest(l, lo, hi, Scan(Incumbent, l, fg, first, j, hi))
    decreases hi - j
  {
    if j < hi {
      var f := if !Ready(l[first]) then j else first;
      var g := if l[j].auxPriority < l[f].auxPriority && Ready(l[f]) then j else f;
      if m == j { assert f < hi; }
      IncumbentKeepsBest(l, fg, lo, g, j + 1, hi, m);
    }
  }

  /** The scan as written finds a ready process of least auxPriority exactly when, after some
      such process, no process before the current one has a strictly lower auxPriority (such a
      process is then necessarily blocked). */
  lemma IncumbentScanExactly(l: seq<Process>, fg: bool, lo: nat, hi: nat)
    requires Scannable(l, fg, lo, hi) && AnyReady(l, lo, hi)
    ensures IsBest(l, lo, hi, Scan(Incumbent, l, fg, lo, lo, hi)) <==>
              exists m: nat :: Kept(l, lo, hi, m)
  {
    var r := Scan(Incumbent, l, fg, lo, lo, hi);
    IncumbentStays(l, fg, lo, lo, lo, hi);
    if IsBest(l, lo, hi, r) { assert Kept(l, lo, hi, r); }
    if m: nat :| Kept(l, lo, hi, m) {
      IncumbentKeepsBest(l, fg, lo, lo, lo, hi, m);
    }
  }

  /** A ready process followed in [lo, hi) by none of strictly lower auxPriority. */
  predicate Lasting(l: seq<Process>, lo: nat, hi: nat, m: nat)
    requires hi <= |l|
  {
    lo <= m < hi && Ready(l[m]) && forall i | m < i < hi :: l[i].auxPriority >= l[m].auxPriority
  }

  lemma {:induction false} IncumbentKeepsReady(l: seq<Process>, fg: bool, lo: nat, first: nat, j: nat, hi: nat, m: nat)
    requires Scannable(l, fg, lo, hi) && lo <= first < |l| && first <= j && lo <= j <= hi
    requires Lasting(l, lo, hi, m)
    requires m < j ==> Ready(l[first]) && l[first].auxPriority <= l[m].auxPriority
    ensures Ready(l[Scan(Incumbent, l, fg, first, j, hi)])
    decreases hi - j
  {
    if j == hi {
    } else {
      var f := if !Ready(l[first]) then j else first;
      var g := if l[j].auxPriority < l[f].auxPriority && Ready(l[f]) then j else f;
      IncumbentKeepsReady(l, fg, lo, g, j + 1, hi, m);
    }
  }

  /** The scan as written ends on a ready process exactly when some ready process is followed in its
      range by none of strictly lower auxPriority. */
  lemma IncumbentEndsReadyExactly(l: seq<Process>, fg: bool, lo: nat, hi: nat)
    requires Scannable(l, fg, lo, hi) && lo < hi
    ensures Ready(l[Scan(Incumbent, l, fg, lo, lo, hi)]) <==> exists m: nat :: Lasting(l, lo, hi, m)
  {
    var r := Scan(Incumbent, l, fg, lo, lo, hi);
    IncumbentStays(l, fg, lo, lo, lo, hi);
    if Ready(l[r]) { assert Lasting(l, lo, hi, r); }
    if m: nat :| Lasting(l, lo, hi, m) {
      IncumbentKeepsReady(l, fg, lo, lo, lo, hi, m);
    }
  }

  // ---------------------------------------------------------------- dispatch choice

  /** First position the prefix scan may choose. */
  function PrefixStart(s: Sched): nat
  {
    if s.fgTaken && PrefixEnd(s) > 0 then 1 else 0
  }

  /** The prefix scan is a scan of [PrefixStart, PrefixEnd). */
  lemma PrefixScanRange(t: Test, s: Sched)
    requires WellFormed(s) && NoNullRead(s) && !s.cur.Unstarted?
    ensures Scannable(s.list, s.fgTaken, PrefixStart(s), PrefixEnd(s)) || PrefixEnd(s) == 0
    ensures PrefixEnd(s) > 0 ==>
              PrefixScan(t, s) == Scan(t, s.list, s.fgTaken, PrefixStart(s), PrefixStart(s), PrefixEnd(s))
    ensures PrefixEnd(s) == 0 ==> PrefixScan(t, s) == 0
  {
  }

  predicate Eligible(s: Sched, i: nat)
    requires i < |s.list|
  {
    Ready(s.list[i]) && !(s.fgTaken && s.list[i].pid == SHELL_PID)
  }

  /** Nothing eligible other than the current process is strictly more urgent than the choice,
      and the dummy runs only when nothing is eligible. */
  predicate Optimal(s: Sched, c: Choice) {
    match c
    case Idle => forall i: nat | i < |s.list| :: !Eligible(s, i)
    case Run(k) =>
      && k < |s.list| && Eligible(s, k)
      && forall i: nat | i < |s.list| && Eligible(s, i) && i != PrefixEnd(s) ::
           s.list[k].auxPriority <= s.list[i].auxPriority
  }

  /** The prefix scan's result is as good as the prefix allows. */
  predicate PrefixExact(s: Sched, f: nat)
    requires WellFormed(s)
  {
    var lo, hi := PrefixStart(s), PrefixEnd(s);
    && f < |s.list|
    && (lo >= hi ==> f == hi || hi == |s.list|)
    && (lo < hi ==> lo <= f < hi && (AnyReady(s.list, lo, hi) ==> IsBest(s.list, lo, hi, f)))
  }

  lemma SuffixScanFinds(s: Sched)
    requires WellFormed(s) && SuffixStart(s) < |s.list|
    ensures var b := SuffixStart(s);
            SoFar(s.list, b, Scan(Candidate, s.list, false, b, b, |s.list|), |s.list|)
  {
    CandidateScan(s.list, false, SuffixStart(s), SuffixStart(s), SuffixStart(s), |s.list|);
  }

  /** Whatever the prefix scan returned, what runs is ready, is never the shell while a
      foreground process exists, or is the dummy. */
  lemma ChoiceIsRunnable(s: Sched)
    requires WellFormed(s) && NoNullRead(s) && !s.cur.Unstarted?
    ensures Chosen(s).Run? ==> Eligible(Aged(s), Chosen(s).index)
  {
    AgedWellFormed(s);
    var a := Aged(s);
    if SuffixStart(a) < |a.list| {
      SuffixScanFinds(a);
      assert SuffixStart(a) >= 1;
    }
  }

  lemma DecideOptimal(s: Sched, f: nat)
    requires WellFormed(s) && !s.cur.Unstarted? && PrefixExact(s, f)
    ensures Optimal(s, Decide(s, f))
  {
    var l, lo, hi, b := s.list, PrefixStart(s), PrefixEnd(s), SuffixStart(s);
    if b < |l| {
      SuffixScanFinds(s);
    }
    forall i: nat | i < |l| && Eligible(s, i)
      ensures i >= b || i == hi || lo <= i < hi
    {
    }
  }

  /** With the candidate tested in both scans the choice is optimal, always. */
  lemma IntendedChoiceIsOptimal(s: Sched)
    requires WellFormed(s) && NoNullRead(s) && !s.cur.Unstarted?
    ensures Optimal(s, Decide(s, PrefixScan(Candidate, s)))
  {
    PrefixScanRange(Candidate, s);
    var lo, hi := PrefixStart(s), PrefixEnd(s);
    if lo < hi {
      CandidateScan(s.list, s.fgTaken, lo, lo, lo, hi);
    }
    DecideOptimal(s, PrefixScan(Candidate, s));
  }

  /** As written the choice is optimal when nothing in the prefix is ready, or some best process
      of the prefix is followed there by none of strictly lower auxPriority; in particular when
      every process in the prefix is ready. */
  lemma WrittenChoiceIsOptimal(s: Sched)
    requires WellFormed(s) && NoNullRead(s) && !s.cur.Unstarted?
    requires var a := Aged(s);
             var lo, hi := PrefixStart(a), PrefixEnd(a);
             AnyReady(a.list, lo, hi) ==>
               exists m: nat :: Kept(a.list, lo, hi, m)
    ensures Optimal(Aged(s), Chosen(s))
  {
    AgedWellFormed(s);
    var a := Aged(s);
    PrefixScanRange(Incumbent, a);
    var lo, hi := PrefixStart(a), PrefixEnd(a);
    if lo < hi {
      IncumbentStays(a.list, a.fgTaken, lo, lo, lo, hi);
      if AnyReady(a.list, lo, hi) {
        IncumbentScanExactly(a.list, a.fgTaken, lo, hi);
      }
    }
    DecideOptimal(a, PrefixScan(Incumbent, a));
  }

  /** Process `k` is ready and no ready process of the prefix is strictly more urgent. */
  predicate AsGoodAsPrefix(s: Sched, k: nat)
    requires k < |s.list|
  {
    && Ready(s.list[k])
    && forall i: nat | PrefixStart(s) <= i < PrefixEnd(s) && Ready(s.list[i]) ::
         s.list[k].auxPriority <= s.list[i].auxPriority
  }

  /** Some process after the current one makes up for whatever the prefix scan missed. */
  predicate SuffixMakesUp(s: Sched)
    requires WellFormed(s)
  {
    exists k: nat :: SuffixStart(s) <= k < |s.list| && AsGoodAsPrefix(s, k)
  }

  /** Every ready process of the prefix is followed there by one of strictly lower auxPriority, so
      that the test of line 238 falls back on the current process, and that is urgent enough. */
  ghost predicate CurrentMakesUp(s: Sched)
    requires WellFormed(s)
  {
    && s.cur.Listed? && AsGoodAsPrefix(s, PrefixEnd(s))
    && forall m: nat :: !Lasting(s.list, PrefixStart(s), PrefixEnd(s), m)
  }

  ghost predicate NothingHidden(s: Sched)
    requires WellFormed(s)
  {
    var lo, hi := PrefixStart(s), PrefixEnd(s);
    AnyReady(s.list, lo, hi) ==> exists m: nat :: Kept(s.list, lo, hi, m)
  }

  lemma SuffixSuffices(s: Sched, f: nat)
    requires WellFormed(s) && NoNullRead(s) && !s.cur.Unstarted? && f == PrefixScan(Incumbent, s) && SuffixMakesUp(s)
    ensures Optimal(s, Decide(s, f))
  {
    var l, lo, hi, b := s.list, PrefixStart(s), PrefixEnd(s), SuffixStart(s);
    PrefixScanRange(Incumbent, s);
    SuffixScanFinds(s);
    if lo < hi { IncumbentStays(l, s.fgTaken, lo, lo, lo, hi); }
    forall i: nat | i < |l| && Eligible(s, i)
      ensures i >= b || i == hi || lo <= i < hi
    {
    }
  }

  lemma CurrentSuffices(s: Sched, f: nat)
    requires WellFormed(s) && NoNullRead(s) && !s.cur.Unstarted? && f == PrefixScan(Incumbent, s)
    requires CurrentMakesUp(s) && AnyReady(s.list, PrefixStart(s), PrefixEnd(s))
    ensures Optimal(s, Decide(s, f))
  {
    var l, lo, hi, b := s.list, PrefixStart(s), PrefixEnd(s), SuffixStart(s);
    PrefixScanRange(Incumbent, s);
    IncumbentEndsReadyExactly(l, s.fgTaken, lo, hi);
    if b < |l| { SuffixScanFinds(s); }
    forall i: nat | i < |l| && Eligible(s, i)
      ensures i >= b || i == hi || lo <= i < hi
    {
    }
  }

  /** What an optimal choice is, and where it comes from. */
  lemma ChoiceComesFrom(s: Sched, f: nat)
    requires WellFormed(s) && NoNullRead(s) && !s.cur.Unstarted? && f == PrefixScan(Incumbent, s)
    requires Optimal(s, Decide(s, f)) && AnyReady(s.list, PrefixStart(s), PrefixEnd(s))
    ensures Decide(s, f).Run?
    ensures var k := Decide(s, f).index;
            || SuffixStart(s) <= k
            || (k == f && Ready(s.list[f]))
            || (k == PrefixEnd(s) && s.cur.Listed? && !Ready(s.list[f]))
  {
    var i :| PrefixStart(s) <= i < PrefixEnd(s) && Ready(s.list[i]);
    assert Eligible(s, i);
    if SuffixStart(s) < |s.list| { SuffixScanFinds(s); }
  }

  lemma OptimalIsAsGood(s: Sched, k: nat)
    requires WellFormed(s) && Optimal(s, Run(k))
    ensures AsGoodAsPrefix(s, k)
  {
    forall j: nat | PrefixStart(s) <= j < PrefixEnd(s) && Ready(s.list[j])
      ensures s.list[k].auxPriority <= s.list[j].auxPriority
    {
      assert Eligible(s, j);
    }
  }

  lemma OptimalMeans(s: Sched, f: nat)
    requires WellFormed(s) && NoNullRead(s) && !s.cur.Unstarted? && f == PrefixScan(Incumbent, s)
    requires Optimal(s, Decide(s, f)) && AnyReady(s.list, PrefixStart(s), PrefixEnd(s))
    ensures NothingHidden(s) || SuffixMakesUp(s) || CurrentMakesUp(s)
  {
    var lo, hi := PrefixStart(s), PrefixEnd(s);
    PrefixScanRange(Incumbent, s);
    ChoiceComesFrom(s, f);
    var k := Decide(s, f).index;
    OptimalIsAsGood(s, k);
    IncumbentEndsReadyExactly(s.list, s.fgTaken, lo, hi);
    if k == f && Ready(s.list[f]) {
      BestInPrefix(s, f);
    }
  }

  lemma BestInPrefix(s: Sched, f: nat)
    requires WellFormed(s) && NoNullRead(s) && !s.cur.Unstarted? && f == PrefixScan(Incumbent, s)
    requires AsGoodAsPrefix(s, f) && AnyReady(s.list, PrefixStart(s), PrefixEnd(s))
    ensures NothingHidden(s)
  {
    var lo, hi := PrefixStart(s), PrefixEnd(s);
    PrefixScanRange(Incumbent, s);
    IncumbentStays(s.list, s.fgTaken, lo, lo, lo, hi);
    IncumbentScanExactly(s.list, s.fgTaken, lo, hi);
  }

  /** As written the choice is optimal exactly when one of these holds: nothing in the prefix is
      ready, or some best process of the prefix is followed there by none of strictly lower
      auxPriority; or a process after the current one is as urgent as every ready one before it;
      or the current one is that urgent and every ready process before it is followed there by one
      of strictly lower auxPriority. */
  lemma WrittenChoiceOptimalExactly(s: Sched)
    requires WellFormed(s) && NoNullRead(s) && !s.cur.Unstarted?
    ensures WellFormed(Aged(s)) && NoNullRead(Aged(s))
    ensures Optimal(Aged(s), Chosen(s)) <==>
              NothingHidden(Aged(s)) || SuffixMakesUp(Aged(s)) || CurrentMakesUp(Aged(s))
  {
    AgedWellFormed(s);
    var a := Aged(s);
    var f := PrefixScan(Incumbent, a);
    if NothingHidden(a) {
      WrittenChoiceIsOptimal(s);
    } else if SuffixMakesUp(a) {
      SuffixSuffices(a, f);
    } else if CurrentMakesUp(a) {
      CurrentSuffices(a, f);
    } else if Optimal(a, Chosen(s)) {
      OptimalMeans(a, f);
    }
  }

  const HIDING: seq<Process> :=
    [Process(1, 0, 1, 1), Process(2, 1, 3, 3), Process(3, 0, 3, 2), Process(4, 0, 3, 3)]

  lemma HidingIndex()
    ensures IndexOf(HIDING, 4) == 3
  {
    var k := IndexOf(HIDING, 4);
    assert HIDING[3].pid == 4;
  }

  lemma HidingScans()
    ensures Scan(Incumbent, HIDING, false, 0, 0, 3) == 2
    ensures Scan(Candidate, HIDING, false, 0, 0, 3) == 1
  {
    assert Scan(Incumbent, HIDING, false, 2, 3, 3) == 2;
    assert Scan(Incumbent, HIDING, false, 1, 2, 3) == 2;
    assert Scan(Candidate, HIDING, false, 1, 3, 3) == 1;
    assert Scan(Candidate, HIDING, false, 1, 2, 3) == 1;
  }

  /** Shell and current process blocked, pid 2 ready, pid 3 blocked but lower: the dummy runs
      although pid 2 is ready; testing the candidate would run pid 2. */
  lemma BlockedProcessHidesReadyOne(s: Sched)
    requires s == Sched(HIDING, Listed(4), false, 3)
    ensures WellFormed(s) && NoNullRead(s)
    ensures Chosen(s) == Idle && Ready(Aged(s).list[1])
    ensures Decide(Aged(s), PrefixScan(Candidate, Aged(s))) == Run(1)
  {
    HidingIndex();
    HidingScans();
    assert PrefixEnd(Aged(s)) == 3 && SuffixStart(Aged(s)) == 4;
  }
}
