// Extent allocation of the BareMetal File System (Bootloader/BMFS/bmfs.c:205-231, 596-719).
//
// The directory is 64 records.  A record whose name starts with 0x00 ends the directory; one
// whose name starts with 0x01 is unused but keeps the block numbers of the file deleted there.
module BmfsSpec {
  import opened Options

  const ENTRIES: nat := 64
  const WORD64: nat := 0x1_0000_0000_0000_0000 // unsigned long long
  const MAX_NAME: nat := 31

  datatype Record =
    | End
    | Unused(start: nat, reserved: nat)
    | File(name: string, start: nat, reserved: nat, size: nat)

  type Directory = d: seq<Record> | |d| == ENTRIES witness seq(ENTRIES, _ => End)

  /** A name the directory can hold: not empty, not the unused mark, room for the terminator. */
  predicate StorableName(name: string) {
    0 < |name| <= MAX_NAME && name[0] != '\U{0001}' && forall i | 0 <= i < |name| :: name[i] != '\0'
  }

  /** Records before the end mark: all of them when there is none. */
  function Limit(d: seq<Record>): (k: nat)
    ensures k <= |d|
    ensures forall i | 0 <= i < k :: !d[i].End?
    ensures k < |d| ==> d[k].End?
  {
    if d == [] || d[0].End? then 0 else 1 + Limit(d[1..])
  }

  predicate LiveAt(d: seq<Record>, i: nat)
    ensures LiveAt(d, i) ==> i < |d|
  {
    i < Limit(d) && d[i].File?
  }

  /** findfile: the first live record with this name, or the number of records. */
  function Find(d: seq<Record>, name: string): (k: nat)
    ensures k <= |d|
    ensures k < |d| ==> LiveAt(d, k) && d[k].name == name
    ensures forall i: nat | i < k && LiveAt(d, i) :: d[i].name != name
  {
    FindFrom(d, name, 0)
  }

  function FindFrom(d: seq<Record>, name: string, t: nat): (k: nat)
    requires t <= Limit(d)
    ensures t <= k <= |d|
    ensures k < |d| ==> LiveAt(d, k) && d[k].name == name
    ensures forall i: nat | t <= i < k && LiveAt(d, i) :: d[i].name != name
    decreases |d| - t
  {
    if t == |d| || d[t].End? then |d|
    else if d[t].File? && d[t].name == name then t
    else FindFrom(d, name, t + 1)
  }

  function EndOf(r: Record): nat
    requires !r.End?
  {
    r.start + r.reserved
  }

  predicate Overlap(a: nat, la: nat, b: nat, lb: nat) {
    a < b + lb && b < a + la
  }

  // ---------------------------------------------------------------- invariant

  /** Records before the end mark lie in blocks [1, blocks - 1); live ones are pairwise disjoint
      and distinctly named. */
  ghost predicate DirInv(d: seq<Record>, blocks: nat) {
    && |d| == ENTRIES
    && (forall i | 0 <= i < Limit(d) :: d[i].start >= 1 && d[i].reserved >= 1 && EndOf(d[i]) <= blocks - 1)
    && (forall i: nat | LiveAt(d, i) :: StorableName(d[i].name))
    && (forall i: nat, j: nat | LiveAt(d, i) && LiveAt(d, j) && i != j ::
          d[i].name != d[j].name && !Overlap(d[i].start, d[i].reserved, d[j].start, d[j].reserved))
  }

  /** `len` blocks from `s` on are data blocks no live file uses. */
  ghost predicate FreeRange(d: seq<Record>, blocks: nat, s: nat, len: nat) {
    && 1 <= s && s + len <= blocks - 1
    && forall i: nat | LiveAt(d, i) :: !Overlap(s, len, d[i].start, d[i].reserved)
  }

  // ---------------------------------------------------------------- the sorted copy

  /** What qsort with StartingBlockCmp leaves in the first `|u|` records of the copy: the live
      ones by starting block, then the unused ones in some order. */
  predicate SortedCopy(u: seq<Record>, s: seq<Record>) {
    && multiset(s) == multiset(u)
    && (forall i, j | 0 <= i < j < |s| && s[j].File? :: s[i].File?)
    && (forall i, j | 0 <= i < j < |s| && s[i].File? && s[j].File? :: s[i].start <= s[j].start)
  }

  function LiveCount(s: seq<Record>): (m: nat)
    ensures m <= |s| && (forall i | 0 <= i < m :: s[i].File?) && (m < |s| ==> !s[m].File?)
  {
    if s == [] || !s[0].File? then 0 else 1 + LiveCount(s[1..])
  }

  // ---------------------------------------------------------------- the gap scan

  /** Unsigned 64-bit subtraction. */
  function Gap(a: nat, b: nat): nat {
    (a - b) % WORD64
  }

  /** The scan of lines 663-685 from record `t` on, `prev` being the end of the previous one. */
  function WrittenScan(s: seq<Record>, t: nat, prev: nat, want: nat, blocks: nat): Option<nat>
    requires t <= |s| && blocks >= 1 && forall i | 0 <= i < |s| :: !s[i].End?
    decreases |s| - t
  {
    var here := if t == |s| || s[t].Unused? then blocks - 1 else s[t].start;
    if Gap(here, prev) >= want then Some(prev)
    else if t == |s| then None
    else WrittenScan(s, t + 1, EndOf(s[t]), want, blocks)
  }

  /** The scan that ends at the first unused record, since those sort last. */
  function IntendedScan(s: seq<Record>, t: nat, prev: nat, want: nat, blocks: nat): Option<nat>
    requires t <= |s| && blocks >= 1 && forall i | 0 <= i < |s| :: !s[i].End?
    decreases |s| - t
  {
    if t == |s| || s[t].Unused? then
      if Gap(blocks - 1, prev) >= want then Some(prev) else None
    else if Gap(s[t].start, prev) >= want then Some(prev)
    else IntendedScan(s, t + 1, EndOf(s[t]), want, blocks)
  }

  /** The first unused record, in the order of the copy, after whose stale end the rest of the
      disk has room. */
  function StaleScan(s: seq<Record>, t: nat, want: nat, blocks: nat): Option<nat>
    requires t <= |s| && blocks >= 1 && forall i | 0 <= i < |s| :: !s[i].End?
    decreases |s| - t
  {
    if t == |s| then None
    else if Gap(blocks - 1, EndOf(s[t])) >= want then Some(EndOf(s[t]))
    else StaleScan(s, t + 1, want, blocks)
  }

  predicate CopyInv(s: seq<Record>, blocks: nat) {
    && blocks < WORD64
    && (forall i | 0 <= i < |s| :: !s[i].End? && s[i].start >= 1 && s[i].reserved >= 1 && EndOf(s[i]) <= blocks - 1)
    && (forall i, j | 0 <= i < j < |s| && s[j].File? :: s[i].File?)
    && (forall i, j | 0 <= i < j < |s| && s[i].File? && s[j].File? :: EndOf(s[i]) <= s[j].start)
  }

  /** No live record of the copy meets [a, a + len). */
  predicate Clear(s: seq<Record>, a: nat, len: nat) {
    forall i | 0 <= i < |s| && s[i].File? :: !Overlap(a, len, s[i].start, s[i].reserved)
  }

  predicate Fits(s: seq<Record>, blocks: nat, a: nat, len: nat) {
    1 <= a && a + len <= blocks - 1 && Clear(s, a, len)
  }

  /** First fit: the intended scan finds the lowest range that fits and fails only when none does. */
  lemma {:induction false} IntendedIsFirstFit(s: seq<Record>, t: nat, prev: nat, want: nat, blocks: nat)
    requires CopyInv(s, blocks) && t <= |s| && want >= 1 && blocks >= 2
    requires 1 <= prev <= blocks - 1
    requires forall i | 0 <= i < t && i < |s| :: s[i].File? && EndOf(s[i]) <= prev
    requires forall i | t <= i < |s| && s[i].File? :: prev <= s[i].start
    requires forall a: nat | Fits(s, blocks, a, want) :: prev <= a
    ensures match IntendedScan(s, t, prev, want, blocks)
            case Some(a) => Fits(s, blocks, a, want) && forall b: nat | Fits(s, blocks, b, want) :: a <= b
            case None => forall b: nat :: !Fits(s, blocks, b, want)
    decreases |s| - t
  {
    if t == |s| || s[t].Unused? {
      GapIsDifference(blocks - 1, prev);
      if blocks - 1 - prev >= want {
        assert Fits(s, blocks, prev, want);
      }
    } else {
      GapIsDifference(s[t].start, prev);
      if s[t].start - prev >= want {
        forall i | 0 <= i < |s| && s[i].File?
          ensures !Overlap(prev, want, s[i].start, s[i].reserved)
        {
          if i > t { assert EndOf(s[t]) <= s[i].start; }
        }
        assert Fits(s, blocks, prev, want);
      } else {
        forall a: nat | Fits(s, blocks, a, want)
          ensures EndOf(s[t]) <= a
        {
          assert !Overlap(a, want, s[t].start, s[t].reserved);
        }
        IntendedIsFirstFit(s, t + 1, EndOf(s[t]), want, blocks);
      }
    }
  }

  lemma GapIsDifference(a: nat, b: nat)
    requires b <= a < WORD64
    ensures Gap(a, b) == a - b
  {
  }

  /** As written: the intended place if there is one, otherwise the first stale end with room. */
  lemma {:induction false} WrittenScanIs(s: seq<Record>, t: nat, prev: nat, want: nat, blocks: nat)
    requires CopyInv(s, blocks) && t <= |s| && blocks >= 2
    requires t <= LiveCount(s)
    ensures WrittenScan(s, t, prev, want, blocks) ==
            if IntendedScan(s, t, prev, want, blocks).Some? then IntendedScan(s, t, prev, want, blocks)
            else StaleScan(s, LiveCount(s), want, blocks)
    decreases |s| - t
  {
    if t < LiveCount(s) {
      if Gap(s[t].start, prev) < want {
        WrittenScanIs(s, t + 1, EndOf(s[t]), want, blocks);
      }
    } else {
      WrittenTail(s, t, prev, want, blocks);
    }
  }

  lemma {:induction false} WrittenTail(s: seq<Record>, t: nat, prev: nat, want: nat, blocks: nat)
    requires CopyInv(s, blocks) && LiveCount(s) <= t <= |s| && blocks >= 2
    ensures WrittenScan(s, t, prev, want, blocks) ==
            if Gap(blocks - 1, prev) >= want then Some(prev) else StaleScan(s, t, want, blocks)
    decreases |s| - t
  {
    if t < |s| {
      assert s[t].Unused?;
      WrittenTail(s, t + 1, EndOf(s[t]), want, blocks);
    }
  }

  /** Some unused record's stale end leaves room for the request. */
  predicate StaleRoom(s: seq<Record>, want: nat, blocks: nat) {
    exists i :: 0 <= i < |s| && s[i].Unused? && EndOf(s[i]) + want <= blocks - 1
  }

  lemma {:induction false} StaleScanFinds(s: seq<Record>, t: nat, want: nat, blocks: nat)
    requires CopyInv(s, blocks) && LiveCount(s) <= t <= |s| && blocks >= 2
    ensures StaleScan(s, t, want, blocks).Some? <==>
              exists i :: t <= i < |s| && s[i].Unused? && EndOf(s[i]) + want <= blocks - 1
    ensures StaleScan(s, t, want, blocks).Some? ==>
              StaleScan(s, t, want, blocks).value >= 1 && StaleScan(s, t, want, blocks).value + want <= blocks - 1
    decreases |s| - t
  {
    if t < |s| {
      assert s[t].Unused?;
      GapIsDifference(blocks - 1, EndOf(s[t]));
      StaleScanFinds(s, t + 1, want, blocks);
    }
  }

  /** The whole scan as create starts it. */
  function WrittenPlace(s: seq<Record>, want: nat, blocks: nat): Option<nat>
    requires blocks >= 1 && forall i | 0 <= i < |s| :: !s[i].End?
  {
    WrittenScan(s, 0, 1, want, blocks)
  }

  function IntendedPlace(s: seq<Record>, want: nat, blocks: nat): Option<nat>
    requires blocks >= 1 && forall i | 0 <= i < |s| :: !s[i].End?
  {
    IntendedScan(s, 0, 1, want, blocks)
  }

  lemma IntendedPlaceIsFirstFit(s: seq<Record>, want: nat, blocks: nat)
    requires CopyInv(s, blocks) && want >= 1 && blocks >= 2
    ensures match IntendedPlace(s, want, blocks)
            case Some(a) => Fits(s, blocks, a, want) && forall b: nat | Fits(s, blocks, b, want) :: a <= b
            case None => forall b: nat :: !Fits(s, blocks, b, want)
  {
    IntendedIsFirstFit(s, 0, 1, want, blocks);
  }

  /** The place the code picks is free exactly when the intended scan finds one or no stale end
      leaves room; when neither holds, the file is put on top of a live one. */
  lemma WrittenPlaceFreeExactly(s: seq<Record>, want: nat, blocks: nat)
    requires CopyInv(s, blocks) && want >= 1 && blocks >= 2
    ensures var w := WrittenPlace(s, want, blocks);
            && (w.None? || Fits(s, blocks, w.value, want) <==>
                IntendedPlace(s, want, blocks).Some? || !StaleRoom(s, want, blocks))
            && (IntendedPlace(s, want, blocks).Some? ==> w == IntendedPlace(s, want, blocks))
            && (w.Some? && !Fits(s, blocks, w.value, want) ==> !Clear(s, w.value, want))
  {
    WrittenScanIs(s, 0, 1, want, blocks);
    StaleScanFinds(s, LiveCount(s), want, blocks);
    IntendedPlaceIsFirstFit(s, want, blocks);
  }
}
