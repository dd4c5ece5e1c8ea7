// create and delete on the directory, and when they keep it sound
// (Bootloader/BMFS/bmfs.c:610-719, 802-821).
module BmfsDirectory {
  import opened Options
  import opened BmfsSpec

  /** Sizes in MiB are rounded up to whole 2 MiB blocks. */
  function BlocksFor(maxsize: nat): (k: nat)
    ensures RoomFor(k, maxsize)
  {
    (if maxsize % 2 != 0 then maxsize + 1 else maxsize) / 2
  }

  /** `k` blocks of 2 MiB hold `maxsize` MiB, and one less would not. */
  predicate RoomFor(k: nat, maxsize: nat) {
    maxsize * 1048576 <= k * 2097152 < maxsize * 1048576 + 2097152
  }

  /** num_used_entries: stays 0 when there is no end mark. */
  function UsedEntries(d: seq<Record>): (k: nat)
    ensures k <= Limit(d)
  {
    if Limit(d) < |d| then Limit(d) else 0
  }

  /** first_free_entry: the first unused record, else the end mark, else none (|d|). */
  function FirstFreeEntry(d: seq<Record>): (k: nat)
    ensures k <= |d|
    ensures k < |d| ==> k <= Limit(d) && !d[k].File?
    ensures k < Limit(d) ==> d[k].Unused?
    ensures forall i | 0 <= i < k :: d[i].File?
  {
    if d == [] then 0 else if !d[0].File? then 0 else 1 + FirstFreeEntry(d[1..])
  }

  /** The record as the next reader sees it: an empty name is the end mark, and one that starts with
      0x01 is the mark of an unused record. */
  function Entry(name: string, start: nat, want: nat): Record {
    if name == "" then End
    else if name[0] == '\U{0001}' then Unused(start, want)
    else File(name, start, want, 0)
  }

  /** The record written, and the end mark moved on when it was used up. */
  function PlaceFile(d: seq<Record>, slot: nat, name: string, start: nat, want: nat): seq<Record>
    requires slot < |d|
  {
    var e := d[slot := Entry(name, start, want)];
    var used := UsedEntries(d);
    if slot == used && used + 1 < |d| then e[used + 1 := End] else e
  }

  datatype CreateResult = AlreadyExists | NoEntry | NoSpace | Created(dir: seq<Record>)

  /** create, given what qsort made of the used entries. */
  function Create(d: seq<Record>, sorted: seq<Record>, name: string, maxsize: nat, blocks: nat): CreateResult
    requires SortedCopy(d[..UsedEntries(d)], sorted) && blocks >= 1
  {
    var slot, want := FirstFreeEntry(d), BlocksFor(maxsize);
    if Find(d, name) < |d| then AlreadyExists
    else if slot == |d| then NoEntry
    else
      CopyHasNoEnd(d, sorted);
      match WrittenPlace(sorted, want, blocks)
      case None => NoSpace
      case Some(a) => Created(PlaceFile(d, slot, name, a, want))
  }

  function Delete(d: seq<Record>, name: string): seq<Record> {
    var k := Find(d, name);
    if k < |d| then d[k := Unused(d[k].start, d[k].reserved)] else d
  }

  // ---------------------------------------------------------------- the copy and the directory

  lemma CopyMember(u: seq<Record>, s: seq<Record>, i: nat) returns (a: nat)
    requires SortedCopy(u, s) && i < |s|
    ensures a < |u| && u[a] == s[i]
  {
    assert s[i] in multiset(s);
    assert s[i] in multiset(u);
    a :| a < |u| && u[a] == s[i];
  }

  lemma CopyMemberBack(u: seq<Record>, s: seq<Record>, a: nat) returns (i: nat)
    requires SortedCopy(u, s) && a < |u|
    ensures i < |s| && s[i] == u[a]
  {
    assert u[a] in multiset(u);
    assert u[a] in multiset(s);
    i :| i < |s| && s[i] == u[a];
  }

  lemma TwiceInMultiset(s: seq<Record>, i: nat, j: nat)
    requires i < j < |s| && s[i] == s[j]
    ensures multiset(s)[s[i]] >= 2
  {
    assert s == s[..j] + [s[j]] + s[j + 1..];
    assert s[i] in s[..j];
    assert multiset(s) == multiset(s[..j]) + multiset{s[j]} + multiset(s[j + 1..]);
  }

  lemma TwoPositions(u: seq<Record>, x: Record) returns (a: nat, b: nat)
    requires multiset(u)[x] >= 2
    ensures a < b < |u| && u[a] == x && u[b] == x
  {
    assert x in multiset(u);
    a :| a < |u| && u[a] == x;
    assert u == u[..a] + [x] + u[a + 1..];
    assert multiset(u) == multiset(u[..a]) + multiset{x} + multiset(u[a + 1..]);
    if x in multiset(u[..a]) {
      b :| b < a && u[..a][b] == x;
      a, b := b, a;
    } else {
      assert x in multiset(u[a + 1..]);
      var c :| 0 <= c < |u[a + 1..]| && u[a + 1..][c] == x;
      b := a + 1 + c;
    }
  }

  lemma CopyHasNoEnd(d: seq<Record>, s: seq<Record>)
    requires SortedCopy(d[..UsedEntries(d)], s)
    ensures forall i | 0 <= i < |s| :: !s[i].End?
  {
    forall i | 0 <= i < |s|
      ensures !s[i].End?
    {
      var a := CopyMember(d[..UsedEntries(d)], s, i);
    }
  }

  /** Files of a sound directory are disjoint in the copy as well, so sorting puts them end to end. */
  lemma CopyOrdered(d: seq<Record>, s: seq<Record>, blocks: nat, i: nat, j: nat)
    requires DirInv(d, blocks) && SortedCopy(d[..UsedEntries(d)], s)
    requires i < j < |s| && s[i].File? && s[j].File?
    ensures EndOf(s[i]) <= s[j].start
  {
    var u := d[..UsedEntries(d)];
    var a, b;
    if s[i] == s[j] {
      TwiceInMultiset(s, i, j);
      a, b := TwoPositions(u, s[i]);
    } else {
      a := CopyMember(u, s, i);
      b := CopyMember(u, s, j);
    }
    assert LiveAt(d, a) && LiveAt(d, b) && a != b;
  }

  lemma CopyIsSound(d: seq<Record>, s: seq<Record>, blocks: nat)
    requires DirInv(d, blocks) && SortedCopy(d[..UsedEntries(d)], s) && blocks < WORD64
    ensures CopyInv(s, blocks)
  {
    forall i | 0 <= i < |s|
      ensures !s[i].End? && s[i].start >= 1 && s[i].reserved >= 1 && EndOf(s[i]) <= blocks - 1
    {
      var a := CopyMember(d[..UsedEntries(d)], s, i);
    }
    forall i, j | 0 <= i < j < |s| && s[i].File? && s[j].File?
      ensures EndOf(s[i]) <= s[j].start
    {
      CopyOrdered(d, s, blocks, i, j);
    }
  }

  lemma CopyFits(d: seq<Record>, s: seq<Record>, blocks: nat, a: nat, len: nat)
    requires SortedCopy(d[..UsedEntries(d)], s) && Limit(d) < |d|
    ensures Fits(s, blocks, a, len) <==> FreeRange(d, blocks, a, len)
  {
    var u := d[..UsedEntries(d)];
    if Clear(s, a, len) {
      forall i: nat | LiveAt(d, i)
        ensures !Overlap(a, len, d[i].start, d[i].reserved)
      {
        assert u[i] == d[i];
        var k := CopyMemberBack(u, s, i);
      }
    }
    if FreeRange(d, blocks, a, len) {
      forall i | 0 <= i < |s| && s[i].File?
        ensures !Overlap(a, len, s[i].start, s[i].reserved)
      {
        var k := CopyMember(u, s, i);
        assert LiveAt(d, k);
      }
    }
  }

  /** Some unused record's stale end leaves room for `want` blocks before the last block. */
  predicate StaleRoomInDir(d: seq<Record>, want: nat, blocks: nat) {
    exists i :: 0 <= i < Limit(d) && d[i].Unused? && EndOf(d[i]) + want <= blocks - 1
  }

  lemma CopyStaleRoom(d: seq<Record>, s: seq<Record>, want: nat, blocks: nat)
    requires SortedCopy(d[..UsedEntries(d)], s) && Limit(d) < |d|
    ensures StaleRoom(s, want, blocks) <==> StaleRoomInDir(d, want, blocks)
  {
    var u := d[..UsedEntries(d)];
    if StaleRoom(s, want, blocks) {
      var i :| 0 <= i < |s| && s[i].Unused? && EndOf(s[i]) + want <= blocks - 1;
      var k := CopyMember(u, s, i);
      assert d[k].Unused?;
    }
    if StaleRoomInDir(d, want, blocks) {
      var i :| 0 <= i < Limit(d) && d[i].Unused? && EndOf(d[i]) + want <= blocks - 1;
      assert u[i] == d[i];
      var k := CopyMemberBack(u, s, i);
    }
  }

  // ---------------------------------------------------------------- create

  ghost predicate SomeFreeRange(d: seq<Record>, blocks: nat, want: nat) {
    exists a: nat :: FreeRange(d, blocks, a, want)
  }

  lemma PlacedLimit(d: seq<Record>, slot: nat, name: string, start: nat, want: nat)
    requires Limit(d) < |d| && slot == FirstFreeEntry(d) && slot < |d| && StorableName(name)
    ensures var e := PlaceFile(d, slot, name, start, want);
            && |e| == |d| && slot < Limit(e) && e[slot] == File(name, start, want, 0)
            && Limit(e) == (if slot < Limit(d) then Limit(d) else Limit(d) + 1)
            && forall i: nat | i < Limit(e) && i != slot :: i < Limit(d) && e[i] == d[i]
  {
    var e := PlaceFile(d, slot, name, start, want);
    LimitIs(e, if slot < Limit(d) then Limit(d) else Limit(d) + 1);
  }

  lemma {:induction false} LimitIs(d: seq<Record>, k: nat)
    requires k <= |d| && (forall i | 0 <= i < k :: !d[i].End?) && (k < |d| ==> d[k].End?)
    ensures Limit(d) == k
  {
  }

  /** `e` is `d` with one more live record `f` at `slot`. */
  ghost predicate Added(d: seq<Record>, e: seq<Record>, slot: nat, f: Record) {
    && |e| == |d| && f.File? && slot < Limit(e) && e[slot] == f && !LiveAt(d, slot)
    && (forall i: nat | i < Limit(e) && i != slot :: i < Limit(d) && e[i] == d[i])
    && Limit(d) <= Limit(e)
  }

  lemma AddedSound(d: seq<Record>, e: seq<Record>, slot: nat, f: Record, blocks: nat)
    requires DirInv(d, blocks) && Added(d, e, slot, f) && StorableName(f.name) && Find(d, f.name) == |d|
    requires f.reserved >= 1 && FreeRange(d, blocks, f.start, f.reserved)
    ensures DirInv(e, blocks)
  {
    forall i: nat | LiveAt(e, i) && i != slot
      ensures LiveAt(d, i) && e[i] == d[i] && d[i].name != f.name
    {
    }
  }

  lemma AddedOverlaps(d: seq<Record>, e: seq<Record>, slot: nat, f: Record, blocks: nat)
    requires DirInv(d, blocks) && Added(d, e, slot, f) && DirInv(e, blocks)
    ensures FreeRange(d, blocks, f.start, f.reserved)
  {
    assert LiveAt(e, slot);
    forall i: nat | LiveAt(d, i)
      ensures !Overlap(f.start, f.reserved, d[i].start, d[i].reserved)
    {
      assert i != slot && LiveAt(e, i);
    }
  }

  /** A placed file keeps the directory sound exactly when its blocks were free. */
  lemma PlacingKeepsExactly(d: seq<Record>, blocks: nat, name: string, start: nat, want: nat)
    requires DirInv(d, blocks) && Limit(d) < |d| && FirstFreeEntry(d) < |d|
    requires StorableName(name) && Find(d, name) == |d| && want >= 1
    ensures DirInv(PlaceFile(d, FirstFreeEntry(d), name, start, want), blocks) <==> FreeRange(d, blocks, start, want)
  {
    var slot, f := FirstFreeEntry(d), File(name, start, want, 0);
    var e := PlaceFile(d, slot, name, start, want);
    PlacedLimit(d, slot, name, start, want);
    assert Added(d, e, slot, f);
    if DirInv(e, blocks) { AddedOverlaps(d, e, slot, f, blocks); }
    if FreeRange(d, blocks, start, want) { AddedSound(d, e, slot, f, blocks); }
  }

  /** `e` is `d` with the file `f` entered at `slot` and every other file as it was. */
  ghost predicate Entered(d: seq<Record>, e: seq<Record>, slot: nat, f: Record) {
    && |e| == |d| && slot < |d| && !LiveAt(d, slot)
    && (forall i: nat :: LiveAt(e, i) <==> LiveAt(d, i) || i == slot)
    && (forall i: nat | LiveAt(d, i) :: e[i] == d[i])
    && e[slot] == f
  }

  lemma PlacedEnters(d: seq<Record>, name: string, start: nat, want: nat)
    requires Limit(d) < |d| && FirstFreeEntry(d) < |d| && StorableName(name)
    ensures Entered(d, PlaceFile(d, FirstFreeEntry(d), name, start, want), FirstFreeEntry(d), File(name, start, want, 0))
  {
    PlacedLimit(d, FirstFreeEntry(d), name, start, want);
    PlacedKeeps(d, FirstFreeEntry(d), name, start, want);
  }

  lemma PlacedKeeps(d: seq<Record>, slot: nat, name: string, start: nat, want: nat)
    requires Limit(d) < |d| && slot == FirstFreeEntry(d) && slot < |d|
    ensures forall i: nat | i < Limit(d) && i != slot :: PlaceFile(d, slot, name, start, want)[i] == d[i]
  {
  }

  /** The file is entered at block `a`; when any range was free that is the lowest one. */
  ghost predicate PlacedAt(d: seq<Record>, e: seq<Record>, name: string, a: nat, want: nat, blocks: nat) {
    && Entered(d, e, FirstFreeEntry(d), File(name, a, want, 0))
    && (SomeFreeRange(d, blocks, want) ==>
          FreeRange(d, blocks, a, want) && forall b: nat | FreeRange(d, blocks, b, want) :: a <= b)
  }

  lemma CreatePlaces(d: seq<Record>, sorted: seq<Record>, name: string, maxsize: nat, blocks: nat)
    requires SortedCopy(d[..UsedEntries(d)], sorted) && blocks >= 1
    requires Find(d, name) == |d| && FirstFreeEntry(d) < |d|
    ensures forall i | 0 <= i < |sorted| :: !sorted[i].End?
    ensures var w, r := WrittenPlace(sorted, BlocksFor(maxsize), blocks), Create(d, sorted, name, maxsize, blocks);
            r == if w.None? then NoSpace else Created(PlaceFile(d, FirstFreeEntry(d), name, w.value, BlocksFor(maxsize)))
  {
    CopyHasNoEnd(d, sorted);
  }

  /** create on a directory with an end mark, for a request of at least 1 MiB, which is what lines
      159 and 173 let through.
      It reports success exactly when some range is free or some stale end leaves room; the new
      record carries the name and the length, and every other file stays as it was.  It leaves the
      directory sound exactly when some range was free, and then that range is the lowest one. */
  lemma CreateExactly(d: seq<Record>, sorted: seq<Record>, name: string, maxsize: nat, blocks: nat)
    requires DirInv(d, blocks) && SortedCopy(d[..UsedEntries(d)], sorted) && 2 <= blocks < WORD64
    requires Limit(d) < |d| && StorableName(name) && maxsize >= 1 && Find(d, name) == |d|
    ensures var want, r := BlocksFor(maxsize), Create(d, sorted, name, maxsize, blocks);
            && (r.Created? || r.NoSpace?)
            && (r.Created? <==> SomeFreeRange(d, blocks, want) || StaleRoomInDir(d, want, blocks))
            && (r.Created? ==> exists a: nat :: PlacedAt(d, r.dir, name, a, want, blocks))
            && (r.Created? ==> (DirInv(r.dir, blocks) <==> SomeFreeRange(d, blocks, want)))
  {
    var want := BlocksFor(maxsize);
    FreeEntryExists(d);
    CreatePlaces(d, sorted, name, maxsize, blocks);
    CopyIsSound(d, sorted, blocks);
    WrittenPlaceFreeExactly(sorted, want, blocks);
    IntendedPlaceIsFirstFit(sorted, want, blocks);
    CopyStaleRoom(d, sorted, want, blocks);
    forall a: nat
      ensures Fits(sorted, blocks, a, want) <==> FreeRange(d, blocks, a, want)
    {
      CopyFits(d, sorted, blocks, a, want);
    }
    var w := WrittenPlace(sorted, want, blocks);
    if w.Some? {
      WrittenPlaceInDisk(sorted, want, blocks);
      PlacingKeepsExactly(d, blocks, name, w.value, want);
      PlacedEnters(d, name, w.value, want);
      assert PlacedAt(d, Create(d, sorted, name, maxsize, blocks).dir, name, w.value, want, blocks);
    }
  }

  lemma {:induction false} FirstFreeIs(d: seq<Record>, k: nat)
    requires k <= |d| && (forall i | 0 <= i < k :: d[i].File?) && (k < |d| ==> !d[k].File?)
    ensures FirstFreeEntry(d) == k
  {
    if k == 0 {
    } else {
      FirstFreeIs(d[1..], k - 1);
    }
  }

  /** Blocks 1 to 7 hold one file, and an unused record still says 1 to 2: a two-block file is
      reported as created at block 3, on top of the live one. */
  lemma StaleEndExample(d: seq<Record>, name: string)
    requires d == [File("a", 1, 7, 0), Unused(1, 2)] + seq(ENTRIES - 2, _ => End)
    requires StorableName(name) && name != "a"
    ensures DirInv(d, 10) && SortedCopy(d[..UsedEntries(d)], d[..2])
    ensures var r := Create(d, d[..2], name, 4, 10); r.Created? && !DirInv(r.dir, 10)
  {
    FullButStale(d);
    assert Find(d, name) == |d| by { assert Find(d, name) < |d| ==> Find(d, name) == 0; }
    FullBesideAFile(d);
    assert StaleRoomInDir(d, 2, 10) by { assert EndOf(d[1]) + 2 <= 9; }
    assert BlocksFor(4) == 2;
    CreateExactly(d, d[..2], name, 4, 10);
  }

  lemma FullButStale(d: seq<Record>)
    requires d == [File("a", 1, 7, 0), Unused(1, 2)] + seq(ENTRIES - 2, _ => End)
    ensures DirInv(d, 10) && Limit(d) == 2 && SortedCopy(d[..2], d[..2])
    ensures forall i: nat :: LiveAt(d, i) <==> i == 0
  {
    LimitIs(d, 2);
    assert d[0].File? && d[1].Unused?;
  }

  lemma FullBesideAFile(d: seq<Record>)
    requires LiveAt(d, 0) && d[0].start == 1 && d[0].reserved == 7
    ensures !SomeFreeRange(d, 10, 2)
  {
    forall a: nat
      ensures !FreeRange(d, 10, a, 2)
    {
      assert 1 <= a && a + 2 <= 9 ==> Overlap(a, 2, d[0].start, d[0].reserved);
    }
  }

  lemma FreeEntryExists(d: seq<Record>)
    requires Limit(d) < |d|
    ensures FirstFreeEntry(d) < |d|
  {
    assert d[Limit(d)].End?;
  }

  lemma WrittenPlaceInDisk(s: seq<Record>, want: nat, blocks: nat)
    requires CopyInv(s, blocks) && want >= 1 && blocks >= 2 && WrittenPlace(s, want, blocks).Some?
    ensures WrittenPlace(s, want, blocks).value >= 1 && WrittenPlace(s, want, blocks).value + want <= blocks - 1
  {
    WrittenScanIs(s, 0, 1, want, blocks);
    StaleScanFinds(s, LiveCount(s), want, blocks);
    IntendedPlaceIsFirstFit(s, want, blocks);
  }

  /** On a directory without an end mark no entry is counted, so the first data block is taken,
      whatever lies there. */
  lemma CreateWithoutEndMark(d: seq<Record>, sorted: seq<Record>, name: string, maxsize: nat, blocks: nat)
    requires DirInv(d, blocks) && Limit(d) == |d| && SortedCopy(d[..UsedEntries(d)], sorted) && 2 <= blocks < WORD64
    requires StorableName(name) && maxsize >= 1 && Find(d, name) == |d|
    ensures var want, r, slot := BlocksFor(maxsize), Create(d, sorted, name, maxsize, blocks), FirstFreeEntry(d);
            && (r.Created? <==> slot < |d| && 1 + want <= blocks - 1)
            && (r.Created? ==> r.dir[slot] == File(name, 1, want, 0))
            && (r.Created? && slot != 0 ==> (DirInv(r.dir, blocks) <==> FreeRange(d, blocks, 1, want)))
            && (r.Created? && slot != 0 ==> Entered(d, r.dir, slot, File(name, 1, want, 0)))
            // the next record becomes the end mark: every file that was there can no longer be found
            && (r.Created? && slot == 0 ==>
                  && DirInv(r.dir, blocks)
                  && (forall i: nat :: LiveAt(r.dir, i) <==> i == 0)
                  && forall other | other != name :: Find(r.dir, other) == |d|)
  {
    var want, slot := BlocksFor(maxsize), FirstFreeEntry(d);
    NoMarkPlace(d, sorted, want, blocks);
    if slot < |d| {
      NoMarkFile(d, slot, name, want, blocks);
    }
  }

  lemma NoMarkPlace(d: seq<Record>, sorted: seq<Record>, want: nat, blocks: nat)
    requires Limit(d) == |d| && SortedCopy(d[..UsedEntries(d)], sorted) && 2 <= blocks < WORD64
    ensures sorted == [] && WrittenPlace(sorted, want, blocks) == if 1 + want <= blocks - 1 then Some(1) else None
  {
    assert d[..0] == [];
    assert |multiset(sorted)| == |sorted| && |multiset(d[..0])| == 0;
    GapIsDifference(blocks - 1, 1);
  }

  lemma NoMarkFile(d: seq<Record>, slot: nat, name: string, want: nat, blocks: nat)
    requires DirInv(d, blocks) && Limit(d) == |d| && slot == FirstFreeEntry(d) && slot < |d|
    requires StorableName(name) && Find(d, name) == |d| && want >= 1
    ensures var e := PlaceFile(d, slot, name, 1, want);
            && e[slot] == File(name, 1, want, 0)
            && (slot != 0 ==> (DirInv(e, blocks) <==> FreeRange(d, blocks, 1, want)))
            && (slot != 0 ==> Entered(d, e, slot, File(name, 1, want, 0)))
            && (slot == 0 ==> (forall i: nat :: LiveAt(e, i) <==> i == 0))
            && (slot == 0 && 1 + want <= blocks - 1 ==> DirInv(e, blocks))
  {
    var e := PlaceFile(d, slot, name, 1, want);
    if slot == 0 {
      LimitIs(e, 1);
    } else {
      NoMarkEnters(d, slot, name, want);
      var f := File(name, 1, want, 0);
      if DirInv(e, blocks) { AddedOverlaps(d, e, slot, f, blocks); }
      if FreeRange(d, blocks, 1, want) { AddedSound(d, e, slot, f, blocks); }
    }
  }

  lemma NoMarkEnters(d: seq<Record>, slot: nat, name: string, want: nat)
    requires Limit(d) == |d| && slot == FirstFreeEntry(d) && 0 < slot < |d| && StorableName(name)
    ensures var e, f := PlaceFile(d, slot, name, 1, want), File(name, 1, want, 0);
            Entered(d, e, slot, f) && Added(d, e, slot, f)
  {
    LimitIs(PlaceFile(d, slot, name, 1, want), |d|);
  }

  /** One file at block 1 and 63 unused records: a second file is put on top of it. */
  lemma NoMarkOverlapExample(d: seq<Record>)
    requires d == [File("a", 1, 1, 0)] + seq(ENTRIES - 1, _ => Unused(2, 1))
    ensures DirInv(d, 10) && Limit(d) == |d| && SortedCopy(d[..UsedEntries(d)], [])
    ensures var r := Create(d, [], "b", 2, 10); r.Created? && !DirInv(r.dir, 10) && LiveAt(r.dir, 0)
  {
    LimitIs(d, ENTRIES);
    assert d[0].File? && forall i | 1 <= i < |d| :: d[i] == Unused(2, 1);
    assert LiveAt(d, 0) && forall i: nat :: LiveAt(d, i) ==> i == 0;
    FirstFreeIs(d, 1);
    assert d[..0] == [];
    assert BlocksFor(2) == 1;
    CreateWithoutEndMark(d, [], "b", 2, 10);
    assert !FreeRange(d, 10, 1, 1) by { assert Overlap(1, 1, d[0].start, d[0].reserved); }
  }

  /** The unused record comes first: the file behind it can no longer be found. */
  lemma NoMarkLostExample(d: seq<Record>)
    requires d == [Unused(2, 1)] + [File("a", 1, 1, 0)] + seq(ENTRIES - 2, _ => Unused(2, 1))
    ensures DirInv(d, 10) && Limit(d) == |d| && SortedCopy(d[..UsedEntries(d)], []) && Find(d, "a") == 1
    ensures var r := Create(d, [], "b", 2, 10); r.Created? && Find(r.dir, "a") == |d|
  {
    LimitIs(d, ENTRIES);
    assert d[0] == Unused(2, 1) && d[1] == File("a", 1, 1, 0) && forall i | 2 <= i < |d| :: d[i] == Unused(2, 1);
    assert LiveAt(d, 1) && forall i: nat :: LiveAt(d, i) ==> i == 1;
    assert Find(d, "a") <= 1;
    FirstFreeIs(d, 0);
    assert d[..0] == [];
    assert BlocksFor(2) == 1;
    CreateWithoutEndMark(d, [], "b", 2, 10);
  }

  /** create refuses a name that is taken, and after that a directory of 64 files. */
  lemma RefusalsExactly(d: seq<Record>, sorted: seq<Record>, name: string, maxsize: nat, blocks: nat)
    requires |d| == ENTRIES && SortedCopy(d[..UsedEntries(d)], sorted) && blocks >= 1
    ensures var r, taken := Create(d, sorted, name, maxsize, blocks), exists i: nat :: LiveAt(d, i) && d[i].name == name;
            && (r.AlreadyExists? <==> taken)
            && (r.NoEntry? <==> !taken && forall i: nat | i < 64 :: LiveAt(d, i))
  {
    CopyHasNoEnd(d, sorted);
    var slot := FirstFreeEntry(d);
    if slot == |d| {
      LimitIs(d, |d|);
    } else {
      assert !LiveAt(d, slot);
    }
  }

  // ---------------------------------------------------------------- names the directory cannot hold

  /** A file reported as created can be found under its name exactly when the name is not empty
      and does not start with the unused mark. */
  lemma CreatedIsFoundExactly(d: seq<Record>, sorted: seq<Record>, name: string, maxsize: nat, blocks: nat)
    requires |d| == ENTRIES && SortedCopy(d[..UsedEntries(d)], sorted) && blocks >= 1
    requires |name| <= MAX_NAME && (forall i | 0 <= i < |name| :: name[i] != '\0')
    requires Create(d, sorted, name, maxsize, blocks).Created?
    ensures Find(Create(d, sorted, name, maxsize, blocks).dir, name) < |d| <==> StorableName(name)
  {
    CreatePlaces(d, sorted, name, maxsize, blocks);
    var slot, want := FirstFreeEntry(d), BlocksFor(maxsize);
    var start := WrittenPlace(sorted, want, blocks).value;
    if StorableName(name) {
      PlacedIsLive(d, slot, name, start, want);
    } else {
      PlacedIsNotFound(d, slot, name, start, want);
    }
  }

  /** A file reported as created is empty, and what is reserved for it is the size asked for in
      whole blocks, on any directory. */
  lemma CreatedRoom(d: seq<Record>, sorted: seq<Record>, name: string, maxsize: nat, blocks: nat)
    requires SortedCopy(d[..UsedEntries(d)], sorted) && blocks >= 1 && StorableName(name)
    requires Create(d, sorted, name, maxsize, blocks).Created?
    ensures var e := Create(d, sorted, name, maxsize, blocks).dir;
            var k := Find(e, name);
            && k < |e| && e[k].size == 0
            && maxsize * 1048576 <= e[k].reserved * 2097152 < maxsize * 1048576 + 2097152
  {
    CreatePlaces(d, sorted, name, maxsize, blocks);
    var slot, want := FirstFreeEntry(d), BlocksFor(maxsize);
    var start := WrittenPlace(sorted, want, blocks).value;
    PlacedIsLive(d, slot, name, start, want);
    var e := PlaceFile(d, slot, name, start, want);
    var k := Find(e, name);
    if k != slot { BeforeTheMark(d, slot, name, start, want, k); }
  }

  lemma PlacedIsLive(d: seq<Record>, slot: nat, name: string, start: nat, want: nat)
    requires slot == FirstFreeEntry(d) && slot < |d| && StorableName(name)
    ensures var e := PlaceFile(d, slot, name, start, want); LiveAt(e, slot) && Find(e, name) <= slot
  {
    var e := PlaceFile(d, slot, name, start, want);
    assert forall i | 0 <= i <= slot :: e[i].File?;
    assert slot < Limit(e);
  }

  lemma PlacedIsNotFound(d: seq<Record>, slot: nat, name: string, start: nat, want: nat)
    requires slot == FirstFreeEntry(d) && slot < |d| && !Entry(name, start, want).File? && Find(d, name) == |d|
    ensures Find(PlaceFile(d, slot, name, start, want), name) == |d|
  {
    var e := PlaceFile(d, slot, name, start, want);
    var k := Find(e, name);
    if k < |e| {
      UnstorableAddsNone(d, slot, name, start, want, k);
    }
  }

  lemma BeforeTheMark(d: seq<Record>, slot: nat, name: string, start: nat, want: nat, i: nat)
    requires slot == FirstFreeEntry(d) && slot < |d| && i != slot && i < Limit(PlaceFile(d, slot, name, start, want))
    ensures i < Limit(d) && PlaceFile(d, slot, name, start, want)[i] == d[i]
  {
    var e, used := PlaceFile(d, slot, name, start, want), UsedEntries(d);
    if slot == used && used + 1 < |d| { assert e[used + 1].End?; }
    var m := Limit(d);
    assert m < |d| && !e[m].End? ==> m == slot;
    assert i < m;
  }

  lemma UnstorableAddsNone(d: seq<Record>, slot: nat, name: string, start: nat, want: nat, i: nat)
    requires slot == FirstFreeEntry(d) && slot < |d| && !Entry(name, start, want).File?
    requires LiveAt(PlaceFile(d, slot, name, start, want), i)
    ensures LiveAt(d, i) && PlaceFile(d, slot, name, start, want)[i] == d[i] && (name == "" ==> i < slot)
  {
    var e := PlaceFile(d, slot, name, start, want);
    assert i != slot;
    if name == "" { assert e[slot].End?; }
    BeforeTheMark(d, slot, name, start, want, i);
  }

  lemma UnstorableLosesOnly(d: seq<Record>, slot: nat, name: string, start: nat, want: nat, i: nat)
    requires slot == FirstFreeEntry(d) && slot < |d| && Limit(d) < |d| && !Entry(name, start, want).File?
    requires LiveAt(d, i) && (name == "" ==> i < slot)
    ensures LiveAt(PlaceFile(d, slot, name, start, want), i)
  {
    var e := PlaceFile(d, slot, name, start, want);
    assert forall j | 0 <= j <= i :: !e[j].End?;
    assert i < Limit(e);
  }

  /** With an end mark in place, the empty name puts another one into the record: the files before
      it stay, and all behind it are lost from sight.  The unused mark loses no file. */
  lemma UnstorableKeeps(d: seq<Record>, sorted: seq<Record>, name: string, maxsize: nat, blocks: nat)
    requires Limit(d) < |d| && SortedCopy(d[..UsedEntries(d)], sorted) && blocks >= 1
    requires Create(d, sorted, name, maxsize, blocks).Created?
    ensures var e, slot := Create(d, sorted, name, maxsize, blocks).dir, FirstFreeEntry(d);
            && (name == "" ==> forall i: nat :: LiveAt(e, i) <==> LiveAt(d, i) && i < slot)
            && (name != "" && name[0] == '\U{0001}' ==> forall i: nat :: LiveAt(e, i) <==> LiveAt(d, i))
            && (name == "" || name[0] == '\U{0001}' ==> forall i: nat | LiveAt(e, i) :: e[i] == d[i])
  {
    CreatePlaces(d, sorted, name, maxsize, blocks);
    var slot, want := FirstFreeEntry(d), BlocksFor(maxsize);
    var start := WrittenPlace(sorted, want, blocks).value;
    var e := PlaceFile(d, slot, name, start, want);
    if !Entry(name, start, want).File? {
      forall i: nat | LiveAt(e, i)
        ensures LiveAt(d, i) && e[i] == d[i] && (name == "" ==> i < slot)
      {
        UnstorableAddsNone(d, slot, name, start, want, i);
      }
      forall i: nat | LiveAt(d, i) && (name == "" ==> i < slot)
        ensures LiveAt(e, i)
      {
        UnstorableLosesOnly(d, slot, name, start, want, i);
      }
    }
  }

  // ---------------------------------------------------------------- delete and runs

  lemma DeleteKeeps(d: seq<Record>, name: string, blocks: nat)
    requires DirInv(d, blocks)
    ensures DirInv(Delete(d, name), blocks) && Limit(Delete(d, name)) == Limit(d)
    ensures forall i: nat :: LiveAt(Delete(d, name), i) <==> LiveAt(d, i) && d[i].name != name
    ensures forall i: nat | LiveAt(Delete(d, name), i) :: Delete(d, name)[i] == d[i]
    ensures Find(Delete(d, name), name) == |d|
    // the record of the file still says where it lay
    ensures forall i: nat | i < Limit(d) ::
              var r := Delete(d, name)[i]; !r.End? && r.start == d[i].start && r.reserved == d[i].reserved
  {
    var k := Find(d, name);
    if k < |d| {
      UnusedAt(d, k, blocks);
    }
  }

  /** Marking the file in record `k` unused. */
  lemma UnusedAt(d: seq<Record>, k: nat, blocks: nat)
    requires DirInv(d, blocks) && LiveAt(d, k)
    ensures var e := d[k := Unused(d[k].start, d[k].reserved)];
            && DirInv(e, blocks) && Limit(e) == Limit(d) && Find(e, d[k].name) == |d|
            && (forall i: nat :: LiveAt(e, i) <==> LiveAt(d, i) && d[i].name != d[k].name)
            && (forall i: nat | LiveAt(e, i) :: e[i] == d[i])
  {
    var e := d[k := Unused(d[k].start, d[k].reserved)];
    LimitIs(e, Limit(d));
    forall i: nat
      ensures LiveAt(e, i) <==> LiveAt(d, i) && i != k
    {
    }
    forall i: nat | LiveAt(d, i) && i != k
      ensures d[i].name != d[k].name
    {
    }
  }

  datatype Op = CreateOp(sorted: seq<Record>, name: string, maxsize: nat) | DeleteOp(name: string)

  /** What the command line hands over: at least 1 MiB and a name that fits its field; `sorted` is
      what qsort may make of the copy. */
  predicate Proper(d: seq<Record>, op: Op) {
    op.CreateOp? ==>
      && SortedCopy(d[..UsedEntries(d)], op.sorted) && op.maxsize >= 1
      && |op.name| <= MAX_NAME && forall i | 0 <= i < |op.name| :: op.name[i] != '\0'
  }

  /** A create finds real room, or none at all: with an end mark, some range is free or no stale end
      looks like room; without one, the first data block is free, unless no record or no disk is
      left, or the first record itself is used up. */
  ghost predicate RealRoom(d: seq<Record>, blocks: nat, op: Op) {
    op.CreateOp? && StorableName(op.name) && Find(d, op.name) == |d| ==>
      var want, slot := BlocksFor(op.maxsize), FirstFreeEntry(d);
      if Limit(d) < |d| then SomeFreeRange(d, blocks, want) || !StaleRoomInDir(d, want, blocks)
      else slot == 0 || slot == |d| || 1 + want > blocks - 1 || FreeRange(d, blocks, 1, want)
  }

  function Apply(d: seq<Record>, blocks: nat, op: Op): seq<Record>
    requires blocks >= 1 && Proper(d, op)
  {
    match op
    case DeleteOp(name) => Delete(d, name)
    case CreateOp(s, name, maxsize) =>
      match Create(d, s, name, maxsize, blocks)
      case Created(e) => e
      case _ => d
  }

  predicate AllProper(d: seq<Record>, blocks: nat, ops: seq<Op>)
    requires blocks >= 1
    decreases |ops|
  {
    ops == [] || (Proper(d, ops[0]) && AllProper(Apply(d, blocks, ops[0]), blocks, ops[1..]))
  }

  ghost predicate AlwaysSound(d: seq<Record>, blocks: nat, ops: seq<Op>)
    requires blocks >= 1 && AllProper(d, blocks, ops)
    decreases |ops|
  {
    DirInv(d, blocks) && (ops == [] || AlwaysSound(Apply(d, blocks, ops[0]), blocks, ops[1..]))
  }

  ghost predicate AllRealRoom(d: seq<Record>, blocks: nat, ops: seq<Op>)
    requires blocks >= 1 && AllProper(d, blocks, ops)
    decreases |ops|
  {
    ops == [] || (RealRoom(d, blocks, ops[0]) && AllRealRoom(Apply(d, blocks, ops[0]), blocks, ops[1..]))
  }

  /** A record that is no file and lies inside the disk does no harm. */
  lemma UnstorableSound(d: seq<Record>, sorted: seq<Record>, name: string, maxsize: nat, blocks: nat)
    requires DirInv(d, blocks) && 2 <= blocks < WORD64 && Proper(d, CreateOp(sorted, name, maxsize)) && !StorableName(name)
    ensures DirInv(Apply(d, blocks, CreateOp(sorted, name, maxsize)), blocks)
  {
    if Create(d, sorted, name, maxsize, blocks).Created? {
      CreatePlaces(d, sorted, name, maxsize, blocks);
      CopyIsSound(d, sorted, blocks);
      var slot, want := FirstFreeEntry(d), BlocksFor(maxsize);
      var start := WrittenPlace(sorted, want, blocks).value;
      WrittenPlaceInDisk(sorted, want, blocks);
      UnstorablePlaced(d, blocks, slot, name, start, want);
    }
  }

  lemma UnstorablePlaced(d: seq<Record>, blocks: nat, slot: nat, name: string, start: nat, want: nat)
    requires DirInv(d, blocks) && slot == FirstFreeEntry(d) && slot < |d| && !Entry(name, start, want).File?
    requires start >= 1 && want >= 1 && start + want <= blocks - 1
    ensures DirInv(PlaceFile(d, slot, name, start, want), blocks)
  {
    var e := PlaceFile(d, slot, name, start, want);
    forall i: nat | LiveAt(e, i)
      ensures LiveAt(d, i) && e[i] == d[i]
    {
      UnstorableAddsNone(d, slot, name, start, want, i);
    }
    forall i | 0 <= i < Limit(e)
      ensures e[i].start >= 1 && e[i].reserved >= 1 && EndOf(e[i]) <= blocks - 1
    {
      if i != slot { BeforeTheMark(d, slot, name, start, want, i); }
    }
  }

  lemma StepSoundExactly(d: seq<Record>, blocks: nat, op: Op)
    requires DirInv(d, blocks) && 2 <= blocks < WORD64 && Proper(d, op)
    ensures DirInv(Apply(d, blocks, op), blocks) <==> RealRoom(d, blocks, op)
  {
    match op
    case DeleteOp(name) => DeleteKeeps(d, name, blocks);
    case CreateOp(s, name, maxsize) =>
      if !StorableName(name) {
        UnstorableSound(d, s, name, maxsize, blocks);
      } else if Find(d, name) == |d| {
        if Limit(d) < |d| {
          CreateExactly(d, s, name, maxsize, blocks);
        } else {
          CreateWithoutEndMark(d, s, name, maxsize, blocks);
        }
      }
  }

  /** On any run of creates and deletes, live extents stay disjoint and inside blocks
      [1, blocks - 1), and names distinct, throughout if and only if every create finds real room. */
  lemma {:induction false} DirectorySoundExactly(d: seq<Record>, blocks: nat, ops: seq<Op>)
    requires DirInv(d, blocks) && 2 <= blocks < WORD64 && AllProper(d, blocks, ops)
    ensures AlwaysSound(d, blocks, ops) <==> AllRealRoom(d, blocks, ops)
    decreases |ops|
  {
    if ops == [] {
    } else {
      var e := Apply(d, blocks, ops[0]);
      StepSoundExactly(d, blocks, ops[0]);
      if DirInv(e, blocks) {
        DirectorySoundExactly(e, blocks, ops[1..]);
      } else {
        assert !AlwaysSound(e, blocks, ops[1..]);
      }
    }
  }

  /** A fresh directory is sound. */
  lemma FormattedIsSound(blocks: nat)
    ensures DirInv(seq(ENTRIES, _ => End), blocks)
  {
    LimitIs(seq(ENTRIES, _ => End), 0);
  }

  // ---------------------------------------------------------------- a run that overlaps

  /** These records and then end marks. */
  function Dir(p: seq<Record>): seq<Record>
    requires |p| <= ENTRIES
  {
    p + seq(ENTRIES - |p|, _ => End)
  }

  predicate NoEnd(p: seq<Record>) {
    forall i | 0 <= i < |p| :: !p[i].End?
  }

  lemma DirFacts(p: seq<Record>)
    requires |p| < ENTRIES && NoEnd(p)
    ensures Limit(Dir(p)) == UsedEntries(Dir(p)) == |p| && Dir(p)[..|p|] == p
  {
    LimitIs(Dir(p), |p|);
  }

  /** What create makes of such a directory once the place is known. */
  lemma CreatesIn(p: seq<Record>, slot: nat, sorted: seq<Record>, name: string, maxsize: nat, blocks: nat, place: nat)
    requires |p| + 1 < ENTRIES && NoEnd(p) && SortedCopy(p, sorted) && NoEnd(sorted) && blocks >= 1 && StorableName(name)
    requires forall i | 0 <= i < |p| :: p[i].File? ==> p[i].name != name
    requires slot <= |p| && (forall i | 0 <= i < slot :: p[i].File?) && (slot < |p| ==> !p[slot].File?)
    requires WrittenPlace(sorted, BlocksFor(maxsize), blocks) == Some(place)
    ensures SortedCopy(Dir(p)[..UsedEntries(Dir(p))], sorted)
    ensures var f := File(name, place, BlocksFor(maxsize), 0);
            Create(Dir(p), sorted, name, maxsize, blocks) ==
            Created(Dir(if slot < |p| then p[slot := f] else p + [f]))
  {
    var d, f := Dir(p), File(name, place, BlocksFor(maxsize), 0);
    DirFacts(p);
    FirstFreeIs(d, slot);
    assert Find(d, name) == |d|;
    CreatePlaces(d, sorted, name, maxsize, blocks);
    PlacesIn(p, slot, name, place, f.reserved);
  }

  lemma PlacesIn(p: seq<Record>, slot: nat, name: string, place: nat, want: nat)
    requires |p| + 1 < ENTRIES && NoEnd(p) && slot <= |p| && StorableName(name)
    ensures var f := File(name, place, want, 0);
            PlaceFile(Dir(p), slot, name, place, want) == Dir(if slot < |p| then p[slot := f] else p + [f])
  {
    DirFacts(p);
    var q := if slot < |p| then p[slot := File(name, place, want, 0)] else p + [File(name, place, want, 0)];
    assert PlaceFile(Dir(p), slot, name, place, want) == Dir(q);
  }

  lemma DeletesIn(p: seq<Record>, k: nat, name: string)
    requires |p| < ENTRIES && NoEnd(p) && k < |p| && p[k].File? && p[k].name == name
    requires forall i | 0 <= i < k :: p[i].File? ==> p[i].name != name
    ensures Delete(Dir(p), name) == Dir(p[k := Unused(p[k].start, p[k].reserved)])
  {
    DirFacts(p);
    assert LiveAt(Dir(p), k);
  }

  /** A run that goes wrong goes wrong with one more event before it. */
  lemma Earlier(d: seq<Record>, e: seq<Record>, op: Op, ops: seq<Op>)
    requires Proper(d, op) && Apply(d, 10, op) == e && AllProper(e, 10, ops) && !AlwaysSound(e, 10, ops)
    ensures AllProper(d, 10, [op] + ops) && !AlwaysSound(d, 10, [op] + ops)
  {
    assert ([op] + ops)[1..] == ops;
  }

  ghost predicate GoesWrong(p: seq<Record>, ops: seq<Op>) {
    |p| <= ENTRIES && AllProper(Dir(p), 10, ops) && !AlwaysSound(Dir(p), 10, ops)
  }

  lemma CreateEarlier(p: seq<Record>, slot: nat, sorted: seq<Record>, name: string, maxsize: nat, f: Record, ops: seq<Op>)
    requires |p| + 1 < ENTRIES && NoEnd(p) && SortedCopy(p, sorted) && NoEnd(sorted) && StorableName(name) && maxsize >= 1
    requires forall i | 0 <= i < |p| :: p[i].File? ==> p[i].name != name
    requires slot <= |p| && (forall i | 0 <= i < slot :: p[i].File?) && (slot < |p| ==> !p[slot].File?)
    requires f.File? && f == File(name, f.start, BlocksFor(maxsize), 0) && WrittenPlace(sorted, f.reserved, 10) == Some(f.start)
    requires GoesWrong(if slot < |p| then p[slot := f] else p + [f], ops)
    ensures GoesWrong(p, [CreateOp(sorted, name, maxsize)] + ops)
  {
    var q := if slot < |p| then p[slot := f] else p + [f];
    CreatesIn(p, slot, sorted, name, maxsize, 10, f.start);
    Earlier(Dir(p), Dir(q), CreateOp(sorted, name, maxsize), ops);
  }

  lemma DeleteEarlier(p: seq<Record>, k: nat, name: string, ops: seq<Op>)
    requires |p| < ENTRIES && NoEnd(p) && k < |p| && p[k].File? && p[k].name == name
    requires forall i | 0 <= i < k :: p[i].File? ==> p[i].name != name
    requires GoesWrong(p[k := Unused(p[k].start, p[k].reserved)], ops)
    ensures GoesWrong(p, [DeleteOp(name)] + ops)
  {
    DeletesIn(p, k, name);
    Earlier(Dir(p), Dir(p[k := Unused(p[k].start, p[k].reserved)]), DeleteOp(name), ops);
  }

  lemma LiesOnTop(p: seq<Record>)
    requires p == [File("a", 1, 7, 0), File("e", 4, 2, 0)]
    ensures GoesWrong(p, [])
  {
    var d := Dir(p);
    DirFacts(p);
    assert LiveAt(d, 0) && LiveAt(d, 1) && Overlap(d[0].start, d[0].reserved, d[1].start, d[1].reserved);
  }

  /** On 10 blocks: where a large file goes when two small ones are gone, and where the next goes. */
  lemma FillingPlaces()
    ensures WrittenPlace([Unused(1, 1), Unused(2, 2)], 7, 10) == Some(1)
    ensures WrittenPlace([File("a", 1, 7, 0), Unused(2, 2)], 2, 10) == Some(4)
  {
    var s := [File("a", 1, 7, 0), Unused(2, 2)];
    assert WrittenScan(s, 2, 4, 2, 10) == Some(4);
    assert WrittenScan(s, 1, 8, 2, 10) == Some(4);
  }

  const SURPRISE: seq<Op> := [CreateOp([File("a", 1, 7, 0), Unused(2, 2)], "e", 4)] + []
  const FILLING: seq<Op> := [CreateOp([Unused(1, 1), Unused(2, 2)], "a", 14)] + SURPRISE
  const GOING: seq<Op> := [DeleteOp("b")] + ([DeleteOp("c")] + FILLING)

  lemma SurpriseGoesWrong(q: seq<Record>)
    requires q == [File("a", 1, 7, 0), Unused(2, 2)]
    ensures GoesWrong(q, SURPRISE)
  {
    var f := File("e", 4, 2, 0);
    assert q[1 := f] == [File("a", 1, 7, 0), f];
    FillingPlaces();
    LiesOnTop(q[1 := f]);
    CreateEarlier(q, 1, q, "e", 4, f, []);
  }

  lemma FillingGoesWrong(p: seq<Record>)
    requires p == [Unused(1, 1), Unused(2, 2)]
    ensures GoesWrong(p, FILLING)
  {
    var f := File("a", 1, 7, 0);
    assert p[0 := f] == [f, Unused(2, 2)];
    FillingPlaces();
    SurpriseGoesWrong(p[0 := f]);
    CreateEarlier(p, 0, p, "a", 14, f, SURPRISE);
  }

  lemma GoingGoesWrong(o: seq<Record>)
    requires o == [File("c", 1, 1, 0), File("b", 2, 2, 0)]
    ensures GoesWrong(o, GOING)
  {
    var p := [File("c", 1, 1, 0), Unused(2, 2)];
    assert o[1 := Unused(2, 2)] == p;
    SecondGone(p);
    DeleteEarlier(o, 1, "b", [DeleteOp("c")] + FILLING);
  }

  lemma SecondGone(p: seq<Record>)
    requires p == [File("c", 1, 1, 0), Unused(2, 2)]
    ensures GoesWrong(p, [DeleteOp("c")] + FILLING)
  {
    assert p[0 := Unused(1, 1)] == [Unused(1, 1), Unused(2, 2)];
    FillingGoesWrong(p[0 := Unused(1, 1)]);
    DeleteEarlier(p, 0, "c", FILLING);
  }

  const COMING: seq<Op> := [CreateOp([], "c", 2)] + ([CreateOp([File("c", 1, 1, 0)], "b", 4)] + GOING)

  lemma ComingPlaces()
    ensures WrittenPlace([], 1, 10) == Some(1)
    ensures WrittenPlace([File("c", 1, 1, 0)], 2, 10) == Some(2)
  {
    assert WrittenScan([File("c", 1, 1, 0)], 1, 2, 2, 10) == Some(2);
  }

  /** A formatted disk of 10 blocks: two small files come and go, a large one takes their place, and the
      next small one is reported as created on top of it. */
  lemma OverlappingRunExample()
    ensures var d := seq(ENTRIES, _ => End);
            DirInv(d, 10) && AllProper(d, 10, COMING) && !AlwaysSound(d, 10, COMING)
  {
    FormattedIsSound(10);
    assert Dir([]) == seq(ENTRIES, _ => End);
    FirstComes();
  }

  lemma FirstComes()
    ensures GoesWrong([], COMING)
  {
    var c := File("c", 1, 1, 0);
    assert [] + [c] == [c];
    ComingPlaces();
    SecondComes([c]);
    CreateEarlier([], 0, [], "c", 2, c, [CreateOp([c], "b", 4)] + GOING);
  }

  lemma SecondComes(p: seq<Record>)
    requires p == [File("c", 1, 1, 0)]
    ensures GoesWrong(p, [CreateOp(p, "b", 4)] + GOING)
  {
    var b := File("b", 2, 2, 0);
    assert p + [b] == [File("c", 1, 1, 0), b];
    ComingPlaces();
    GoingGoesWrong(p + [b]);
    CreateEarlier(p, 1, p, "b", 4, b, GOING);
  }
}
