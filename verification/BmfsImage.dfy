// The file system utility as it works in place: one directory buffer and one disk image, changed
// record by record and byte by byte (Bootloader/BMFS/bmfs.c:205-231, 610-821).
module BmfsImage {
  import opened Options
  import opened BmfsSpec
  import opened BmfsDirectory
  import opened BmfsFiles

  /** An insertion sort that leaves what qsort with StartingBlockCmp leaves. */
  method SortEntries(u: seq<Record>) returns (s: seq<Record>)
    requires forall i | 0 <= i < |u| :: !u[i].End?
    ensures SortedCopy(u, s)
  {
    s := [];
    var i := 0;
    assert u[..0] == [];
    while i < |u|
      invariant i <= |u| && SortedCopy(u[..i], s)
      invariant forall j | 0 <= j < |s| :: !s[j].End?
    {
      s := InsertEntry(u[..i], s, u[i]);
      assert u[..i + 1] == u[..i] + [u[i]];
      i := i + 1;
    }
    assert u[..|u|] == u;
  }

  method InsertEntry(ghost u: seq<Record>, s: seq<Record>, r: Record) returns (t: seq<Record>)
    requires SortedCopy(u, s) && !r.End? && forall j | 0 <= j < |s| :: !s[j].End?
    ensures SortedCopy(u + [r], t) && forall j | 0 <= j < |t| :: !t[j].End?
  {
    var k := 0;
    while k < |s| && Before(s[k], r)
      invariant k <= |s| && forall j | 0 <= j < k :: Before(s[j], r)
    {
      k := k + 1;
    }
    InsertedCopy(u, s, k, r);
    t := s[..k] + [r] + s[k..];
  }

  predicate Before(a: Record, b: Record)
    requires !a.End? && !b.End?
  {
    b.Unused? || (a.File? && a.start <= b.start)
  }

  lemma InsertedCopy(u: seq<Record>, s: seq<Record>, k: nat, r: Record)
    requires SortedCopy(u, s) && k <= |s| && !r.End? && forall j | 0 <= j < |s| :: !s[j].End?
    requires forall j | 0 <= j < k :: Before(s[j], r)
    requires k < |s| ==> !Before(s[k], r)
    ensures SortedCopy(u + [r], s[..k] + [r] + s[k..])
  {
    InsertedMembers(u, s, k, r);
    InsertedOrder(s, k, r);
  }

  lemma InsertedMembers(u: seq<Record>, s: seq<Record>, k: nat, r: Record)
    requires multiset(s) == multiset(u) && k <= |s|
    ensures multiset(s[..k] + [r] + s[k..]) == multiset(u + [r])
  {
    assert s == s[..k] + s[k..];
    assert multiset(s[..k] + [r] + s[k..]) == multiset(s[..k]) + multiset{r} + multiset(s[k..]);
  }

  /** Unused records last, files by starting block. */
  predicate InOrder(a: Record, b: Record) {
    b.File? ==> a.File? && a.start <= b.start
  }

  lemma InsertedOrder(s: seq<Record>, k: nat, r: Record)
    requires k <= |s| && !r.End? && forall j | 0 <= j < |s| :: !s[j].End?
    requires forall i, j | 0 <= i < j < |s| :: InOrder(s[i], s[j])
    requires forall j | 0 <= j < k :: Before(s[j], r)
    requires k < |s| ==> !Before(s[k], r)
    ensures var t := s[..k] + [r] + s[k..];
            forall i, j | 0 <= i < j < |t| :: InOrder(t[i], t[j])
  {
    var t := s[..k] + [r] + s[k..];
    forall i, j | 0 <= i < j < |t|
      ensures InOrder(t[i], t[j])
    {
      assert t[i] == if i < k then s[i] else if i == k then r else s[i - 1];
      assert t[j] == if j < k then s[j] else if j == k then r else s[j - 1];
      if i == k && k < j - 1 { assert InOrder(s[k], s[j - 1]); }
    }
  }

  lemma HalvedMiB(n: nat)
    ensures n / MIB / 2 * 2097152 <= n < (n / MIB / 2 + 1) * 2097152
  {
  }

  class Image {
    const directory: array<Record>
    const disk: array<Byte>
    const diskSize: nat // in whole MiB

    ghost predicate Valid()
      reads directory, disk
    {
      && directory.Length == ENTRIES
      && diskSize == disk.Length / MIB
    }

    function Blocks(): nat {
      diskSize / 2
    }

    /** The blocks are the whole 2 MiB blocks of the disk. */
    lemma WholeBlocks()
      requires Valid()
      ensures Blocks() * 2097152 <= disk.Length < (Blocks() + 1) * 2097152
    {
      HalvedMiB(disk.Length);
    }

    method FindFile(filename: string) returns (slot: nat)
      requires Valid()
      ensures slot == Find(directory[..], filename)
    {
      slot := 0;
      while slot < ENTRIES
        invariant slot <= ENTRIES && slot <= Limit(directory[..])
        invariant FindFrom(directory[..], filename, slot) == Find(directory[..], filename)
        modifies {}
      {
        match directory[slot] {
          case End => return ENTRIES;
          case Unused(_, _) =>
          case File(name, _, _, _) =>
            if name == filename {
              return slot;
            }
        }
        slot := slot + 1;
      }
    }

    /** Lines 636-651. */
    method CountEntries() returns (used: nat, free: nat)
      requires Valid()
      ensures used == UsedEntries(directory[..]) && free == FirstFreeEntry(directory[..])
    {
      ghost var d := directory[..];
      used, free := 0, ENTRIES;
      var found := false;
      var t := 0;
      while t < ENTRIES
        invariant t <= ENTRIES && t <= Limit(d) && used == 0
        invariant if found then free < t && d[free].Unused? && forall i | 0 <= i < free :: d[i].File?
                  else free == ENTRIES && forall i | 0 <= i < t :: d[i].File?
        modifies {}
      {
        if directory[t].End? {
          used := t;
          if !found {
            free := t;
            found := true;
          }
          FirstFreeIs(d, free);
          return;
        }
        if directory[t].Unused? && !found {
          free := t;
          found := true;
        }
        t := t + 1;
      }
      FirstFreeIs(d, free);
    }

    /** Lines 663-685. */
    method FindGap(s: seq<Record>, want: nat) returns (place: Option<nat>)
      requires Blocks() >= 1 && forall i | 0 <= i < |s| :: !s[i].End?
      ensures place == WrittenPlace(s, want, Blocks())
    {
      var t, prev := 0, 1;
      while true
        invariant t <= |s| && WrittenScan(s, t, prev, want, Blocks()) == WrittenPlace(s, want, Blocks())
        decreases |s| - t
      {
        var here := if t == |s| || s[t].Unused? then Blocks() - 1 else s[t].start;
        if Gap(here, prev) >= want {
          return Some(prev);
        }
        if t == |s| {
          return None;
        }
        prev := EndOf(s[t]);
        t := t + 1;
      }
    }

    method CreateFile(filename: string, maxsize: nat) returns (r: CreateResult, ghost sorted: seq<Record>)
      requires Valid() && Blocks() >= 1
      modifies directory
      ensures Blocks() * 2097152 <= disk.Length < (Blocks() + 1) * 2097152
      ensures var d := old(directory[..]);
              && SortedCopy(d[..UsedEntries(d)], sorted)
              && r == Create(d, sorted, filename, maxsize, Blocks())
              && directory[..] == if r.Created? then r.dir else d
    {
      WholeBlocks();
      ghost var d := directory[..];
      var slot := FindFile(filename);
      var used, free := CountEntries();
      var s := SortEntries(directory[..used]);
      assert directory[..used] == d[..used];
      sorted := s;
      if slot < ENTRIES {
        return AlreadyExists, s;
      }
      if free == ENTRIES {
        return NoEntry, s;
      }
      CopyHasNoEnd(d, s);
      var want := BlocksFor(maxsize);
      var place := FindGap(s, want);
      if place == None {
        return NoSpace, s;
      }
      directory[free] := Entry(filename, place.value, want);
      if free == used && used + 1 < ENTRIES {
        directory[used + 1] := End;
      }
      assert directory[..] == PlaceFile(d, free, filename, place.value, want);
      r := Created(directory[..]);
    }

    method DeleteFile(filename: string)
      requires Valid()
      modifies directory
      ensures directory[..] == Delete(old(directory[..]), filename)
    {
      var slot := FindFile(filename);
      if slot < ENTRIES {
        directory[slot] := Unused(directory[slot].start, directory[slot].reserved);
      }
      assert directory[..] == Delete(old(directory[..]), filename);
    }

    method ReadBytes(filename: string) returns (bytes: Option<seq<Byte>>)
      requires Valid() && DiskInv(directory[..], disk[..], Blocks())
      ensures bytes == ReadFile(directory[..], disk[..], Blocks(), filename)
    {
      var slot := FindFile(filename);
      if slot == ENTRIES {
        return None;
      }
      InsideDisk(directory[..], disk[..], Blocks(), slot);
      var at, size := directory[slot].start * BLOCK_SIZE, directory[slot].size;
      var out: seq<Byte> := [];
      var i := 0;
      while i < size
        invariant i <= size && out == disk[at..at + i]
        modifies {}
      {
        out := out + [disk[at + i]];
        i := i + 1;
      }
      return Some(out);
    }

    /** Copy the local file over the start of the reserved blocks, then record its length. */
    method WriteBytes(filename: string, bytes: seq<Byte>) returns (ok: bool)
      requires Valid() && DiskInv(directory[..], disk[..], Blocks())
      modifies directory, disk
      ensures var w := WriteFile(old(directory[..]), old(disk[..]), Blocks(), filename, bytes);
              && ok == w.Written?
              && directory[..] == (if ok then w.dir else old(directory[..]))
              && disk[..] == (if ok then w.disk else old(disk[..]))
      ensures Valid() && DiskInv(directory[..], disk[..], Blocks())
    {
      ghost var d, before := directory[..], disk[..];
      var slot := FindFile(filename);
      if slot == ENTRIES || directory[slot].reserved * BLOCK_SIZE < |bytes| {
        return false;
      }
      InsideDisk(d, before, Blocks(), slot);
      WriteThenRead(d, before, Blocks(), filename, bytes);
      CopyToDisk(directory[slot].start * BLOCK_SIZE, bytes);
      directory[slot] := directory[slot].(size := |bytes|);
      assert directory[..] == d[slot := d[slot].(size := |bytes|)];
      ok := true;
    }

    method CopyToDisk(at: nat, bytes: seq<Byte>)
      requires at + |bytes| <= disk.Length
      modifies disk
      ensures disk[..] == Splice(old(disk[..]), at, bytes)
    {
      var i := 0;
      while i < |bytes|
        invariant i <= |bytes|
        invariant forall x | at <= x < at + i :: disk[x] == bytes[x - at]
        invariant forall x | 0 <= x < disk.Length && !(at <= x < at + i) :: disk[x] == old(disk[x])
      {
        disk[at + i] := bytes[i];
        i := i + 1;
      }
    }
  }
}
