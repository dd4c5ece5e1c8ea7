// read and write on the disk image (Bootloader/BMFS/bmfs.c:722-799).
module BmfsFiles {
  import opened Options
  import opened BmfsSpec

  const MIB: nat := 1048576
  const BLOCK_SIZE: nat := 2097152 // 2 MiB

  type Byte = b: int | 0 <= b < 256

  /** The image holds all blocks, perhaps with part of another behind them, and no file is longer than what is reserved for it. */
  ghost predicate DiskInv(d: seq<Record>, disk: seq<Byte>, blocks: nat) {
    && DirInv(d, blocks)
    && |disk| >= blocks * BLOCK_SIZE
    && forall i: nat | LiveAt(d, i) :: d[i].size <= d[i].reserved * BLOCK_SIZE
  }

  function Splice(disk: seq<Byte>, at: nat, bytes: seq<Byte>): (r: seq<Byte>)
    requires at + |bytes| <= |disk|
    ensures |r| == |disk|
  {
    disk[..at] + bytes + disk[at + |bytes|..]
  }

  /** The bytes a record stands for. */
  function Stored(disk: seq<Byte>, r: Record): seq<Byte>
    requires r.File? && r.start * BLOCK_SIZE + r.size <= |disk|
  {
    disk[r.start * BLOCK_SIZE..r.start * BLOCK_SIZE + r.size]
  }

  ghost function ReadFile(d: seq<Record>, disk: seq<Byte>, blocks: nat, name: string): Option<seq<Byte>>
    requires DiskInv(d, disk, blocks)
  {
    var k := Find(d, name);
    if k < |d| then
      InsideDisk(d, disk, blocks, k);
      Some(Stored(disk, d[k]))
    else None
  }

  datatype WriteResult = NotFound | NoRoom | Written(dir: seq<Record>, disk: seq<Byte>)

  ghost function WriteFile(d: seq<Record>, disk: seq<Byte>, blocks: nat, name: string, bytes: seq<Byte>): WriteResult
    requires DiskInv(d, disk, blocks)
  {
    var k := Find(d, name);
    if k == |d| then NotFound
    else if d[k].reserved * BLOCK_SIZE < |bytes| then NoRoom
    else
      InsideDisk(d, disk, blocks, k);
      Written(d[k := d[k].(size := |bytes|)], Splice(disk, d[k].start * BLOCK_SIZE, bytes))
  }

  lemma {:induction false} SameLimit(d: seq<Record>, e: seq<Record>)
    requires |d| == |e| && forall i | 0 <= i < |d| :: d[i].End? <==> e[i].End?
    ensures Limit(d) == Limit(e)
  {
    if d != [] && !d[0].End? {
      SameLimit(d[1..], e[1..]);
    }
  }

  lemma FindUnique(d: seq<Record>, blocks: nat, k: nat)
    requires DirInv(d, blocks) && LiveAt(d, k)
    ensures Find(d, d[k].name) == k
  {
    var m := Find(d, d[k].name);
    assert m <= k;
  }

  lemma ResizedIsSound(d: seq<Record>, blocks: nat, k: nat, size: nat)
    requires DirInv(d, blocks) && LiveAt(d, k)
    ensures DirInv(d[k := d[k].(size := size)], blocks)
    ensures forall i: nat :: LiveAt(d[k := d[k].(size := size)], i) <==> LiveAt(d, i)
  {
    SameLimit(d, d[k := d[k].(size := size)]);
  }

  /** Writing inside one file's blocks leaves the bytes of every other live file alone. */
  lemma OtherFileUntouched(d: seq<Record>, disk: seq<Byte>, blocks: nat, k: nat, j: nat, bytes: seq<Byte>)
    requires DiskInv(d, disk, blocks) && LiveAt(d, k) && LiveAt(d, j) && j != k
    requires |bytes| <= d[k].reserved * BLOCK_SIZE
    ensures d[k].start * BLOCK_SIZE + |bytes| <= |disk| && d[j].start * BLOCK_SIZE + d[j].size <= |disk|
    ensures Stored(Splice(disk, d[k].start * BLOCK_SIZE, bytes), d[j]) == Stored(disk, d[j])
  {
    InsideDisk(d, disk, blocks, k);
    InsideDisk(d, disk, blocks, j);
    assert !Overlap(d[k].start, d[k].reserved, d[j].start, d[j].reserved);
    var e := Splice(disk, d[k].start * BLOCK_SIZE, bytes);
    var at := d[j].start * BLOCK_SIZE;
    assert e[at..at + d[j].size] == disk[at..at + d[j].size];
  }

  lemma InsideDisk(d: seq<Record>, disk: seq<Byte>, blocks: nat, k: nat)
    requires DiskInv(d, disk, blocks) && LiveAt(d, k)
    ensures BLOCK_SIZE <= d[k].start * BLOCK_SIZE
    ensures d[k].start * BLOCK_SIZE + d[k].reserved * BLOCK_SIZE <= (blocks - 1) * BLOCK_SIZE <= |disk|
  {
  }

  /** After a successful write: reading the file gives the bytes written, every other file reads
      as before, only the file's size changed in the directory, only its own blocks changed on
      disk (never the first or the last block), and the image is still sound. */
  lemma WriteThenRead(d: seq<Record>, disk: seq<Byte>, blocks: nat, name: string, bytes: seq<Byte>)
    requires DiskInv(d, disk, blocks) && WriteFile(d, disk, blocks, name, bytes).Written?
    ensures var w, k := WriteFile(d, disk, blocks, name, bytes), Find(d, name);
            && DiskInv(w.dir, w.disk, blocks)
            && ReadFile(w.dir, w.disk, blocks, name) == Some(bytes)
            && (forall other | other != name :: ReadFile(w.dir, w.disk, blocks, other) == ReadFile(d, disk, blocks, other))
            && w.dir == d[k := d[k].(size := |bytes|)]
            && (var at := d[k].start * 2097152; at + |bytes| <= |disk| && w.disk[at..at + |bytes|] == bytes)
            && (forall x | 0 <= x < |disk| && !(d[k].start * BLOCK_SIZE <= x < d[k].start * BLOCK_SIZE + |bytes|) ::
                  w.disk[x] == disk[x])
            && w.disk[..BLOCK_SIZE] == disk[..BLOCK_SIZE]
            && w.disk[(blocks - 1) * BLOCK_SIZE..] == disk[(blocks - 1) * BLOCK_SIZE..]
  {
    var w, k := WriteFile(d, disk, blocks, name, bytes), Find(d, name);
    InsideDisk(d, disk, blocks, k);
    ResizedIsSound(d, blocks, k, |bytes|);
    assert LiveAt(w.dir, k);
    FindUnique(w.dir, blocks, k);
    assert DiskInv(w.dir, w.disk, blocks);
    assert Stored(w.disk, w.dir[k]) == bytes;
    forall other | other != name
      ensures ReadFile(w.dir, w.disk, blocks, other) == ReadFile(d, disk, blocks, other)
    {
      SameFind(d, blocks, k, |bytes|, other);
      var j := Find(d, other);
      if j < |d| {
        OtherFileUntouched(d, disk, blocks, k, j, bytes);
      }
    }
  }

  lemma SameFind(d: seq<Record>, blocks: nat, k: nat, size: nat, name: string)
    requires DirInv(d, blocks) && LiveAt(d, k)
    ensures Find(d[k := d[k].(size := size)], name) == Find(d, name)
  {
    var e := d[k := d[k].(size := size)];
    ResizedIsSound(d, blocks, k, size);
    var a, b := Find(d, name), Find(e, name);
    if a < |d| { FindUnique(e, blocks, a); }
    if b < |e| { FindUnique(d, blocks, b); }
  }
}
