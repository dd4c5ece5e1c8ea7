// The image as a whole over runs: directory and disk behave like a table from names to contents
// (Bootloader/BMFS/bmfs.c:610-821).
module BmfsStore {
  import opened Options
  import opened BmfsSpec
  import opened BmfsDirectory
  import opened BmfsFiles

  datatype Image = Image(dir: seq<Record>, disk: seq<Byte>)

  datatype Op =
    | CreateOp(sorted: seq<Record>, name: string, maxsize: nat)
    | DeleteOp(name: string)
    | WriteOp(name: string, bytes: seq<Byte>)

  ghost predicate Sound(i: Image, blocks: nat) {
    2 <= blocks < WORD64 && DiskInv(i.dir, i.disk, blocks)
  }

  /** A create has a name the directory can hold, finds real room, and does not put the end mark
      behind the first record of a full directory; deletes and writes need no condition. */
  ghost predicate Allowed(i: Image, blocks: nat, op: Op) {
    op.CreateOp? ==>
      && Proper(i.dir, BmfsDirectory.CreateOp(op.sorted, op.name, op.maxsize)) && StorableName(op.name)
      && RealRoom(i.dir, blocks, BmfsDirectory.CreateOp(op.sorted, op.name, op.maxsize))
      && (Limit(i.dir) < |i.dir| || FirstFreeEntry(i.dir) != 0)
  }

  ghost function Apply(i: Image, blocks: nat, op: Op): Image
    requires Sound(i, blocks) && Allowed(i, blocks, op)
  {
    match op
    case CreateOp(s, name, maxsize) => i.(dir := BmfsDirectory.Apply(i.dir, blocks, BmfsDirectory.CreateOp(s, name, maxsize)))
    case DeleteOp(name) => i.(dir := Delete(i.dir, name))
    case WriteOp(name, bytes) =>
      match WriteFile(i.dir, i.disk, blocks, name, bytes)
      case Written(d, disk) => Image(d, disk)
      case _ => i
  }

  /** What the table holds under a name: how many bytes it may grow to, and its bytes. */
  datatype Content = Content(room: nat, bytes: seq<Byte>)

  type Store = map<string, Content>

  /** The bytes a file created for `maxsize` MiB may grow to: an odd size gets another MiB. */
  function Room(maxsize: nat): nat {
    (maxsize + maxsize % 2) * 1048576
  }

  /** That is the size asked for in whole blocks. */
  lemma RoomIsBlocks(maxsize: nat)
    ensures Room(maxsize) == BlocksFor(maxsize) * BLOCK_SIZE
    ensures maxsize * 1048576 <= Room(maxsize) < maxsize * 1048576 + 2097152 && Room(maxsize) % 2097152 == 0
  {
    var k := (maxsize + maxsize % 2) / 2;
    assert Room(maxsize) == k * 2097152;
  }

  /** A successful create adds an empty file, delete removes one, and a write that fits replaces the
      bytes.  Of the image, only whether a create succeeded is looked at. */
  function Effect(op: Op, created: bool, store: Store): Store {
    match op
    case CreateOp(_, name, maxsize) =>
      if created then store[name := Content(Room(maxsize), [])] else store
    case DeleteOp(name) => store - {name}
    case WriteOp(name, bytes) =>
      if name in store && |bytes| <= store[name].room then store[name := store[name].(bytes := bytes)] else store
  }

  function Creates(i: Image, blocks: nat, op: Op): bool
    requires blocks >= 1 && (op.CreateOp? ==> Proper(i.dir, BmfsDirectory.CreateOp(op.sorted, op.name, op.maxsize)))
  {
    op.CreateOp? && Create(i.dir, op.sorted, op.name, op.maxsize, blocks).Created?
  }

  function Lookup(store: Store, name: string): Option<Content> {
    if name in store then Some(store[name]) else None
  }

  /** What the image holds under a name. */
  ghost function Shown(d: seq<Record>, disk: seq<Byte>, blocks: nat, name: string): Option<Content>
    requires DiskInv(d, disk, blocks)
  {
    match ReadFile(d, disk, blocks, name)
    case None => None
    case Some(bytes) => Some(Content(d[Find(d, name)].reserved * BLOCK_SIZE, bytes))
  }

  /** Image and table agree on every name. */
  ghost predicate Reads(i: Image, blocks: nat, store: Store)
    requires Sound(i, blocks)
  {
    forall name :: Shown(i.dir, i.disk, blocks, name) == Lookup(store, name)
  }

  // ---------------------------------------------------------------- create

  lemma CreateEnters(i: Image, blocks: nat, s: seq<Record>, name: string, maxsize: nat) returns (a: nat)
    requires Sound(i, blocks) && Allowed(i, blocks, Op.CreateOp(s, name, maxsize))
    requires Create(i.dir, s, name, maxsize, blocks).Created?
    ensures var e := Create(i.dir, s, name, maxsize, blocks).dir;
            DirInv(e, blocks) && Entered(i.dir, e, FirstFreeEntry(i.dir), File(name, a, BlocksFor(maxsize), 0))
  {
    var e := Create(i.dir, s, name, maxsize, blocks).dir;
    StepSoundExactly(i.dir, blocks, BmfsDirectory.CreateOp(s, name, maxsize));
    if Limit(i.dir) < |i.dir| {
      CreateExactly(i.dir, s, name, maxsize, blocks);
      a :| PlacedAt(i.dir, e, name, a, BlocksFor(maxsize), blocks);
    } else {
      CreateWithoutEndMark(i.dir, s, name, maxsize, blocks);
      a := 1;
    }
  }

  lemma CreateSound(i: Image, blocks: nat, s: seq<Record>, name: string, maxsize: nat)
    requires Sound(i, blocks) && Allowed(i, blocks, Op.CreateOp(s, name, maxsize))
    requires Create(i.dir, s, name, maxsize, blocks).Created?
    ensures var e := Create(i.dir, s, name, maxsize, blocks).dir;
            && DiskInv(e, i.disk, blocks) && Find(i.dir, name) == |i.dir|
            && exists a: nat :: Entered(i.dir, e, FirstFreeEntry(i.dir), File(name, a, BlocksFor(maxsize), 0))
  {
    var e := Create(i.dir, s, name, maxsize, blocks).dir;
    var a := CreateEnters(i, blocks, s, name, maxsize);
    forall k: nat | LiveAt(e, k)
      ensures e[k].size <= e[k].reserved * BLOCK_SIZE
    {
      if k != FirstFreeEntry(i.dir) { assert LiveAt(i.dir, k); }
    }
  }

  lemma EnteredReads(d: seq<Record>, e: seq<Record>, disk: seq<Byte>, blocks: nat, slot: nat, f: Record, name: string)
    requires DiskInv(d, disk, blocks) && DiskInv(e, disk, blocks) && Entered(d, e, slot, f)
    requires f.File? && f.size == 0 && Find(d, f.name) == |d|
    ensures Shown(e, disk, blocks, name) ==
            if name == f.name then Some(Content(f.reserved * BLOCK_SIZE, [])) else Shown(d, disk, blocks, name)
  {
    var k, m := Find(d, name), Find(e, name);
    if name == f.name {
      FindUnique(e, blocks, slot);
      InsideDisk(e, disk, blocks, slot);
      assert Stored(disk, e[slot]) == [];
    } else {
      if k < |d| { FindUnique(e, blocks, k); }
      if m < |e| { FindUnique(d, blocks, m); }
    }
  }

  // ---------------------------------------------------------------- delete

  lemma DeleteSound(i: Image, blocks: nat, name: string)
    requires Sound(i, blocks)
    ensures DiskInv(Delete(i.dir, name), i.disk, blocks)
  {
    DeleteKeeps(i.dir, name, blocks);
  }

  lemma DeletedReads(i: Image, blocks: nat, name: string, other: string)
    requires Sound(i, blocks) && DiskInv(Delete(i.dir, name), i.disk, blocks)
    ensures Shown(Delete(i.dir, name), i.disk, blocks, other) ==
            if other == name then None else Shown(i.dir, i.disk, blocks, other)
  {
    var e := Delete(i.dir, name);
    DeleteKeeps(i.dir, name, blocks);
    if other != name {
      var k, m := Find(i.dir, other), Find(e, other);
      if k < |e| { FindUnique(e, blocks, k); }
      if m < |e| { FindUnique(i.dir, blocks, m); }
    }
  }

  // ---------------------------------------------------------------- one step, every run

  lemma StepSound(i: Image, blocks: nat, op: Op)
    requires Sound(i, blocks) && Allowed(i, blocks, op)
    ensures Sound(Apply(i, blocks, op), blocks)
  {
    match op
    case CreateOp(s, name, maxsize) =>
      if Create(i.dir, s, name, maxsize, blocks).Created? { CreateSound(i, blocks, s, name, maxsize); }
    case DeleteOp(name) => DeleteSound(i, blocks, name);
    case WriteOp(name, bytes) =>
      if WriteFile(i.dir, i.disk, blocks, name, bytes).Written? { WriteThenRead(i.dir, i.disk, blocks, name, bytes); }
  }

  lemma CreateReads(i: Image, blocks: nat, s: seq<Record>, name: string, maxsize: nat, store: Store)
    requires Sound(i, blocks) && Allowed(i, blocks, Op.CreateOp(s, name, maxsize)) && Reads(i, blocks, store)
    requires Create(i.dir, s, name, maxsize, blocks).Created?
    ensures var z := i.(dir := Create(i.dir, s, name, maxsize, blocks).dir);
            Sound(z, blocks) && Reads(z, blocks, store[name := Content(Room(maxsize), [])])
  {
    RoomIsBlocks(maxsize);
    CreateSound(i, blocks, s, name, maxsize);
    var e := Create(i.dir, s, name, maxsize, blocks).dir;
    var slot := FirstFreeEntry(i.dir);
    var a: nat :| Entered(i.dir, e, slot, File(name, a, BlocksFor(maxsize), 0));
    forall other
      ensures Shown(e, i.disk, blocks, other) == Lookup(store[name := Content(Room(maxsize), [])], other)
    {
      EnteredReads(i.dir, e, i.disk, blocks, slot, e[slot], other);
    }
  }

  lemma DeleteReads(i: Image, blocks: nat, name: string, store: Store)
    requires Sound(i, blocks) && Reads(i, blocks, store)
    ensures var z := i.(dir := Delete(i.dir, name)); Sound(z, blocks) && Reads(z, blocks, store - {name})
  {
    DeleteSound(i, blocks, name);
    forall other
      ensures Shown(Delete(i.dir, name), i.disk, blocks, other) == Lookup(store - {name}, other)
    {
      DeletedReads(i, blocks, name, other);
    }
  }

  /** A write reports that there is no file exactly when the table has none, and succeeds exactly
      when the bytes fit the file's room. */
  lemma WriteSucceedsExactly(i: Image, blocks: nat, name: string, bytes: seq<Byte>, store: Store)
    requires Sound(i, blocks) && Reads(i, blocks, store)
    ensures var w := WriteFile(i.dir, i.disk, blocks, name, bytes);
            && (w.NotFound? <==> name !in store)
            && (w.Written? <==> name in store && |bytes| <= store[name].room)
  {
    assert Shown(i.dir, i.disk, blocks, name) == Lookup(store, name);
  }

  lemma WriteReads(i: Image, blocks: nat, name: string, bytes: seq<Byte>, store: Store)
    requires Sound(i, blocks) && Reads(i, blocks, store) && WriteFile(i.dir, i.disk, blocks, name, bytes).Written?
    requires name in store
    ensures var w := WriteFile(i.dir, i.disk, blocks, name, bytes);
            && Sound(Image(w.dir, w.disk), blocks)
            && Reads(Image(w.dir, w.disk), blocks, store[name := store[name].(bytes := bytes)])
  {
    WriteThenRead(i.dir, i.disk, blocks, name, bytes);
    var w, k := WriteFile(i.dir, i.disk, blocks, name, bytes), Find(i.dir, name);
    forall other
      ensures Shown(w.dir, w.disk, blocks, other) == Lookup(store[name := store[name].(bytes := bytes)], other)
    {
      assert Shown(i.dir, i.disk, blocks, other) == Lookup(store, other);
      SameFind(i.dir, blocks, k, |bytes|, other);
    }
  }

  lemma StepReads(i: Image, blocks: nat, op: Op, store: Store)
    requires Sound(i, blocks) && Allowed(i, blocks, op) && Reads(i, blocks, store)
    ensures Sound(Apply(i, blocks, op), blocks)
    ensures Reads(Apply(i, blocks, op), blocks, Effect(op, Creates(i, blocks, op), store))
  {
    StepSound(i, blocks, op);
    match op
    case CreateOp(s, name, maxsize) =>
      if Create(i.dir, s, name, maxsize, blocks).Created? { CreateReads(i, blocks, s, name, maxsize, store); }
    case DeleteOp(name) => DeleteReads(i, blocks, name, store);
    case WriteOp(name, bytes) =>
      WriteSucceedsExactly(i, blocks, name, bytes, store);
      if WriteFile(i.dir, i.disk, blocks, name, bytes).Written? { WriteReads(i, blocks, name, bytes, store); }
  }

  ghost predicate AllAllowed(i: Image, blocks: nat, ops: seq<Op>)
    requires Sound(i, blocks)
    decreases |ops|
  {
    || ops == []
    || (&& Allowed(i, blocks, ops[0])
        && (StepSound(i, blocks, ops[0]); AllAllowed(Apply(i, blocks, ops[0]), blocks, ops[1..])))
  }

  ghost function Run(i: Image, blocks: nat, ops: seq<Op>): Image
    requires Sound(i, blocks) && AllAllowed(i, blocks, ops)
    decreases |ops|
  {
    if ops == [] then i
    else
      StepSound(i, blocks, ops[0]);
      Run(Apply(i, blocks, ops[0]), blocks, ops[1..])
  }

  ghost function Effects(i: Image, blocks: nat, ops: seq<Op>, store: Store): Store
    requires Sound(i, blocks) && AllAllowed(i, blocks, ops)
    decreases |ops|
  {
    if ops == [] then store
    else
      StepSound(i, blocks, ops[0]);
      Effects(Apply(i, blocks, ops[0]), blocks, ops[1..], Effect(ops[0], Creates(i, blocks, ops[0]), store))
  }

  lemma {:induction false} RunReads(i: Image, blocks: nat, ops: seq<Op>, store: Store)
    requires Sound(i, blocks) && AllAllowed(i, blocks, ops) && Reads(i, blocks, store)
    ensures Sound(Run(i, blocks, ops), blocks)
    ensures Reads(Run(i, blocks, ops), blocks, Effects(i, blocks, ops, store))
    decreases |ops|
  {
    if ops == [] {
    } else {
      StepReads(i, blocks, ops[0], store);
      RunReads(Apply(i, blocks, ops[0]), blocks, ops[1..], Effect(ops[0], Creates(i, blocks, ops[0]), store));
    }
  }

  /** From a freshly formatted disk, whatever is in its data blocks: after any run of creates that
      meet their conditions, deletes and writes, the image is sound and every name reads as the
      table says: what was last written to it, nothing for a new file, no file once deleted. */
  lemma ImageIsATable(disk: seq<Byte>, blocks: nat, ops: seq<Op>)
    requires 2 <= blocks < WORD64 && |disk| >= blocks * BLOCK_SIZE
    ensures var i := Image(seq(ENTRIES, _ => End), disk);
            && Sound(i, blocks)
            && (AllAllowed(i, blocks, ops) ==>
                  && Sound(Run(i, blocks, ops), blocks)
                  && Reads(Run(i, blocks, ops), blocks, Effects(i, blocks, ops, map[])))
  {
    var i := Image(seq(ENTRIES, _ => End), disk);
    FormattedIsSound(blocks);
    LimitIs(i.dir, 0);
    assert Reads(i, blocks, map[]);
    if AllAllowed(i, blocks, ops) { RunReads(i, blocks, ops, map[]); }
  }
}
