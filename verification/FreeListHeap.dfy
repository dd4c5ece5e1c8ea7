// The free-list allocator as it works on memory: block headers linked into a list between two
// sentinels, and a running byte counter (Kernel/utils/MemoryManagerADT.c).
module FreeListHeap {
  import opened FreeListSpec

  /** A MemoryBlock pointer: NULL, one of the manager's sentinels, or an offset into the heap. */
  datatype Pointer = Null | Start | End | At(off: nat)

  datatype Header = Header(blockSize: nat, next: Pointer)

  type Memory = map<Pointer, Header>

  // ---------------------------------------------------------------- memory and list

  /** The nodes in link order: the start, the listed blocks, the end. */
  function Node(l: seq<nat>, k: nat): Pointer
    requires k <= |l| + 1
  {
    if k == 0 then Start else if k <= |l| then At(l[k - 1]) else End
  }

  predicate LinkedAt(m: Memory, l: seq<nat>, k: nat)
    requires k <= |l|
  {
    Node(l, k) in m && m[Node(l, k)].next == Node(l, k + 1)
  }

  /** Following `next` from the start visits the listed blocks in order and then the end. */
  predicate Linked(m: Memory, l: seq<nat>) {
    forall k: nat | k <= |l| :: LinkedAt(m, l, k)
  }

  predicate SizeAt(m: Memory, blocks: map<nat, nat>, b: nat)
    requires b in blocks
  {
    At(b) in m && m[At(b)].blockSize == blocks[b]
  }

  predicate Sized(m: Memory, blocks: map<nat, nat>) {
    forall b | b in blocks :: SizeAt(m, blocks, b)
  }

  predicate Sentinels(m: Memory) {
    && Start in m && m[Start].blockSize == 0
    && End in m && m[End] == Header(TOTAL_HEAP_SIZE, Null)
  }

  predicate Represents(m: Memory, h: Heap) {
    && Sentinels(m) && Sized(m, h.blocks) && Linked(m, h.list)
    && Listed(h) && Distinct(h.list)
  }

  /** What the walk sees at the node after position `k`. */
  lemma NextSize(m: Memory, h: Heap, k: nat)
    requires Represents(m, h) && k <= |h.list|
    ensures var p := Node(h.list, k);
            && p in m && m[p].next == Node(h.list, k + 1) && m[p].next in m
            && m[m[p].next].blockSize == (if k < |h.list| then SizeOf(h, h.list[k]) else TOTAL_HEAP_SIZE)
            && (m[m[p].next].next == Null <==> k == |h.list|)
  {
    assert LinkedAt(m, h.list, k);
    if k < |h.list| {
      assert SizeAt(m, h.blocks, h.list[k]);
      assert LinkedAt(m, h.list, k + 1);
    }
  }

  /** Writing the header of a block that is not listed keeps the links. */
  lemma HeaderWritten(m: Memory, h: Heap, b: nat, header: Header)
    requires Represents(m, h) && b !in h.list
    ensures Represents(m[At(b) := header], h.(blocks := h.blocks[b := header.blockSize]))
  {
    var m', blocks := m[At(b) := header], h.blocks[b := header.blockSize];
    forall k: nat | k <= |h.list|
      ensures LinkedAt(m', h.list, k)
    {
      assert LinkedAt(m, h.list, k);
    }
    forall x | x in blocks
      ensures SizeAt(m', blocks, x)
    {
      if x != b { assert SizeAt(m, h.blocks, x); }
    }
  }

  lemma SizesSurvive(m: Memory, m': Memory, blocks: map<nat, nat>)
    requires Sized(m, blocks) && forall a | a in m :: a in m' && m'[a].blockSize == m[a].blockSize
    ensures Sized(m', blocks)
  {
    forall b | b in blocks
      ensures SizeAt(m', blocks, b)
    {
      assert SizeAt(m, blocks, b);
    }
  }

  /** Unlinking the block at position `i`. */
  lemma Unlinks(m: Memory, h: Heap, i: nat)
    requires Represents(m, h) && i < |h.list|
    ensures var p := Node(h.list, i);
            p in m && At(h.list[i]) in m && Represents(m[p := m[p].(next := m[At(h.list[i])].next)], Unlink(h, i))
  {
    var l := h.list;
    var g, p := Unlink(h, i), Node(l, i);
    assert LinkedAt(m, l, i) && LinkedAt(m, l, i + 1);
    var m' := m[p := m[p].(next := m[At(l[i])].next)];
    forall k: nat | k <= |g.list|
      ensures LinkedAt(m', g.list, k)
    {
      assert LinkedAt(m, l, if k <= i then k else k + 1);
      NodesDiffer(l, i, if k <= i then k else k + 1);
    }
    SizesSurvive(m, m', h.blocks);
  }

  lemma NodesDiffer(l: seq<nat>, i: nat, k: nat)
    requires Distinct(l) && i <= |l| && k <= |l|
    ensures Node(l, i) == Node(l, k) <==> i == k
  {
  }

  /** Linking block `b` in after position `k`. */
  lemma Links(m: Memory, h: Heap, b: nat, k: nat)
    requires Represents(m, h) && b in h.blocks && b !in h.list && k <= |h.list|
    ensures var l := h.list[..k] + [b] + h.list[k..];
            var p := Node(h.list, k);
            && p in m && At(b) in m && p != At(b)
            && var m1 := m[At(b) := m[At(b)].(next := m[p].next)];
               Represents(m1[p := m1[p].(next := At(b))], h.(list := l))
  {
    var l := h.list[..k] + [b] + h.list[k..];
    var p := Node(h.list, k);
    assert SizeAt(m, h.blocks, b) && LinkedAt(m, h.list, k);
    var m1 := m[At(b) := m[At(b)].(next := m[p].next)];
    var m2 := m1[p := m1[p].(next := At(b))];
    forall j: nat | j <= |l|
      ensures LinkedAt(m2, l, j)
    {
      if j != k + 1 {
        assert LinkedAt(m, h.list, if j <= k then j else j - 1);
        NodesDiffer(h.list, k, if j <= k then j else j - 1);
      }
    }
    SizesSurvive(m, m2, h.blocks);
    InsertMembers(h.list, k, b);
  }

  // ---------------------------------------------------------------- outcomes

  function Returned(r: AllocResult): Pointer {
    match r
    case Refused => Null
    case Granted(_, b) => At(b + STRUCT_SIZE)
  }

  /** What the caller gets and what is left of the heap and the counter. */
  predicate Outcome(r: AllocResult, h: Heap, left: int, g: Heap, newLeft: int, p: Pointer) {
    && p == Returned(r)
    && (r.Refused? ==> g == h && newLeft == left)
    && (r.Granted? ==> g == r.heap && newLeft == left - SizeOf(g, r.block))
  }

  class FreeListManager {
    var mem: Memory
    var freeBytesRemaining: int
    ghost var heap: Heap

    /** Memory shows the heap; `Valid` adds that the heap is sound. */
    ghost predicate Shows()
      reads this
    {
      Represents(mem, heap)
    }

    ghost predicate Valid()
      reads this
    {
      Shows() && Inv(heap)
    }

    ghost function State(): Manager
      reads this
    {
      Manager(heap, freeBytesRemaining)
    }

    constructor ()
      ensures Valid() && State() == INITIAL
    {
      mem := map[Start := Header(0, At(0)), End := Header(TOTAL_HEAP_SIZE, Null), At(0) := Header(TOTAL_HEAP_SIZE, End)];
      freeBytesRemaining := TOTAL_HEAP_SIZE;
      heap := EMPTY_HEAP;
      new;
      assert forall k: nat | k <= 1 :: LinkedAt(mem, [0], k);
      assert SizeAt(mem, heap.blocks, 0);
    }

    /** Walk to the last node before a block that is not smaller than `size`. */
    method LastSmaller(size: nat) returns (blockIterator: Pointer)
      requires Shows() && size <= TOTAL_HEAP_SIZE
      ensures blockIterator == Node(heap.list, InsertPos(heap, heap.list, size))
    {
      ghost var k := 0;
      blockIterator := Start;
      NextSize(mem, heap, 0);
      while mem[mem[blockIterator].next].blockSize < size
        invariant k <= |heap.list| && blockIterator == Node(heap.list, k) && blockIterator in mem && mem[blockIterator].next in mem
        invariant forall i | 0 <= i < k :: SizeOf(heap, heap.list[i]) < size
        modifies {}
        decreases |heap.list| - k
      {
        NextSize(mem, heap, k);
        blockIterator := mem[blockIterator].next;
        k := k + 1;
        NextSize(mem, heap, k);
      }
      NextSize(mem, heap, k);
      InsertPosIs(heap, heap.list, size, k);
    }

    method InsertBlockIntoFreeList(block: Pointer)
      requires Shows() && block.At? && block.off in heap.blocks && block.off !in heap.list
      requires heap.blocks[block.off] <= TOTAL_HEAP_SIZE
      modifies this`mem, this`heap
      ensures Shows() && heap == Free(old(heap), block.off)
    {
      assert SizeAt(mem, heap.blocks, block.off);
      var blockIterator := LastSmaller(mem[block].blockSize);
      ghost var k := InsertPos(heap, heap.list, heap.blocks[block.off]);
      Links(mem, heap, block.off, k);
      mem := mem[block := mem[block].(next := mem[blockIterator].next)];
      mem := mem[blockIterator := mem[blockIterator].(next := block)];
      heap := Free(heap, block.off);
    }

    method AllocMem(memoryToAllocate: nat) returns (blockToReturn: Pointer)
      requires Valid() && memoryToAllocate < WORD
      modifies this
      ensures Shows() && (Valid() <==> blockToReturn == Null || SafeRequest(old(heap), memoryToAllocate))
      ensures State() == Step(old(State()), AllocOp(memoryToAllocate))
      ensures match Alloc(old(heap), memoryToAllocate)
              case Refused => blockToReturn == Null
              case Granted(_, b) => blockToReturn == At(b + 16)
    {
      if memoryToAllocate == 0 {
        return Null;
      }
      ghost var before, left := heap, freeBytesRemaining;
      AllocInv(before, memoryToAllocate);
      var req := AddHeader(memoryToAllocate);
      if req < TOTAL_HEAP_SIZE {
        blockToReturn := TakeFirstFit(req);
      } else {
        blockToReturn := Null;
      }
      OutcomeIsStep(before, left, memoryToAllocate, heap, freeBytesRemaining, blockToReturn);
    }

    /** The request with its header, rounded up to the alignment of 8 bytes. */
    method AddHeader(memoryToAllocate: nat) returns (req: nat)
      requires memoryToAllocate < WORD
      ensures req == Adjusted(memoryToAllocate) && req % 8 == 0
      ensures if memoryToAllocate <= LARGEST_SAFE_REQUEST
              then memoryToAllocate + 16 <= req < memoryToAllocate + 24
              else if memoryToAllocate < 0xFFFF_FFF0 then req == 0
              else memoryToAllocate - 0xFFFF_FFF0 <= req < memoryToAllocate - 0xFFFF_FFE8
    {
      AdjustedFacts(memoryToAllocate);
      req := (memoryToAllocate + STRUCT_SIZE) % 0x1_0000_0000;
      if req % 8 != 0 {
        req := (req + (8 - req % 8)) % 0x1_0000_0000;
      }
    }

    /** The walk, the unlinking, the split and the counter, for a request with its header added. */
    method TakeFirstFit(req: nat) returns (blockToReturn: Pointer)
      requires Valid() && req < TOTAL_HEAP_SIZE
      modifies this
      ensures Shows()
      ensures Outcome(Taken(old(heap), req), old(heap), old(freeBytesRemaining), heap, freeBytesRemaining, blockToReturn)
    {
      var previousBlock, block := FirstFit(req);
      if block == End {
        return Null;
      }
      ghost var before, left := heap, freeBytesRemaining;
      blockToReturn := At(mem[previousBlock].next.off + STRUCT_SIZE);
      TakeAfter(previousBlock, block, req);
      TakenOutcome(before, req, left, heap, freeBytesRemaining, blockToReturn);
    }

    /** Unlink the block the walk found, split it and charge the counter. */
    method TakeAfter(previousBlock: Pointer, block: Pointer, req: nat)
      requires Valid() && InsertPos(heap, heap.list, req) < |heap.list|
      requires var i := InsertPos(heap, heap.list, req);
               previousBlock == Node(heap.list, i) && block == At(heap.list[i])
      requires previousBlock in mem && block in mem
      modifies this
      ensures Shows()
      ensures var i := InsertPos(old(heap), old(heap.list), req);
              heap == Carve(Unlink(old(heap), i), block.off, req)
      ensures freeBytesRemaining == old(freeBytesRemaining) - SizeOf(heap, block.off)
    {
      UnlinkAfter(previousBlock, block, InsertPos(heap, heap.list, req));
      SplitBlock(block, req);
      freeBytesRemaining := freeBytesRemaining - mem[block].blockSize;
    }

    method UnlinkAfter(previousBlock: Pointer, block: Pointer, ghost i: nat)
      requires Valid() && i < |heap.list| && previousBlock == Node(heap.list, i) && block == At(heap.list[i])
      requires previousBlock in mem && block in mem
      modifies this`mem, this`heap
      ensures Valid() && heap == Unlink(old(heap), i) && Live(heap, block.off) && block in mem
      ensures heap.blocks[block.off] == SizeOf(old(heap), old(heap).list[i])
    {
      Unlinks(mem, heap, i);
      UnlinkKeeps(heap, i);
      mem := mem[previousBlock := mem[previousBlock].(next := mem[block].next)];
      heap := Unlink(heap, i);
    }

    /** Walk to the first listed block of at least `req` bytes, or to the end. */
    method FirstFit(req: nat) returns (previousBlock: Pointer, block: Pointer)
      requires Valid() && req < TOTAL_HEAP_SIZE
      ensures var i := InsertPos(heap, heap.list, req);
              previousBlock == Node(heap.list, i) && block == Node(heap.list, i + 1)
      ensures previousBlock in mem && block in mem && mem[previousBlock].next == block
    {
      ghost var k := 0;
      previousBlock := Start;
      block := mem[Start].next;
      NextSize(mem, heap, 0);
      while mem[block].blockSize < req && mem[block].next != Null
        invariant k <= |heap.list| && previousBlock == Node(heap.list, k) && previousBlock in mem
        invariant block == Node(heap.list, k + 1) && block in mem && mem[previousBlock].next == block
        invariant forall i | 0 <= i < k :: SizeOf(heap, heap.list[i]) < req
        modifies {}
        decreases |heap.list| - k
      {
        NextSize(mem, heap, k);
        previousBlock := block;
        block := mem[block].next;
        k := k + 1;
        NextSize(mem, heap, k);
      }
      NextSize(mem, heap, k);
      InsertPosIs(heap, heap.list, req, k);
    }

    method SplitBlock(block: Pointer, req: nat)
      requires Shows() && Inv(heap) && block.At? && Live(heap, block.off) && req <= heap.blocks[block.off]
      modifies this`mem, this`heap
      ensures Shows() && heap == Carve(old(heap), block.off, req)
      ensures block in mem && mem[block].blockSize == SizeOf(heap, block.off)
    {
      ghost var b := block.off;
      assert SizeAt(mem, heap.blocks, b);
      if mem[block].blockSize - req > MINIMUM_BLOCK_SIZE {
        var newBlock := At(block.off + req);
        ghost var cut := CutAt(heap, b, req);
        CutUnlisted(heap, b, req);
        // `next` of the new header is set when it is inserted
        ghost var before := mem;
        mem := mem[newBlock := Header(mem[block].blockSize - req, Null)];
        HeaderWritten(before, heap, b + req, mem[newBlock]);
        heap := heap.(blocks := heap.blocks[b + req := heap.blocks[b] - req]);
        HeaderWritten(mem, heap, b, mem[block].(blockSize := req));
        mem := mem[block := mem[block].(blockSize := req)];
        heap := cut;
        InsertBlockIntoFreeList(newBlock);
        assert SizeAt(mem, heap.blocks, b);
      }
    }

    /** `block` is NULL or what AllocMem returned for a block still live. */
    method FreeMem(block: Pointer)
      requires Valid()
      requires block == Null || (block.At? && block.off >= 16 && Live(heap, block.off - 16))
      modifies this
      ensures Valid()
      ensures block == Null ==> State() == old(State())
      ensures block != Null ==> State() == Step(old(State()), FreeOp(block.off - 16))
    {
      if block == Null {
        return;
      }
      var blockToFree := At(block.off - STRUCT_SIZE);
      ghost var before := heap;
      FreeKeeps(before, blockToFree.off);
      InsertBlockIntoFreeList(blockToFree);
      assert SizeAt(mem, heap.blocks, blockToFree.off);
      freeBytesRemaining := freeBytesRemaining + mem[blockToFree].blockSize;
    }
  }

  /** What is cut off a live block is no listed block. */
  lemma CutUnlisted(h: Heap, b: nat, req: nat)
    requires Inv(h) && Live(h, b) && req < h.blocks[b]
    ensures b + req !in h.list && (req != 0 ==> b + req !in h.blocks)
    ensures Listed(CutAt(h, b, req)) && h.blocks[b] <= TOTAL_HEAP_SIZE
  {
    if req != 0 { NothingInside(h.blocks, b, req); }
  }

  lemma {:induction false} InsertPosIs(h: Heap, l: seq<nat>, size: nat, k: nat)
    requires k <= |l| && (forall i | 0 <= i < k :: SizeOf(h, l[i]) < size) && (k < |l| ==> SizeOf(h, l[k]) >= size)
    ensures InsertPos(h, l, size) == k
  {
    if k == 0 {
    } else {
      assert forall i | 0 <= i < |l[1..]| :: l[1..][i] == l[i + 1];
      InsertPosIs(h, l[1..], size, k - 1);
    }
  }

  lemma TakenOutcome(h: Heap, req: nat, left: int, g: Heap, newLeft: int, p: Pointer)
    requires InsertPos(h, h.list, req) < |h.list|
    requires var i := InsertPos(h, h.list, req);
             var b := h.list[i];
             g == Carve(Unlink(h, i), b, req) && newLeft == left - SizeOf(g, b) && p == At(b + STRUCT_SIZE)
    ensures Outcome(Taken(h, req), h, left, g, newLeft, p)
  {
  }

  /** The outcome of AllocMem is one step of the allocator's runs. */
  lemma OutcomeIsStep(h: Heap, left: int, n: nat, g: Heap, newLeft: int, p: Pointer)
    requires Outcome(Alloc(h, n), h, left, g, newLeft, p)
    ensures Manager(g, newLeft) == Step(Manager(h, left), AllocOp(n))
  {
  }

  lemma AllocInv(h: Heap, n: nat)
    requires Inv(h) && n < WORD
    ensures Alloc(h, n).Granted? ==> (Inv(Alloc(h, n).heap) <==> SafeRequest(h, n))
  {
    if Alloc(h, n).Granted? { GrantSoundExactly(h, n); }
  }
}
