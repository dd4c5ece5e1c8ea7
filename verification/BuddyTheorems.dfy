// Properties of the buddy allocator over single calls and over whole runs.
module BuddyTheorems {
  import opened Options
  import opened BuddyTree
  import opened BuddySpec

  // ---------------------------------------------------------------- alloc then free

  /** Carving a block and giving the piece back is the same as giving the whole block back. */
  lemma {:induction false} SplitThenRelease(h: Heap, p: Path, req: nat)
    requires Inv(h) && LiveLeaf(h.tree, p) && Size(p) >= req
    ensures var c := Split(h, p, req); Release(c.heap, c.block) == Release(h, p)
    decreases MAX_DEPTH - |p|
  {
    if |p| < MAX_DEPTH && Splits(|p|, req) {
      var g, q := Halve(h, p), p + [false];
      HalveKeeps(h, p);
      SplitThenRelease(g, q, req);
      SiblingFacts(q);
      ChildOf(p, false);
      assert Sibling(q) == p + [true];
      assert Release(g, q) == Release(Merge(g, q), p);
      PutPut(h.tree, p, Node(Leaf(false), Leaf(true)), Leaf(false));
      PutSub(h.tree, p, Leaf(false));
      RemoveInsert(h.list, p + [true]);
      assert Merge(g, q) == h;
    }
  }

  lemma TakeThenRelease(h: Heap, req: nat)
    requires Inv(h) && req <= TOTAL_HEAP_SIZE && FirstFit(h.list, req) < |h.list|
    ensures var i := FirstFit(h.list, req); Release(Take(h, i), h.list[i]) == Released(h, h.list[i])
  {
    var i := FirstFit(h.list, req);
    var p := h.list[i];
    assert FreeLeaf(h.tree, p);
    if p == [] {
      assert h.tree == Leaf(true);
      OnlyWholeHeap(h);
    } else {
      TreeBack(h.tree, p);
      ListBack(h.list, req);
    }
  }

  /** Taking a block does not free its sibling, and marking it free again undoes the taking. */
  lemma TreeBack(t: Tree, p: Path)
    requires Coalesced(t) && FreeLeaf(t, p) && p != []
    ensures var u := Put(t, p, Leaf(false)); !FreeLeaf(u, Sibling(p)) && Put(u, p, Leaf(true)) == t
  {
    CoalescedAt(t, p);
    SiblingFacts(p);
    PutAt(t, p, Leaf(false), Sibling(p));
    PutPut(t, p, Leaf(false), Leaf(true));
    PutSub(t, p, Leaf(true));
  }

  /** The first block that fits is the first of its size, so it goes back where it was. */
  lemma ListBack(list: seq<Path>, req: nat)
    requires Sorted(list) && FirstFit(list, req) < |list|
    ensures var i := FirstFit(list, req); Insert(DropAt(list, i), list[i]) == list
  {
    var i := FirstFit(list, req);
    var l := DropAt(list, i);
    FirstOfItsSize(list, req);
    assert forall j | 0 <= j < i :: l[j] == list[j];
    InsertPosUnique(l, |list[i]|, i);
    DropThenInsert(list, i);
  }

  lemma FirstOfItsSize(list: seq<Path>, req: nat)
    requires Sorted(list) && FirstFit(list, req) < |list|
    ensures var i := FirstFit(list, req); forall j | 0 <= j < i :: |list[j]| > |list[i]|
  {
    var i := FirstFit(list, req);
    forall j | 0 <= j < i
      ensures |list[j]| > |list[i]|
    {
      assert |list[j]| >= |list[i]| && Size(list[j]) < req <= Size(list[i]);
    }
  }

  lemma DropThenInsert(list: seq<Path>, i: nat)
    requires i < |list|
    ensures DropAt(list, i)[..i] + [list[i]] + DropAt(list, i)[i..] == list
  {
  }

  lemma OnlyWholeHeap(h: Heap)
    requires Inv(h) && h.tree == Leaf(true)
    ensures h == EMPTY_HEAP
  {
    assert FreeLeaf(h.tree, []);
    assert [] in h.list;
    forall i | 0 <= i < |h.list|
      ensures h.list[i] == []
    {
      assert h.list[i] in h.list;
      assert FreeLeaf(h.tree, h.list[i]);
    }
    if |h.list| > 1 {
      FirstTwoDiffer(h.list);
    }
    assert h.list == [[]];
  }

  lemma FirstTwoDiffer(l: seq<Path>)
    requires Distinct(l) && |l| > 1
    ensures l[0] != l[1]
  {
  }

  /** Freeing what was just allocated restores the tiling and the free list, order included. */
  lemma AllocThenFreeIsIdentity(h: Heap, n: nat)
    requires Inv(h) && Alloc(h, n).Granted?
    ensures Release(Alloc(h, n).heap, Alloc(h, n).block).heap == h
  {
    var req := Adjusted(n);
    var i := FirstFit(h.list, req);
    TakeThenRelease(h, req);
    TakeKeeps(h, i);
    SplitThenRelease(Take(h, i), h.list[i], req);
  }

  // ---------------------------------------------------------------- coalescing

  /** Whenever nothing is live, the heap is again one free block of the full size. */
  lemma NothingLiveIsOneBlock(h: Heap)
    requires Inv(h) && forall p :: !LiveLeaf(h.tree, p)
    ensures h == EMPTY_HEAP
  {
    AllFreeIsOneBlock(h.tree);
    OnlyWholeHeap(h);
  }

  // ---------------------------------------------------------------- fit and completeness

  lemma SmallestPower(q: Path, req: nat)
    requires |q| <= MAX_DEPTH && !Splits(|q|, req)
    ensures Size(q) >= MINIMUM_BLOCK_SIZE && Size(q) == Pow2(27 - |q|)
    ensures forall k :: Pow2(k) >= MINIMUM_BLOCK_SIZE && Pow2(k) >= req ==> Pow2(k) >= Size(q)
  {
    var d := |q|;
    SmallestSize(d);
    SizeIsPow2(d);
    forall k: nat
      ensures Pow2(k) >= MINIMUM_BLOCK_SIZE && Pow2(k) >= req ==> Pow2(k) >= Size(q)
    {
      if k < 27 - d {
        Pow2Monotone(k, 26 - d);
        assert Pow2(k) <= SizeAt(d) / 2;
      } else {
        Pow2Monotone(27 - d, k);
      }
    }
  }

  /** The smallest power of two from the minimum block on that is at least `need`. */
  ghost predicate SmallestFor(size: nat, need: nat) {
    && size >= 512 && size >= need && (exists k :: size == Pow2(k))
    && forall k :: Pow2(k) >= 512 && Pow2(k) >= need ==> Pow2(k) >= size
  }

  /** `p` is a smallest free block of at least `need` bytes. */
  ghost predicate BestFree(t: Tree, p: Path, need: nat) {
    FreeLeaf(t, p) && Size(p) >= need && forall f :: FreeLeaf(t, f) && Size(f) >= need ==> Size(p) <= Size(f)
  }

  /** A granted block has the smallest size that holds the request with its header of 24 bytes, or a
      minimum block when adding the header wraps around 32 bits; it is the beginning of a smallest
      free block that is large enough. */
  lemma GrantedFits(h: Heap, n: nat)
    requires Inv(h) && n < WORD && Alloc(h, n).Granted?
    ensures var need := if n <= LARGEST_SAFE_REQUEST then n + 24 else 0;
            var q := Alloc(h, n).block;
            && SmallestFor(Size(q), need)
            && exists p :: p <= q && Off(q) == Off(p) && BestFree(h.tree, p, need)
  {
    var q, req := Alloc(h, n).block, Adjusted(n);
    var need := if n <= LARGEST_SAFE_REQUEST then n + 24 else 0;
    var i := FirstFit(h.list, req);
    var p := h.list[i];
    assert FreeLeaf(h.tree, p);
    TakeKeeps(h, i);
    SplitKeeps(Take(h, i), p, req);
    SplitStarts(Take(h, i), p, req);
    SmallestPower(q, req);
    forall k: nat
      ensures Pow2(k) >= 512 ==> (Pow2(k) >= req <==> Pow2(k) >= need)
    {
      if Pow2(k) >= 512 { HoldsAdjusted(k, n); }
    }
    BestIsFirst(h, req);
    forall f | FreeLeaf(h.tree, f)
      ensures Size(f) >= req <==> Size(f) >= need
    {
      LeafHolds(h.tree, f, n);
    }
  }

  /** Splitting keeps the lower end in hand. */
  lemma {:induction false} SplitStarts(h: Heap, p: Path, req: nat)
    ensures Off(Split(h, p, req).block) == Off(p)
    decreases MAX_DEPTH - |p|
  {
    if |p| < MAX_DEPTH && Splits(|p|, req) {
      ChildOf(p, false);
      SplitStarts(Halve(h, p), p + [false], req);
    }
  }

  lemma BestIsFirst(h: Heap, req: nat)
    requires Inv(h) && FirstFit(h.list, req) < |h.list|
    ensures BestFree(h.tree, h.list[FirstFit(h.list, req)], req)
  {
    var i := FirstFit(h.list, req);
    var p := h.list[i];
    assert FreeLeaf(h.tree, p);
    forall f | FreeLeaf(h.tree, f) && Size(f) >= req
      ensures Size(p) <= Size(f)
    {
      assert f in h.list;
      var j :| 0 <= j < |h.list| && h.list[j] == f;
      assert i <= j;
      LeafDepth(h.tree, p);
      SizeAntitone(|f|, |p|);
    }
  }

  /** The request with its header is the next multiple of 8, or at most a header when the 32-bit
      addition wraps. */
  lemma AdjustedFacts(n: nat)
    requires n < WORD
    ensures Adjusted(n) % 8 == 0
    ensures n <= LARGEST_SAFE_REQUEST ==> n + 24 <= Adjusted(n) < n + 32
    ensures n > LARGEST_SAFE_REQUEST ==>
              if n < 0xFFFF_FFE8 then Adjusted(n) == 0 else n - 0xFFFF_FFE8 <= Adjusted(n) < n - 0xFFFF_FFE0
  {
    var a := (n + STRUCT_SIZE) % WORD;
    assert a == if n + STRUCT_SIZE < WORD then n + STRUCT_SIZE else n + STRUCT_SIZE - WORD;
    RoundedUp(a);
  }

  lemma RoundedUp(a: nat)
    requires a < WORD
    ensures var r := if a % 8 != 0 then (a + (8 - a % 8)) % WORD else a;
            && r % 8 == 0
            && (a <= WORD - 8 ==> a <= r < a + 8)
            && (a > WORD - 8 ==> r == 0)
  {
  }

  /** Rounding up to 8 does not change which block sizes hold a request. */
  lemma HoldsAdjusted(k: nat, n: nat)
    requires n < WORD && Pow2(k) >= 512
    ensures Pow2(k) >= Adjusted(n) <==> n > LARGEST_SAFE_REQUEST || Pow2(k) >= n + 24
  {
    AdjustedFacts(n);
    MultipleOf8(k);
  }

  lemma MultipleOf8(k: nat)
    requires Pow2(k) >= 512
    ensures Pow2(k) % 8 == 0
  {
    assert Pow2(3) == 8;
    if k < 3 {
      Pow2Monotone(k, 3);
    } else {
      assert Pow2(k) == 2 * Pow2(k - 1) && Pow2(k - 1) == 2 * Pow2(k - 2) && Pow2(k - 2) == 2 * Pow2(k - 3);
    }
  }

  lemma LeafHolds(t: Tree, f: Path, n: nat)
    requires Height(t) <= MAX_DEPTH && IsLeaf(t, f) && n < WORD
    ensures Size(f) >= Adjusted(n) <==> n > LARGEST_SAFE_REQUEST || Size(f) >= n + 24
  {
    LeafShape(t, f);
    HoldsAdjusted(27 - |f|, n);
  }

  lemma {:induction false} Pow2Monotone(j: nat, k: nat)
    requires j <= k
    ensures Pow2(j) <= Pow2(k)
    decreases k
  {
    if j < k {
      Pow2Monotone(j, k - 1);
    }
  }

  /** NULL exactly for a zero request, an oversize request, or when no free block is large enough;
      a request that wraps is refused only when nothing is free. */
  lemma RefusedExactly(h: Heap, n: nat)
    requires Inv(h) && n < WORD
    ensures Alloc(h, n).Refused? <==>
              if n > LARGEST_SAFE_REQUEST then forall f :: !FreeLeaf(h.tree, f)
              else n == 0 || n + 24 > 0x800_0000 || forall f :: FreeLeaf(h.tree, f) ==> Size(f) < n + 24
  {
    var req := Adjusted(n);
    var i := FirstFit(h.list, req);
    AdjustedFacts(n);
    forall f | FreeLeaf(h.tree, f)
      ensures Size(f) < req <==> n <= LARGEST_SAFE_REQUEST && Size(f) < n + 24
    {
      LeafHolds(h.tree, f, n);
    }
    if i == |h.list| {
      forall f | FreeLeaf(h.tree, f)
        ensures Size(f) < req
      {
        assert f in h.list;
        var j :| 0 <= j < |h.list| && h.list[j] == f;
      }
    } else {
      assert h.list[i] in h.list;
      assert FreeLeaf(h.tree, h.list[i]);
    }
  }

  const LARGEST_SAFE_REQUEST: nat := 0xFFFF_FFE0

  /** The space after the header holds the caller's bytes exactly when adding the header and
      the alignment does not wrap around 32 bits. */
  lemma PayloadHoldsRequestExactly(h: Heap, n: nat)
    requires Inv(h) && n < WORD && Alloc(h, n).Granted?
    ensures Size(Alloc(h, n).block) - STRUCT_SIZE >= n <==> n <= LARGEST_SAFE_REQUEST
  {
    GrantedFits(h, n);
    GrantedWithinHeap(h, n);
  }

  lemma GrantedWithinHeap(h: Heap, n: nat)
    requires Inv(h) && Alloc(h, n).Granted?
    ensures Size(Alloc(h, n).block) <= TOTAL_HEAP_SIZE
  {
    var i := FirstFit(h.list, Adjusted(n));
    TakeKeeps(h, i);
    SplitKeeps(Take(h, i), h.list[i], Adjusted(n));
    SizeAntitone(0, |Alloc(h, n).block|);
  }

  /** A request that wraps is granted a minimum block on a fresh heap. */
  lemma WrappedRequestExample()
    ensures var n := 0xFFFF_FFF0;
            Alloc(EMPTY_HEAP, n).Granted? && Adjusted(n) == 8
            && Size(Alloc(EMPTY_HEAP, n).block) - STRUCT_SIZE < n
  {
    var n := 0xFFFF_FFF0;
    InitInv();
    assert Adjusted(n) == 8;
    assert FirstFit(EMPTY_HEAP.list, 8) == 0;
    PayloadHoldsRequestExactly(EMPTY_HEAP, n);
  }

  // ---------------------------------------------------------------- runs

  datatype Op = AllocOp(n: nat) | FreeOp(p: Path)

  /** Allocator state with the byte counter as the code keeps it, in 32 bits. */
  datatype Manager = Manager(heap: Heap, freeBytes: nat)

  const INITIAL: Manager := Manager(EMPTY_HEAP, TOTAL_HEAP_SIZE)

  /** 32-bit subtraction and addition on the byte counter. */
  function Debit(a: nat, b: nat): (r: nat)
    ensures r < WORD && (b <= a < WORD ==> r == a - b)
  {
    (a - b) % WORD
  }

  function Credit(a: nat, b: nat): (r: nat)
    ensures r < WORD && (a + b < WORD ==> r == a + b)
  {
    (a + b) % WORD
  }

  /** `freeMem` credits what the insertion returns: the size after merging. */
  function Step(m: Manager, op: Op): Manager {
    match op
    case AllocOp(n) => (
      match Alloc(m.heap, n)
      case Refused => m
      case Granted(g, q) => Manager(g, Debit(m.freeBytes, Size(q)))
    )
    case FreeOp(p) =>
      var r := Release(m.heap, p);
      Manager(r.heap, Credit(m.freeBytes, Size(r.block)))
  }

  /** Callers free only blocks that are live. */
  predicate LegalStep(m: Manager, op: Op) {
    op.FreeOp? ==> LiveLeaf(m.heap.tree, op.p)
  }

  predicate Legal(m: Manager, ops: seq<Op>)
    decreases |ops|
  {
    ops == [] || (LegalStep(m, ops[0]) && Legal(Step(m, ops[0]), ops[1..]))
  }

  function Run(m: Manager, ops: seq<Op>): Manager
    decreases |ops|
  {
    if ops == [] then m else Run(Step(m, ops[0]), ops[1..])
  }

  lemma InitInv()
    ensures Inv(EMPTY_HEAP)
    ensures forall p :: !LiveLeaf(EMPTY_HEAP.tree, p)
  {
    forall p
      ensures p in [[]] <==> FreeLeaf(Leaf(true), p)
    {
      if p != [] { assert Sub(Leaf(true), p).None?; }
    }
  }

  lemma StepKeeps(m: Manager, op: Op)
    requires Inv(m.heap) && LegalStep(m, op)
    ensures Inv(Step(m, op).heap)
  {
    match op
    case AllocOp(n) => AllocKeeps(m.heap, n);
    case FreeOp(p) => ReleaseKeeps(m.heap, p);
  }

  lemma {:induction false} RunKeeps(m: Manager, ops: seq<Op>)
    requires Inv(m.heap) && Legal(m, ops)
    ensures Inv(Run(m, ops).heap)
    decreases |ops|
  {
    if ops == [] {
    } else {
      StepKeeps(m, ops[0]);
      RunKeeps(Step(m, ops[0]), ops[1..]);
    }
  }

  /** After any run of allocations and frees of live blocks: blocks tile the heap, each size is
      a power of two within bounds, each address is its history times its size, the free list
      is sorted by size and holds exactly the free blocks, each once. */
  lemma HeapShapeAfterAnyRun(ops: seq<Op>)
    requires Legal(INITIAL, ops)
    ensures var h := Run(INITIAL, ops).heap;
            && (forall a: int | 0 <= a < TOTAL_HEAP_SIZE :: InSomeLeaf(h.tree, a))
            && (forall p, q | IsLeaf(h.tree, p) && IsLeaf(h.tree, q) && p != q :: RangesDisjoint(p, q))
            && (forall p | IsLeaf(h.tree, p) ::
                  && Off(p) + Size(p) <= TOTAL_HEAP_SIZE
                  && MINIMUM_BLOCK_SIZE <= Size(p) && |p| <= MAX_DEPTH && Size(p) == Pow2(27 - |p|)
                  && Off(p) == Hist(p) * Size(p))
            && Sorted(h.list) && Distinct(h.list)
            && (forall p :: p in h.list <==> FreeLeaf(h.tree, p))
            && (forall p | p != [] && FreeLeaf(h.tree, p) :: !FreeLeaf(h.tree, Sibling(p)))
  {
    InitInv();
    RunKeeps(INITIAL, ops);
    var h := Run(INITIAL, ops).heap;
    LeavesTile(h.tree);
    forall p | IsLeaf(h.tree, p)
      ensures MINIMUM_BLOCK_SIZE <= Size(p) && |p| <= MAX_DEPTH && Size(p) == Pow2(27 - |p|)
      ensures Off(p) == Hist(p) * Size(p)
    {
      LeafShape(h.tree, p);
    }
    NoFreePair(h.tree);
  }

  lemma LeafShape(t: Tree, p: Path)
    requires Height(t) <= MAX_DEPTH && IsLeaf(t, p)
    ensures MINIMUM_BLOCK_SIZE <= Size(p) && |p| <= MAX_DEPTH && Size(p) == Pow2(27 - |p|)
    ensures Off(p) == Hist(p) * Size(p)
  {
    LeafDepth(t, p);
    SizeIsPow2(|p|);
    SmallestSize(|p|);
    OffsetIsHistoryTimesSize(p);
  }

  lemma NoFreePair(t: Tree)
    requires Coalesced(t)
    ensures forall p | p != [] && FreeLeaf(t, p) :: !FreeLeaf(t, Sibling(p))
  {
    forall p | p != [] && FreeLeaf(t, p)
      ensures !FreeLeaf(t, Sibling(p))
    {
      CoalescedAt(t, p);
    }
  }

  /** After any run that leaves nothing live, the heap is as it was at the start. */
  lemma EverythingFreedRestoresTheHeap(ops: seq<Op>)
    requires Legal(INITIAL, ops)
    requires forall p :: !LiveLeaf(Run(INITIAL, ops).heap.tree, p)
    ensures Run(INITIAL, ops).heap == EMPTY_HEAP
  {
    InitInv();
    RunKeeps(INITIAL, ops);
    NothingLiveIsOneBlock(Run(INITIAL, ops).heap);
  }

  // ---------------------------------------------------------------- accounting

  lemma {:induction false} SplitFreeBytes(h: Heap, p: Path, req: nat)
    requires Inv(h) && LiveLeaf(h.tree, p) && Size(p) >= req
    ensures var c := Split(h, p, req);
            FreeBytes(c.heap.tree, 0) == FreeBytes(h.tree, 0) + Size(p) - Size(c.block)
    decreases MAX_DEPTH - |p|
  {
    if |p| < MAX_DEPTH && Splits(|p|, req) {
      HalveKeeps(h, p);
      HalvedFreeBytes(h, p);
      SplitFreeBytes(Halve(h, p), p + [false], req);
    }
  }

  lemma HalvedFreeBytes(h: Heap, p: Path)
    requires Inv(h) && LiveLeaf(h.tree, p) && |p| < MAX_DEPTH
    ensures FreeBytes(Halve(h, p).tree, 0) == FreeBytes(h.tree, 0) + Size(p) - Size(p + [false])
    ensures Size(p) >= Size(p + [false])
  {
    HalveFreeBytes(h.tree, p, 0);
    HalvedSize(p);
  }

  lemma HalvedSize(p: Path)
    requires |p| < MAX_DEPTH
    ensures Size(p + [false]) == SizeAt(|p| + 1) && Size(p) == 2 * SizeAt(|p| + 1)
  {
    var d := |p|;
    assert |p + [false]| == d + 1;
    SizeIsPow2(d);
  }

  /** Halving the block in hand adds its upper half to the free bytes. */
  lemma HalveFreeBytes(t: Tree, p: Path, d: nat)
    requires LiveLeaf(t, p)
    ensures FreeBytes(Put(t, p, Node(Leaf(false), Leaf(true))), d) == FreeBytes(t, d) + SizeAt(d + |p| + 1)
  {
    PutFreeBytes(t, p, Node(Leaf(false), Leaf(true)), d);
  }

  lemma AllocFreeBytes(h: Heap, n: nat)
    requires Inv(h) && Alloc(h, n).Granted?
    ensures FreeBytes(Alloc(h, n).heap.tree, 0) == FreeBytes(h.tree, 0) - Size(Alloc(h, n).block)
  {
    TakeFreeBytes(h, FirstFit(h.list, Adjusted(n)), Adjusted(n));
  }

  lemma TakeFreeBytes(h: Heap, i: nat, req: nat)
    requires Inv(h) && i < |h.list| && Size(h.list[i]) >= req
    ensures var c := Split(Take(h, i), h.list[i], req);
            FreeBytes(c.heap.tree, 0) == FreeBytes(h.tree, 0) - Size(c.block)
  {
    TakeKeeps(h, i);
    InHandBytes(h, i);
    SplitFreeBytes(Take(h, i), h.list[i], req);
  }

  lemma InHandBytes(h: Heap, i: nat)
    requires Inv(h) && i < |h.list|
    ensures FreeBytes(Take(h, i).tree, 0) == FreeBytes(h.tree, 0) - Size(h.list[i])
  {
    assert FreeLeaf(h.tree, h.list[i]);
    PutFreeBytes(h.tree, h.list[i], Leaf(false), 0);
  }

  lemma MergeFreeBytes(h: Heap, p: Path)
    requires Inv(h) && p != [] && LiveLeaf(h.tree, p) && FreeLeaf(h.tree, Sibling(p))
    ensures FreeBytes(Merge(h, p).tree, 0) == FreeBytes(h.tree, 0) - Size(p)
    ensures Size(Parent(p)) == 2 * Size(p)
  {
    var r := Parent(p);
    SiblingExists(h.tree, p);
    LeafDepth(h.tree, p);
    PutFreeBytes(h.tree, r, Leaf(false), 0);
    SizeIsPow2(|r|);
    var pair := Sub(h.tree, r).value;
    assert FreeBytes(pair.left, |p|) + FreeBytes(pair.right, |p|) == Size(p);
  }

  lemma {:induction false} ReleaseFreeBytes(h: Heap, p: Path)
    requires Inv(h) && LiveLeaf(h.tree, p)
    ensures FreeBytes(Release(h, p).heap.tree, 0) == FreeBytes(h.tree, 0) + Size(p)
    decreases |p|
  {
    if p == [] {
      assert h.tree == Leaf(false);
    } else if FreeLeaf(h.tree, Sibling(p)) {
      MergeKeeps(h, p);
      MergeFreeBytes(h, p);
      ReleaseFreeBytes(Merge(h, p), Parent(p));
    } else {
      PutFreeBytes(h.tree, p, Leaf(true), 0);
    }
  }

  /** What one free adds to the counter beyond the size of the block freed. */
  function Surplus(m: Manager, op: Op): int {
    if op.FreeOp? then Size(Release(m.heap, op.p).block) - Size(op.p) else 0
  }

  function Drift(m: Manager, ops: seq<Op>): int
    decreases |ops|
  {
    if ops == [] then 0 else Surplus(m, ops[0]) + Drift(Step(m, ops[0]), ops[1..])
  }

  lemma ModAdd(a: int, b: int)
    ensures (a % WORD + b) % WORD == (a + b) % WORD
  {
    var q := a / WORD;
    assert a % WORD + b == (a + b) - q * WORD;
    ModShift(a + b, q);
  }

  lemma ModShift(a: int, q: int)
    ensures (a - q * WORD) % WORD == a % WORD
  {
  }

  lemma CounterMod(a: int, b: nat)
    ensures Debit(a % WORD, b) == (a - b) % WORD
    ensures Credit(a % WORD, b) == (a + b) % WORD
  {
    ModAdd(a, b);
    var c: int := b;
    ModAdd(a, -c);
  }

  lemma AllocCounterStep(m: Manager, n: nat, d: int)
    requires Inv(m.heap) && m.freeBytes == (FreeBytes(m.heap.tree, 0) + d) % WORD
    ensures var m' := Step(m, AllocOp(n)); m'.freeBytes == (FreeBytes(m'.heap.tree, 0) + d) % WORD
  {
    if Alloc(m.heap, n).Granted? {
      var q := Alloc(m.heap, n).block;
      AllocFreeBytes(m.heap, n);
      CounterMod(FreeBytes(m.heap.tree, 0) + d, Size(q));
    }
  }

  lemma FreeCounterStep(m: Manager, p: Path, d: int)
    requires Inv(m.heap) && LiveLeaf(m.heap.tree, p)
    requires m.freeBytes == (FreeBytes(m.heap.tree, 0) + d) % WORD
    ensures var m' := Step(m, FreeOp(p));
            m'.freeBytes == (FreeBytes(m'.heap.tree, 0) + d + Surplus(m, FreeOp(p))) % WORD
  {
    var r := Release(m.heap, p);
    var before, credited := FreeBytes(m.heap.tree, 0), Size(r.block);
    ReleaseFreeBytes(m.heap, p);
    CounterMod(before + d, credited);
    assert Step(m, FreeOp(p)) == Manager(r.heap, Credit(m.freeBytes, credited));
    assert FreeBytes(r.heap.tree, 0) + d + Surplus(m, FreeOp(p)) == before + d + credited;
  }

  lemma CounterStep(m: Manager, op: Op, d: int)
    requires Inv(m.heap) && LegalStep(m, op)
    requires m.freeBytes == (FreeBytes(m.heap.tree, 0) + d) % WORD
    ensures var m' := Step(m, op);
            Inv(m'.heap) && m'.freeBytes == (FreeBytes(m'.heap.tree, 0) + d + Surplus(m, op)) % WORD
  {
    StepKeeps(m, op);
    match op {
      case AllocOp(n) => AllocCounterStep(m, n, d);
      case FreeOp(p) => FreeCounterStep(m, p, d);
    }
  }

  lemma {:induction false} CounterAlongRun(m: Manager, ops: seq<Op>, d: int)
    requires Inv(m.heap) && Legal(m, ops)
    requires m.freeBytes == (FreeBytes(m.heap.tree, 0) + d) % WORD
    ensures Run(m, ops).freeBytes == (FreeBytes(Run(m, ops).heap.tree, 0) + d + Drift(m, ops)) % WORD
    decreases |ops|
  {
    if ops == [] {
    } else {
      var next, e := Step(m, ops[0]), d + Surplus(m, ops[0]);
      CounterStep(m, ops[0], d);
      assert FreeBytes(next.heap.tree, 0) + e == FreeBytes(next.heap.tree, 0) + d + Surplus(m, ops[0]);
      CounterAlongRun(next, ops[1..], e);
      assert e + Drift(next, ops[1..]) == d + Drift(m, ops);
    }
  }

  /** On every run the counter is the sum of the free sizes plus, modulo 2^32, the sum over
      frees of merged size minus freed size. */
  lemma CounterDriftsByMergedSurplus(ops: seq<Op>)
    requires Legal(INITIAL, ops)
    ensures var m := Run(INITIAL, ops);
            m.freeBytes == (FreeBytes(m.heap.tree, 0) + Drift(INITIAL, ops)) % WORD
  {
    InitInv();
    CounterAlongRun(INITIAL, ops, 0);
  }

  lemma {:induction false} FreeBytesBound(t: Tree, d: nat)
    requires d + Height(t) <= MAX_DEPTH
    ensures FreeBytes(t, d) <= SizeAt(d)
  {
    if t.Node? {
      FreeBytesBound(t.left, d + 1);
      FreeBytesBound(t.right, d + 1);
      SizeIsPow2(d);
    }
  }

  lemma {:induction false} ReleaseBlockSize(h: Heap, p: Path)
    requires |p| <= MAX_DEPTH
    ensures Size(p) <= Size(Release(h, p).block) <= TOTAL_HEAP_SIZE
    ensures Size(p) < Size(Release(h, p).block) <==> p != [] && FreeLeaf(h.tree, Sibling(p))
    decreases |p|
  {
    SizeAntitone(0, |p|);
    if p != [] && FreeLeaf(h.tree, Sibling(p)) {
      ReleaseBlockSize(Merge(h, p), Parent(p));
      SizeAntitone(|p| - 1, |p|);
    }
  }

  /** One free leaves an exact counter exact if and only if it merges nothing. */
  lemma FreeKeepsCounterExactly(m: Manager, p: Path)
    requires Inv(m.heap) && LiveLeaf(m.heap.tree, p)
    requires m.freeBytes == FreeBytes(m.heap.tree, 0)
    ensures var m' := Step(m, FreeOp(p));
            m'.freeBytes == FreeBytes(m'.heap.tree, 0) <==> p == [] || !FreeLeaf(m.heap.tree, Sibling(p))
  {
    LeafDepth(m.heap.tree, p);
    ReleaseBlockSize(m.heap, p);
    ReleaseFreeBytes(m.heap, p);
    FreeBytesBound(m.heap.tree, 0);
    CreditInRange(m.freeBytes, Size(Release(m.heap, p).block));
  }

  lemma CreditInRange(a: nat, b: nat)
    requires a + b < WORD
    ensures Credit(a, b) == a + b
  {
  }

  /** The credit the counter needs: the size of the block that was handed back. */
  function IntendedStep(m: Manager, op: Op): Manager {
    match op
    case AllocOp(_) => Step(m, op)
    case FreeOp(p) => Manager(Release(m.heap, p).heap, Credit(m.freeBytes, Size(p)))
  }

  function IntendedRun(m: Manager, ops: seq<Op>): Manager
    decreases |ops|
  {
    if ops == [] then m else IntendedRun(IntendedStep(m, ops[0]), ops[1..])
  }

  predicate IntendedLegal(m: Manager, ops: seq<Op>)
    decreases |ops|
  {
    ops == [] || (LegalStep(m, ops[0]) && IntendedLegal(IntendedStep(m, ops[0]), ops[1..]))
  }

  lemma IntendedStepExact(m: Manager, op: Op)
    requires Inv(m.heap) && LegalStep(m, op) && m.freeBytes == FreeBytes(m.heap.tree, 0)
    ensures Inv(IntendedStep(m, op).heap)
    ensures IntendedStep(m, op).freeBytes == FreeBytes(IntendedStep(m, op).heap.tree, 0)
  {
    match op {
      case AllocOp(n) => AllocExact(m, n);
      case FreeOp(p) => ReleaseExact(m, p);
    }
  }

  lemma ReleaseExact(m: Manager, p: Path)
    requires Inv(m.heap) && LiveLeaf(m.heap.tree, p) && m.freeBytes == FreeBytes(m.heap.tree, 0)
    ensures var g := Release(m.heap, p).heap; Inv(g) && Credit(m.freeBytes, Size(p)) == FreeBytes(g.tree, 0)
  {
    ReleaseKeeps(m.heap, p);
    ReleaseFreeBytes(m.heap, p);
    CounterInRange(Release(m.heap, p).heap);
  }

  lemma AllocExact(m: Manager, n: nat)
    requires Inv(m.heap) && m.freeBytes == FreeBytes(m.heap.tree, 0)
    ensures Inv(Step(m, AllocOp(n)).heap)
    ensures Step(m, AllocOp(n)).freeBytes == FreeBytes(Step(m, AllocOp(n)).heap.tree, 0)
  {
    if Alloc(m.heap, n).Granted? {
      AllocKeeps(m.heap, n);
      AllocFreeBytes(m.heap, n);
      CounterInRange(Alloc(m.heap, n).heap);
    }
  }

  lemma CounterInRange(h: Heap)
    requires Inv(h)
    ensures FreeBytes(h.tree, 0) % WORD == FreeBytes(h.tree, 0)
  {
    FreeBytesBound(h.tree, 0);
  }

  /** With that credit the counter equals the sum of the free sizes on every run. */
  lemma {:induction false} IntendedCounterIsExact(m: Manager, ops: seq<Op>)
    requires Inv(m.heap) && IntendedLegal(m, ops) && m.freeBytes == FreeBytes(m.heap.tree, 0)
    ensures IntendedRun(m, ops).freeBytes == FreeBytes(IntendedRun(m, ops).heap.tree, 0)
    decreases |ops|
  {
    if ops == [] {
    } else {
      IntendedStepExact(m, ops[0]);
      IntendedCounterIsExact(IntendedStep(m, ops[0]), ops[1..]);
    }
  }
}
