// What the buddy allocator computes, on values: the block tree plus the order of the free list
// (Kernel/utils/MemManBuddy.c:61-177).  BuddyHeap.dfy ties the in-place code to these functions.
module BuddySpec {
  import opened Options
  import opened BuddyTree

  const STRUCT_SIZE: nat := 24 // sizeof(MemoryBlock), already a multiple of 8
  const WORD: nat := 0x1_0000_0000 // size_t is a 32-bit unsigned int

  datatype Heap = Heap(tree: Tree, list: seq<Path>)

  const EMPTY_HEAP: Heap := Heap(Leaf(true), [[]])

  // ---------------------------------------------------------------- free list

  /** Where a block of depth `d` goes: before the first listed block that is not smaller. */
  function InsertPos(l: seq<Path>, d: nat): (k: nat)
    ensures k <= |l|
    ensures forall i | 0 <= i < k :: |l[i]| > d
    ensures k < |l| ==> |l[k]| <= d
  {
    if l == [] || |l[0]| <= d then 0 else 1 + InsertPos(l[1..], d)
  }

  function Insert(l: seq<Path>, p: Path): seq<Path> {
    var k := InsertPos(l, |p|);
    l[..k] + [p] + l[k..]
  }

  function IndexOf(l: seq<Path>, p: Path): (k: nat)
    ensures k <= |l|
    ensures forall i | 0 <= i < k :: l[i] != p
    ensures k < |l| ==> l[k] == p
    ensures k < |l| <==> p in l
  {
    if l == [] || l[0] == p then 0 else 1 + IndexOf(l[1..], p)
  }

  function DropAt(l: seq<Path>, i: nat): seq<Path>
    requires i < |l|
  {
    l[..i] + l[i + 1..]
  }

  function Remove(l: seq<Path>, p: Path): seq<Path> {
    var k := IndexOf(l, p);
    if k < |l| then DropAt(l, k) else l
  }

  /** Smaller blocks first. */
  predicate Sorted(l: seq<Path>) {
    forall i, j | 0 <= i < j < |l| :: |l[i]| >= |l[j]|
  }

  predicate Distinct(l: seq<Path>) {
    forall i, j | 0 <= i < j < |l| :: l[i] != l[j]
  }

  /** First listed block large enough for `req` bytes. */
  function FirstFit(l: seq<Path>, req: nat): (k: nat)
    ensures k <= |l|
    ensures forall i | 0 <= i < k :: Size(l[i]) < req
    ensures k < |l| ==> Size(l[k]) >= req
  {
    if l == [] || Size(l[0]) >= req then 0 else 1 + FirstFit(l[1..], req)
  }

  lemma InsertKeeps(l: seq<Path>, p: Path)
    requires Sorted(l) && Distinct(l) && p !in l
    ensures Sorted(Insert(l, p)) && Distinct(Insert(l, p))
    ensures forall q :: q in Insert(l, p) <==> q in l || q == p
  {
    InsertMembers(l, p);
    InsertKeepsOrder(l, p);
    InsertKeepsDistinct(l, p);
  }

  lemma InsertKeepsOrder(l: seq<Path>, p: Path)
    requires Sorted(l)
    ensures Sorted(Insert(l, p))
  {
    InsertedAt(l, p);
  }

  lemma InsertKeepsDistinct(l: seq<Path>, p: Path)
    requires Distinct(l) && p !in l
    ensures Distinct(Insert(l, p))
  {
    InsertedAt(l, p);
  }

  lemma InsertMembers(l: seq<Path>, p: Path)
    ensures forall q :: q in Insert(l, p) <==> q in l || q == p
  {
    var k := InsertPos(l, |p|);
    assert l == l[..k] + l[k..];
  }

  lemma InsertedAt(l: seq<Path>, p: Path)
    ensures var k, m := InsertPos(l, |p|), Insert(l, p);
            |m| == |l| + 1 && forall i | 0 <= i < |m| :: m[i] == if i < k then l[i] else if i == k then p else l[i - 1]
  {
    var k, m := InsertPos(l, |p|), Insert(l, p);
    forall i | 0 <= i < |m|
      ensures m[i] == if i < k then l[i] else if i == k then p else l[i - 1]
    {
      if i > k { assert m[i] == l[k..][i - k - 1]; }
    }
  }

  lemma DropKeeps(l: seq<Path>, i: nat)
    requires Sorted(l) && Distinct(l) && i < |l|
    ensures Sorted(DropAt(l, i)) && Distinct(DropAt(l, i))
    ensures forall q :: q in DropAt(l, i) <==> q in l && q != l[i]
  {
    assert l == l[..i] + [l[i]] + l[i + 1..];
  }

  lemma InsertPosUnique(l: seq<Path>, d: nat, k: nat)
    requires k <= |l| && (forall i | 0 <= i < k :: |l[i]| > d) && (k < |l| ==> |l[k]| <= d)
    ensures InsertPos(l, d) == k
  {
    var m := InsertPos(l, d);
  }

  lemma RemoveInsert(l: seq<Path>, p: Path)
    requires p !in l
    ensures Remove(Insert(l, p), p) == l
  {
    var k, m := InsertPos(l, |p|), Insert(l, p);
    InsertedAt(l, p);
    assert m[k] == p;
    assert IndexOf(m, p) == k by {
      assert forall i | 0 <= i < k :: m[i] == l[i];
    }
    DropInserted(l, p, k);
  }

  lemma DropInserted(l: seq<Path>, p: Path, k: nat)
    requires k <= |l|
    ensures DropAt(l[..k] + [p] + l[k..], k) == l
  {
  }

  // ---------------------------------------------------------------- invariant

  /** Holds between any two steps of any call, with the block in hand counted as live. */
  ghost predicate Inv(h: Heap) {
    && Height(h.tree) <= MAX_DEPTH
    && Coalesced(h.tree)
    && Sorted(h.list)
    && Distinct(h.list)
    && (forall p :: p in h.list <==> FreeLeaf(h.tree, p))
  }

  /** What replacing one subtree does to every path. */
  lemma PutAt(t: Tree, p: Path, u: Tree, q: Path)
    requires Sub(t, p).Some?
    ensures Incomparable(p, q) ==> Sub(Put(t, p, u), q) == Sub(t, q)
    ensures p <= q ==> Sub(Put(t, p, u), q) == Sub(u, q[|p|..])
    ensures p <= q ==> Sub(t, q) == Sub(Sub(t, p).value, q[|p|..])
    ensures q <= p && q != p ==> !IsLeaf(Put(t, p, u), q) && !IsLeaf(t, q)
  {
    if p <= q {
      assert q == p + q[|p|..];
      SubPutBelow(t, p, u, q[|p|..]);
      SubAppend(t, p, q[|p|..]);
    } else if q <= p {
      SubPutAbove(t, p, u, q);
    } else {
      SubPutAside(t, p, u, q);
    }
  }

  // ---------------------------------------------------------------- one merge, one split

  /** Fold a returned block and its free sibling into their parent, still in hand. */
  function Merge(h: Heap, p: Path): Heap
    requires p != []
  {
    Heap(Put(h.tree, Parent(p), Leaf(false)), Remove(h.list, Sibling(p)))
  }

  /** Halve the block in hand: keep the lower half, list the upper one. */
  function Halve(h: Heap, p: Path): Heap {
    Heap(Put(h.tree, p, Node(Leaf(false), Leaf(true))), Insert(h.list, p + [true]))
  }

  lemma MergeKeeps(h: Heap, p: Path)
    requires Inv(h) && p != [] && LiveLeaf(h.tree, p) && FreeLeaf(h.tree, Sibling(p))
    ensures Inv(Merge(h, p)) && LiveLeaf(Merge(h, p).tree, Parent(p))
    ensures forall q :: FreeLeaf(Merge(h, p).tree, q) <==> FreeLeaf(h.tree, q) && q != Sibling(p)
    ensures forall q :: LiveLeaf(Merge(h, p).tree, q) <==> (LiveLeaf(h.tree, q) && q != p) || q == Parent(p)
  {
    var s, r := Sibling(p), Parent(p);
    SiblingExists(h.tree, p);
    SiblingFacts(p);
    SubPut(h.tree, r, Leaf(false));
    forall q
      ensures FreeLeaf(Merge(h, p).tree, q) <==> FreeLeaf(h.tree, q) && q != s
      ensures LiveLeaf(Merge(h, p).tree, q) <==> (LiveLeaf(h.tree, q) && q != p) || q == r
    {
      PutAt(h.tree, r, Leaf(false), q);
      if r <= q {
        PairLeaves(h.tree, p, q);
      }
    }
    PutCoalesced(h.tree, r, Leaf(false));
    LeafDepth(h.tree, p);
    PutHeight(h.tree, r, Leaf(false), MAX_DEPTH);
    DropKeeps(h.list, IndexOf(h.list, s));
  }

  lemma PairLeaves(t: Tree, p: Path, q: Path)
    requires p != [] && IsLeaf(t, p) && IsLeaf(t, Sibling(p)) && Parent(p) <= q
    ensures IsLeaf(t, q) <==> q == p || q == Sibling(p)
  {
    SiblingExists(t, p);
    SiblingFacts(p);
    var r := Parent(p);
    assert q == r + q[|r|..];
    SubAppend(t, r, q[|r|..]);
    if q != r {
      var b := q[|r|];
      if b == Last(p) {
        assert p <= q;
        if p != q && IsLeaf(t, q) { LeavesIncomparable(t, p, q); }
      } else {
        assert Sibling(p) <= q;
        if Sibling(p) != q && IsLeaf(t, q) { LeavesIncomparable(t, Sibling(p), q); }
      }
    }
  }

  lemma HalveKeeps(h: Heap, p: Path)
    requires Inv(h) && LiveLeaf(h.tree, p) && |p| < MAX_DEPTH
    ensures Inv(Halve(h, p))
    ensures LiveLeaf(Halve(h, p).tree, p + [false]) && FreeLeaf(Halve(h, p).tree, p + [true])
    ensures p + [true] !in h.list
    ensures forall q :: FreeLeaf(Halve(h, p).tree, q) <==> FreeLeaf(h.tree, q) || q == p + [true]
    ensures forall q :: LiveLeaf(Halve(h, p).tree, q) <==> (LiveLeaf(h.tree, q) && q != p) || q == p + [false]
  {
    var u := Node(Leaf(false), Leaf(true));
    var t := Put(h.tree, p, u);
    forall q
      ensures FreeLeaf(t, q) <==> FreeLeaf(h.tree, q) || q == p + [true]
      ensures LiveLeaf(t, q) <==> (LiveLeaf(h.tree, q) && q != p) || q == p + [false]
      ensures q == p + [true] ==> Sub(h.tree, q).None?
    {
      PutAt(h.tree, p, u, q);
      if p <= q {
        UnderFreshPair(p, q);
      }
    }
    PutCoalesced(h.tree, p, u);
    PutHeight(h.tree, p, u, MAX_DEPTH);
    assert FreeLeaf(t, p + [true]) && LiveLeaf(t, p + [false]);
    assert p + [true] !in h.list;
    InsertKeeps(h.list, p + [true]);
  }

  lemma UnderFreshPair(p: Path, q: Path)
    requires p <= q
    ensures Sub(Node(Leaf(false), Leaf(true)), q[|p|..]) == Some(Leaf(true)) <==> q == p + [true]
    ensures Sub(Node(Leaf(false), Leaf(true)), q[|p|..]) == Some(Leaf(false)) <==> q == p + [false]
    ensures Sub(Leaf(false), q[|p|..]) == Some(Leaf(false)) <==> q == p
    ensures Sub(Leaf(false), q[|p|..]) != Some(Leaf(true))
    ensures q == p + [true] || q == p + [false] ==> Sub(Leaf(false), q[|p|..]).None?
  {
    var d := q[|p|..];
    assert q == p + d;
    if d != [] {
      assert d == [d[0]] + d[1..];
      if d[1..] == [] {
        assert d == [d[0]];
      }
    }
  }

  // ---------------------------------------------------------------- freeMem

  datatype Released = Released(heap: Heap, block: Path)

  /** Return the live block `p`: merge while the sibling is free, then list the result. */
  function Release(h: Heap, p: Path): Released
    decreases |p|
  {
    if p == [] then Released(EMPTY_HEAP, [])
    else if FreeLeaf(h.tree, Sibling(p)) then Release(Merge(h, p), Parent(p))
    else Released(Heap(Put(h.tree, p, Leaf(true)), Insert(h.list, p)), p)
  }

  lemma {:induction false} ReleaseKeeps(h: Heap, p: Path)
    requires Inv(h) && LiveLeaf(h.tree, p)
    ensures Inv(Release(h, p).heap)
    ensures forall q :: LiveLeaf(Release(h, p).heap.tree, q) <==> LiveLeaf(h.tree, q) && q != p
    ensures Release(h, p).block <= p && FreeLeaf(Release(h, p).heap.tree, Release(h, p).block)
    decreases |p|
  {
    if p == [] {
      assert h.tree == Leaf(false);
    } else if FreeLeaf(h.tree, Sibling(p)) {
      MergeKeeps(h, p);
      ParentNotLive(h.tree, p);
      ReleaseKeeps(Merge(h, p), Parent(p));
    } else {
      var t := Put(h.tree, p, Leaf(true));
      SubPut(h.tree, p, Leaf(true));
      forall q
        ensures FreeLeaf(t, q) <==> FreeLeaf(h.tree, q) || q == p
        ensures LiveLeaf(t, q) <==> LiveLeaf(h.tree, q) && q != p
      {
        PutAt(h.tree, p, Leaf(true), q);
        if p <= q && q != p {
          assert q[|p|..] != [];
        }
      }
      PutCoalesced(h.tree, p, Leaf(true));
      PutHeight(h.tree, p, Leaf(true), MAX_DEPTH) by { LeafDepth(h.tree, p); }
      InsertKeeps(h.list, p);
    }
  }

  lemma ParentNotLive(t: Tree, p: Path)
    requires p != [] && Sub(t, p).Some?
    ensures !IsLeaf(t, Parent(p))
  {
    SiblingExists(t, p);
  }

  // ---------------------------------------------------------------- allocMem

  predicate Splits(d: nat, req: nat) {
    SizeAt(d) / 2 >= MINIMUM_BLOCK_SIZE && SizeAt(d) / 2 >= req
  }

  datatype Carved = Carved(heap: Heap, block: Path)

  /** Keep halving the block in hand while the lower half is still big enough. */
  function Split(h: Heap, p: Path, req: nat): Carved
    decreases MAX_DEPTH - |p|
  {
    if |p| < MAX_DEPTH && Splits(|p|, req) then Split(Halve(h, p), p + [false], req) else Carved(h, p)
  }

  /** Unlist the `i`-th free block and take it in hand. */
  function Take(h: Heap, i: nat): Heap
    requires i < |h.list|
  {
    Heap(Put(h.tree, h.list[i], Leaf(false)), DropAt(h.list, i))
  }

  /** Header added and rounded up to 8 bytes, in 32-bit arithmetic. */
  function Adjusted(n: nat): (r: nat)
    ensures r < WORD
  {
    var a := (n + STRUCT_SIZE) % WORD;
    if a % 8 != 0 then (a + (8 - a % 8)) % WORD else a
  }

  datatype AllocResult = Refused | Granted(heap: Heap, block: Path)

  function Alloc(h: Heap, n: nat): AllocResult {
    var req := Adjusted(n);
    if n == 0 || req > TOTAL_HEAP_SIZE then Refused
    else
      var i := FirstFit(h.list, req);
      if i == |h.list| then Refused
      else
        var c := Split(Take(h, i), h.list[i], req);
        Granted(c.heap, c.block)
  }

  lemma SplitsOnlyAboveMinimum(d: nat, req: nat)
    requires d <= MAX_DEPTH && Splits(d, req)
    ensures d < MAX_DEPTH
  {
    if d == MAX_DEPTH {
      SizeIsPow2(MAX_DEPTH);
      Pow2Of27();
    }
  }

  lemma TakeKeeps(h: Heap, i: nat)
    requires Inv(h) && i < |h.list|
    ensures Inv(Take(h, i)) && LiveLeaf(Take(h, i).tree, h.list[i])
    ensures forall q :: LiveLeaf(Take(h, i).tree, q) <==> LiveLeaf(h.tree, q) || q == h.list[i]
  {
    var p := h.list[i];
    assert FreeLeaf(h.tree, p);
    var t := Put(h.tree, p, Leaf(false));
    SubPut(h.tree, p, Leaf(false));
    forall q
      ensures FreeLeaf(t, q) <==> FreeLeaf(h.tree, q) && q != p
      ensures LiveLeaf(t, q) <==> LiveLeaf(h.tree, q) || q == p
    {
      PutAt(h.tree, p, Leaf(false), q);
      if p <= q && q != p {
        assert q[|p|..] != [];
      }
    }
    LeafDepth(h.tree, p);
    PutHeight(h.tree, p, Leaf(false), MAX_DEPTH);
    PutCoalesced(h.tree, p, Leaf(false));
    DropKeeps(h.list, i);
  }

  lemma {:induction false} SplitKeeps(h: Heap, p: Path, req: nat)
    requires Inv(h) && LiveLeaf(h.tree, p) && Size(p) >= req
    ensures var c := Split(h, p, req);
            && Inv(c.heap) && LiveLeaf(c.heap.tree, c.block) && p <= c.block && |c.block| <= MAX_DEPTH
            && Size(c.block) >= req && !Splits(|c.block|, req)
            && (forall q :: LiveLeaf(c.heap.tree, q) <==> (LiveLeaf(h.tree, q) && q != p) || q == c.block)
    decreases MAX_DEPTH - |p|
  {
    LeafDepth(h.tree, p);
    if |p| < MAX_DEPTH && Splits(|p|, req) {
      HalveKeeps(h, p);
      SubAppend(h.tree, p, [false]);
      SplitKeeps(Halve(h, p), p + [false], req);
    } else if |p| == MAX_DEPTH && Splits(|p|, req) {
      SplitsOnlyAboveMinimum(|p|, req);
    }
  }

  // ---------------------------------------------------------------- theorems on single calls

  /** allocMem keeps the invariant and turns exactly one new block live. */
  lemma AllocKeeps(h: Heap, n: nat)
    requires Inv(h)
    ensures var r := Alloc(h, n);
            r.Granted? ==>
              && Inv(r.heap) && !LiveLeaf(h.tree, r.block)
              && (forall q :: LiveLeaf(r.heap.tree, q) <==> LiveLeaf(h.tree, q) || q == r.block)
  {
    var req := Adjusted(n);
    var i := FirstFit(h.list, req);
    if Alloc(h, n).Granted? {
      assert FreeLeaf(h.tree, h.list[i]);
      TakeKeeps(h, i);
      SplitKeeps(Take(h, i), h.list[i], req);
      var q := Alloc(h, n).block;
      if LiveLeaf(h.tree, q) && q != h.list[i] {
        LeavesIncomparable(h.tree, q, h.list[i]);
      }
    }
  }
}
