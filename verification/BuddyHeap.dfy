// The buddy allocator as it works on memory: block headers updated in place and a singly
// linked free list between two sentinels (Kernel/utils/MemManBuddy.c).
module BuddyHeap {
  import opened Options
  import opened BuddyTree
  import opened BuddySpec
  import opened BuddyTheorems

  /** A MemoryBlock pointer: NULL, one of the manager's sentinels, or an offset into the heap. */
  datatype Ptr = Null | Start | End | At(off: int)

  datatype Header = Header(free: bool, history: nat, blockSize: nat, next: Ptr)

  type Memory = map<Ptr, Header>

  // ---------------------------------------------------------------- list segments

  /** Following `next` from `from` visits the blocks of `l` in order and then `to`. */
  ghost predicate Seg(mem: Memory, from: Ptr, l: seq<Path>, to: Ptr)
    decreases |l|
  {
    && from in mem
    && if l == [] then mem[from].next == to
       else mem[from].next == At(Off(l[0])) && Seg(mem, At(Off(l[0])), l[1..], to)
  }

  /** The node after which position `k` of the list starts. */
  function NodeBefore(from: Ptr, l: seq<Path>, k: nat): Ptr
    requires k <= |l|
  {
    if k == 0 then from else At(Off(l[k - 1]))
  }

  ghost predicate OffsetsDistinct(l: seq<Path>) {
    forall i, j | 0 <= i < j < |l| :: Off(l[i]) != Off(l[j])
  }

  /** Nothing but `next` fields may differ. */
  ghost predicate SameInfo(m: Memory, m': Memory) {
    forall a | a in m :: a in m' && m'[a] == m[a].(next := m'[a].next)
  }

  lemma {:induction false} SegFrame(m: Memory, m': Memory, from: Ptr, l: seq<Path>, to: Ptr)
    requires Seg(m, from, l, to)
    requires from in m' && m'[from].next == m[from].next
    requires forall i | 0 <= i < |l| :: At(Off(l[i])) in m && At(Off(l[i])) in m' && m'[At(Off(l[i]))].next == m[At(Off(l[i]))].next
    ensures Seg(m', from, l, to)
    decreases |l|
  {
    if l == [] {
    } else {
      forall i | 0 <= i < |l[1..]|
        ensures At(Off(l[1..][i])) in m && At(Off(l[1..][i])) in m' && m'[At(Off(l[1..][i]))].next == m[At(Off(l[1..][i]))].next
      {
        assert l[1..][i] == l[i + 1];
      }
      assert At(Off(l[0])) in m';
      SegFrame(m, m', At(Off(l[0])), l[1..], to);
    }
  }

  lemma {:induction false} SegNodes(m: Memory, from: Ptr, l: seq<Path>, to: Ptr)
    requires Seg(m, from, l, to)
    ensures forall i | 0 <= i < |l| :: At(Off(l[i])) in m
    decreases |l|
  {
    if l == [] {
    } else {
      SegNodes(m, At(Off(l[0])), l[1..], to);
      forall i | 0 <= i < |l|
        ensures At(Off(l[i])) in m
      {
        if i > 0 { assert l[i] == l[1..][i - 1]; }
      }
    }
  }

  /** The links of a list's own nodes decide it, wherever it is entered from. */
  lemma SegEntered(m: Memory, m': Memory, from: Ptr, from': Ptr, l: seq<Path>, to: Ptr)
    requires Seg(m, from, l, to) && from in m && from' in m' && m'[from'].next == m[from].next
    requires forall i | 0 <= i < |l| :: At(Off(l[i])) in m && At(Off(l[i])) in m' && m'[At(Off(l[i]))].next == m[At(Off(l[i]))].next
    ensures Seg(m', from', l, to)
  {
    if l == [] {
    } else {
      forall i | 0 <= i < |l[1..]|
        ensures At(Off(l[1..][i])) in m && At(Off(l[1..][i])) in m' && m'[At(Off(l[1..][i]))].next == m[At(Off(l[1..][i]))].next
      {
        assert l[1..][i] == l[i + 1];
      }
      SegFrame(m, m', At(Off(l[0])), l[1..], to);
    }
  }

  lemma SegPushed(m: Memory, m': Memory, from: Ptr, l: seq<Path>, p: Path, to: Ptr)
    requires Seg(m, from, l, to) && from in m && from in m' && m'[from].next == At(Off(p))
    requires forall i | 0 <= i < |l| :: Off(l[i]) != Off(p) && from != At(Off(l[i]))
    requires At(Off(p)) in m' && m'[At(Off(p))].next == m[from].next
    requires forall a | a in m && a != from && a != At(Off(p)) :: a in m' && m'[a].next == m[a].next
    ensures Seg(m', from, [p] + l, to)
  {
    SegNodes(m, from, l, to);
    assert ([p] + l)[1..] == l;
    SegEntered(m, m', from, At(Off(p)), l, to);
  }

  /** Linking a fresh node `b` after the `k`-th node. */
  lemma {:induction false} SegInsert(m: Memory, m': Memory, from: Ptr, l: seq<Path>, k: nat, p: Path, to: Ptr)
    requires Seg(m, from, l, to) && k <= |l| && OffsetsDistinct(l)
    requires forall i | 0 <= i < |l| :: Off(l[i]) != Off(p) && from != At(Off(l[i]))
    requires from != At(Off(p))
    requires var it := NodeBefore(from, l, k);
             && it in m && it in m' && m'[it].next == At(Off(p))
             && At(Off(p)) in m' && m'[At(Off(p))].next == m[it].next
             && forall a | a in m && a != it && a != At(Off(p)) :: a in m' && m'[a].next == m[a].next
    ensures Seg(m', from, l[..k] + [p] + l[k..], to)
    decreases |l|
  {
    if k == 0 {
      assert l[..0] + [p] + l[0..] == [p] + l;
      SegPushed(m, m', from, l, p, to);
    } else {
      var f := At(Off(l[0]));
      var t := l[1..];
      assert NodeBefore(f, t, k - 1) == NodeBefore(from, l, k);
      forall i | 0 <= i < |t|
        ensures Off(t[i]) != Off(p) && f != At(Off(t[i]))
      {
        assert t[i] == l[i + 1];
      }
      assert OffsetsDistinct(t);
      SegInsert(m, m', f, t, k - 1, p, to);
      assert (l[..k] + [p] + l[k..])[1..] == t[..k - 1] + [p] + t[k - 1..];
    }
  }

  /** Unlinking the node at position `k`. */
  lemma {:induction false} SegRemove(m: Memory, m': Memory, from: Ptr, l: seq<Path>, k: nat, to: Ptr)
    requires Seg(m, from, l, to) && k < |l| && OffsetsDistinct(l)
    requires forall i | 0 <= i < |l| :: from != At(Off(l[i]))
    requires var it := NodeBefore(from, l, k);
             && it in m && it in m' && At(Off(l[k])) in m && m'[it].next == m[At(Off(l[k]))].next
             && forall a | a in m && a != it :: a in m' && m'[a].next == m[a].next
    ensures Seg(m', from, DropAt(l, k), to)
    decreases |l|
  {
    SegNodes(m, from, l, to);
    var f := At(Off(l[0]));
    var t := l[1..];
    forall i | 0 <= i < |t|
      ensures f != At(Off(t[i]))
    {
      assert t[i] == l[i + 1];
    }
    if k == 0 {
      assert DropAt(l, 0) == t;
      forall i | 0 <= i < |t|
        ensures At(Off(t[i])) in m && At(Off(t[i])) in m' && m'[At(Off(t[i]))].next == m[At(Off(t[i]))].next
      {
        assert t[i] == l[i + 1];
      }
      SegEntered(m, m', f, from, t, to);
    } else {
      assert NodeBefore(f, t, k - 1) == NodeBefore(from, l, k);
      assert t[k - 1] == l[k];
      assert OffsetsDistinct(t);
      SegRemove(m, m', f, t, k - 1, to);
      assert DropAt(l, k)[1..] == DropAt(t, k - 1);
    }
  }

  // ---------------------------------------------------------------- headers

  ghost predicate Describes(m: Memory, p: Path) {
    At(Off(p)) in m && m[At(Off(p))].history == Hist(p) && m[At(Off(p))].blockSize == Size(p)
  }

  /** Headers of all blocks are right, except possibly the `free` flags of the blocks in hand. */
  ghost predicate HeadersBut(m: Memory, t: Tree, inHand: set<Path>) {
    && (forall p | FreeLeaf(t, p) :: Describes(m, p) && m[At(Off(p))].free)
    && (forall p | LiveLeaf(t, p) :: Describes(m, p) && (p in inHand || !m[At(Off(p))].free))
  }

  ghost predicate Sentinels(m: Memory) {
    && Start in m && m[Start].blockSize == 0
    && End in m && m[End].blockSize == TOTAL_HEAP_SIZE && m[End].next == Null
  }

  /** The headers and links in memory represent the abstract heap. */
  ghost predicate Represents(m: Memory, h: Heap, inHand: set<Path>) {
    && Inv(h)
    && Sentinels(m)
    && Seg(m, Start, h.list, End)
    && HeadersBut(m, h.tree, inHand)
  }

  lemma ListOffsetsDistinct(h: Heap)
    requires Inv(h)
    ensures OffsetsDistinct(h.list)
  {
    forall i, j | 0 <= i < j < |h.list|
      ensures Off(h.list[i]) != Off(h.list[j])
    {
      assert h.list[i] in h.list && h.list[j] in h.list;
      assert FreeLeaf(h.tree, h.list[i]) && FreeLeaf(h.tree, h.list[j]);
      OffsetsDiffer(h.tree, h.list[i], h.list[j]);
    }
  }

  /** The low history bit says on which side the buddy lies. */
  lemma BuddyAddress(p: Path)
    requires p != [] && |p| <= MAX_DEPTH
    ensures Off(Sibling(p)) != Off(p)
    ensures Hist(p) % 2 == 1 ==> Off(Sibling(p)) == Off(p) - Size(p) == Off(Parent(p))
    ensures Hist(p) % 2 == 0 ==> Off(Sibling(p)) == Off(p) + Size(p) && Off(p) == Off(Parent(p))
  {
    HistoryBit(p);
    SmallestSize(|p|);
    SiblingFacts(p);
    ChildOf(Parent(p), Last(p));
  }

  lemma HistoryBit(p: Path)
    requires p != []
    ensures Hist(p) % 2 == if Last(p) then 1 else 0
  {
    LowBit(Hist(Parent(p)));
  }

  lemma LowBit(h: nat)
    ensures (2 * h) % 2 == 0 && (2 * h + 1) % 2 == 1
  {
  }

  ghost predicate BuddyReadable(m: Memory, t: Tree, p: Path)
    requires p != []
  {
    var s := Sibling(p);
    && At(Off(s)) in m
    && (m[At(Off(s))].free && m[At(Off(s))].blockSize == Size(p) <==> FreeLeaf(t, s))
  }

  /** What the code reads at a buddy's address decides whether the sibling is a free block. */
  lemma BuddyTest(m: Memory, h: Heap, p: Path)
    requires Inv(h) && p != [] && LiveLeaf(h.tree, p) && HeadersBut(m, h.tree, {p})
    ensures BuddyReadable(m, h.tree, p)
  {
    var s := Sibling(p);
    SiblingFacts(p);
    SiblingExists(h.tree, p);
    var u := Sub(h.tree, s).value;
    var q := Leftmost(u, s);
    LeftmostFacts(h.tree, u, s);
    LeafDepth(h.tree, q);
    assert Describes(m, q);
    if q != s {
      SizeAntitone(|s|, |q|);
    }
    assert q != p by {
      if q == p { LeafNotUnderSibling(h.tree, p, u); }
    }
  }

  lemma {:induction false} LeftmostBelow(t: Tree, p: Path)
    ensures p <= Leftmost(t, p)
    decreases t
  {
    if t.Node? {
      LeftmostBelow(t.left, p + [false]);
    }
  }

  lemma LeafNotUnderSibling(t: Tree, p: Path, u: Tree)
    requires p != []
    ensures Leftmost(u, Sibling(p)) != p
  {
    LeftmostBelow(u, Sibling(p));
    SiblingFacts(p);
  }

  // ---------------------------------------------------------------- effect of the updates

  /** `b` is linked after `it` and marked free; nothing else changes. */
  ghost predicate LinkedAfter(m: Memory, m': Memory, it: Ptr, b: Ptr) {
    && it in m && b in m && it != b
    && it in m' && m'[it] == m[it].(next := b)
    && b in m' && m'[b] == m[b].(next := m[it].next, free := true)
    && forall a | a in m && a != it && a != b :: a in m' && m'[a] == m[a]
  }

  lemma LiveUnlisted(h: Heap, p: Path)
    requires Inv(h) && LiveLeaf(h.tree, p)
    ensures forall i | 0 <= i < |h.list| :: Off(h.list[i]) != Off(p)
  {
    forall i | 0 <= i < |h.list|
      ensures Off(h.list[i]) != Off(p)
    {
      assert h.list[i] in h.list;
      assert FreeLeaf(h.tree, h.list[i]);
      OffsetsDiffer(h.tree, h.list[i], p);
    }
  }

  /** Linking the block in hand into the list at its place. */
  lemma ListingRepresents(m: Memory, m': Memory, h: Heap, it: Ptr, p: Path, held: set<Path>)
    requires Represents(m, h, held + {p}) && LiveLeaf(h.tree, p)
    requires LinkedAfter(m, m', it, At(Off(p))) && it == NodeBefore(Start, h.list, InsertPos(h.list, |p|))
    ensures Sentinels(m')
    ensures Seg(m', Start, Insert(h.list, p), End)
    ensures HeadersBut(m', Put(h.tree, p, Leaf(true)), held)
  {
    ListOffsetsDistinct(h);
    LiveUnlisted(h, p);
    SegInsert(m, m', Start, h.list, InsertPos(h.list, |p|), p, End);
    forall q | IsLeaf(Put(h.tree, p, Leaf(true)), q)
      ensures Describes(m', q)
      ensures FreeLeaf(Put(h.tree, p, Leaf(true)), q) ==> m'[At(Off(q))].free
      ensures LiveLeaf(Put(h.tree, p, Leaf(true)), q) && q !in held ==> !m'[At(Off(q))].free
    {
      ListedHeader(m, m', h, it, p, q, held);
    }
  }

  lemma ListedHeader(m: Memory, m': Memory, h: Heap, it: Ptr, p: Path, q: Path, held: set<Path>)
    requires Inv(h) && HeadersBut(m, h.tree, held + {p}) && LiveLeaf(h.tree, p)
    requires LinkedAfter(m, m', it, At(Off(p)))
    requires IsLeaf(Put(h.tree, p, Leaf(true)), q)
    ensures Describes(m', q)
    ensures FreeLeaf(Put(h.tree, p, Leaf(true)), q) ==> m'[At(Off(q))].free
    ensures LiveLeaf(Put(h.tree, p, Leaf(true)), q) && q !in held ==> !m'[At(Off(q))].free
  {
    PutAt(h.tree, p, Leaf(true), q);
    assert Describes(m, p);
    if q == p {
      SubPut(h.tree, p, Leaf(true));
    } else {
      assert Incomparable(p, q);
      assert IsLeaf(h.tree, q) && (FreeLeaf(h.tree, q) || LiveLeaf(h.tree, q));
      OffsetsDiffer(h.tree, p, q);
      assert Describes(m, q);
    }
  }

  /** The lower half's header once widened over its upper half. */
  function Widened(m: Memory, low: Ptr): Memory
    requires low in m
  {
    m[low := m[low].(blockSize := m[low].blockSize * 2, history := m[low].history / 2)]
  }

  lemma LowerHalf(h: Heap, p: Path)
    requires Inv(h) && LiveLeaf(h.tree, p) && p != [] && FreeLeaf(h.tree, Sibling(p))
    ensures var l := if Last(p) then Sibling(p) else p;
            && Off(l) == Off(Parent(p)) && IsLeaf(h.tree, l)
            && Hist(l) / 2 == Hist(Parent(p)) && Size(l) * 2 == Size(Parent(p))
  {
    var r := Parent(p);
    SiblingFacts(p);
    LeafDepth(h.tree, p);
    SizeIsPow2(|r|);
    ChildOf(r, false);
  }

  /** Unlinking the free sibling and widening the lower half's header. */
  lemma MergeRepresents(m: Memory, m': Memory, h: Heap, p: Path)
    requires Represents(m, h, {p}) && LiveLeaf(h.tree, p) && p != [] && FreeLeaf(h.tree, Sibling(p))
    requires At(Off(Parent(p))) in m
    requires SameInfo(Widened(m, At(Off(Parent(p)))), m')
    requires Sentinels(m') && Seg(m', Start, Remove(h.list, Sibling(p)), End)
    ensures Represents(m', Merge(h, p), {Parent(p)})
  {
    var s, r, g := Sibling(p), Parent(p), Merge(h, p);
    MergeKeeps(h, p);
    LowerHalf(h, p);
    var l := if Last(p) then s else p;
    assert Describes(m, l);
    var m1 := Widened(m, At(Off(r)));
    assert At(Off(r)) in m1;
    assert Describes(m', r);
    forall q | IsLeaf(g.tree, q) && q != r
      ensures Describes(m', q)
      ensures FreeLeaf(g.tree, q) ==> m'[At(Off(q))].free
      ensures LiveLeaf(g.tree, q) ==> !m'[At(Off(q))].free
    {
      OtherHeader(m, m', h, p, q);
    }
  }

  lemma OtherHeader(m: Memory, m': Memory, h: Heap, p: Path, q: Path)
    requires Represents(m, h, {p}) && LiveLeaf(h.tree, p) && p != [] && FreeLeaf(h.tree, Sibling(p))
    requires At(Off(Parent(p))) in m
    requires SameInfo(Widened(m, At(Off(Parent(p)))), m')
    requires IsLeaf(Merge(h, p).tree, q) && q != Parent(p)
    ensures Describes(m', q)
    ensures FreeLeaf(Merge(h, p).tree, q) ==> m'[At(Off(q))].free
    ensures LiveLeaf(Merge(h, p).tree, q) ==> !m'[At(Off(q))].free
  {
    MergeKeeps(h, p);
    LowerHalf(h, p);
    var l := if Last(p) then Sibling(p) else p;
    assert FreeLeaf(Merge(h, p).tree, q) || LiveLeaf(Merge(h, p).tree, q);
    assert q != p && q != Sibling(p) && (FreeLeaf(h.tree, q) || LiveLeaf(h.tree, q));
    OffsetsDiffer(h.tree, q, l);
    assert Describes(m, q);
    var a := At(Off(q));
    assert a in Widened(m, At(Off(Parent(p)))) && Widened(m, At(Off(Parent(p))))[a] == m[a];
  }

  /** Both halves of a split block while they are still in hand. */
  function InHandHalves(h: Heap, p: Path): Heap {
    Heap(Put(h.tree, p, Node(Leaf(false), Leaf(false))), h.list)
  }

  lemma InHandHalvesKeep(h: Heap, p: Path)
    requires Inv(h) && LiveLeaf(h.tree, p) && |p| < MAX_DEPTH
    ensures Inv(InHandHalves(h, p))
    ensures forall q :: FreeLeaf(InHandHalves(h, p).tree, q) <==> FreeLeaf(h.tree, q)
    ensures forall q :: LiveLeaf(InHandHalves(h, p).tree, q) <==>
                          (LiveLeaf(h.tree, q) && q != p) || q == p + [false] || q == p + [true]
    ensures Heap(Put(InHandHalves(h, p).tree, p + [true], Leaf(true)), Insert(h.list, p + [true])) == Halve(h, p)
  {
    var u := Node(Leaf(false), Leaf(false));
    var t := Put(h.tree, p, u);
    forall q
      ensures FreeLeaf(t, q) <==> FreeLeaf(h.tree, q)
      ensures LiveLeaf(t, q) <==> (LiveLeaf(h.tree, q) && q != p) || q == p + [false] || q == p + [true]
    {
      PutAt(h.tree, p, u, q);
      if p <= q {
        UnderLivePair(p, q);
      }
    }
    PutCoalesced(h.tree, p, u);
    PutHeight(h.tree, p, u, MAX_DEPTH);
    PutChild(h.tree, p, Leaf(false), Leaf(false), true, Leaf(true));
  }

  lemma UnderLivePair(p: Path, q: Path)
    requires p <= q
    ensures Sub(Node(Leaf(false), Leaf(false)), q[|p|..]) == Some(Leaf(false)) <==> q == p + [false] || q == p + [true]
    ensures Sub(Node(Leaf(false), Leaf(false)), q[|p|..]) != Some(Leaf(true))
    ensures Sub(Leaf(false), q[|p|..]) == Some(Leaf(false)) <==> q == p
    ensures Sub(Leaf(false), q[|p|..]) != Some(Leaf(true))
  {
    var d := q[|p|..];
    assert q == p + d;
    if d != [] {
      assert d == [d[0]] + d[1..];
      if d[1..] == [] {
        assert d == [d[0]];
      }
    }
  }

  /** The two header writes of one split. */
  ghost predicate SplitHeaders(m: Memory, m': Memory, p: Path) {
    var b, c := At(Off(p)), At(Off(p + [true]));
    && b in m && b != c
    && b in m' && m'[b] == m[b].(blockSize := m[b].blockSize / 2, history := m[b].history * 2)
    && c in m' && m'[c].history == m[b].history * 2 + 1 && m'[c].blockSize == m[b].blockSize / 2 && m'[c].free
    && forall a | a in m && a != b && a != c :: a in m' && m'[a] == m[a]
  }

  lemma SplitRepresents(m: Memory, m': Memory, h: Heap, p: Path)
    requires Represents(m, h, {p}) && LiveLeaf(h.tree, p) && |p| < MAX_DEPTH && SplitHeaders(m, m', p)
    ensures Represents(m', InHandHalves(h, p), {p + [false], p + [true]})
  {
    var g := InHandHalves(h, p);
    InHandHalvesKeep(h, p);
    SegNodes(m, Start, h.list, End);
    forall i | 0 <= i < |h.list|
      ensures At(Off(h.list[i])) in m' && m'[At(Off(h.list[i]))].next == m[At(Off(h.list[i]))].next
    {
      assert h.list[i] in h.list;
      assert FreeLeaf(h.tree, h.list[i]) && FreeLeaf(g.tree, h.list[i]);
      OffsetsDiffer(g.tree, h.list[i], p + [true]);
      OffsetsDiffer(h.tree, h.list[i], p);
    }
    SegFrame(m, m', Start, h.list, End);
    forall q | IsLeaf(g.tree, q)
      ensures Describes(m', q)
      ensures FreeLeaf(g.tree, q) ==> m'[At(Off(q))].free
      ensures LiveLeaf(g.tree, q) && q !in {p + [false], p + [true]} ==> !m'[At(Off(q))].free
    {
      SplitHeader(m, m', h, p, q);
    }
  }

  lemma SplitHeader(m: Memory, m': Memory, h: Heap, p: Path, q: Path)
    requires Represents(m, h, {p}) && LiveLeaf(h.tree, p) && |p| < MAX_DEPTH && SplitHeaders(m, m', p)
    requires IsLeaf(InHandHalves(h, p).tree, q)
    ensures Describes(m', q)
    ensures FreeLeaf(InHandHalves(h, p).tree, q) ==> m'[At(Off(q))].free
    ensures LiveLeaf(InHandHalves(h, p).tree, q) && q !in {p + [false], p + [true]} ==> !m'[At(Off(q))].free
  {
    var g := InHandHalves(h, p);
    InHandHalvesKeep(h, p);
    ChildOf(p, false);
    ChildOf(p, true);
    assert Describes(m, p);
    assert FreeLeaf(g.tree, q) || LiveLeaf(g.tree, q);
    if q != p + [false] && q != p + [true] {
      assert FreeLeaf(h.tree, q) || (LiveLeaf(h.tree, q) && q != p);
      OffsetsDiffer(h.tree, q, p);
      OffsetsDiffer(g.tree, q, p + [true]);
      assert Describes(m, q);
    }
  }

  /** Where the walk of allocMem stands after `k` listed blocks. */
  function NodeFrom(l: seq<Path>, k: nat): Ptr {
    if k < |l| then At(Off(l[k])) else End
  }

  lemma FitStep(m: Memory, h: Heap, k: nat, req: nat)
    requires Represents(m, h, {}) && k <= FirstFit(h.list, req) && req <= TOTAL_HEAP_SIZE
    requires Seg(m, NodeBefore(Start, h.list, k), h.list[k..], End)
    ensures var b := NodeFrom(h.list, k);
            && m[NodeBefore(Start, h.list, k)].next == b && b in m
            && (m[b].blockSize < req && m[b].next != Null <==> k < FirstFit(h.list, req))
  {
    var l := h.list;
    if k < |l| {
      assert l[k..][0] == l[k] && l[k] in l;
      assert l[k..][1..] == l[k + 1..];
      assert FreeLeaf(h.tree, l[k]) && Describes(m, l[k]);
    }
  }

  lemma TakeRepresents(m: Memory, m': Memory, h: Heap, k: nat)
    requires Represents(m, h, {}) && k < |h.list|
    requires var it, b := NodeBefore(Start, h.list, k), NodeFrom(h.list, k);
             it in m && b in m && m' == m[it := m[it].(next := m[b].next)]
    ensures Represents(m', Take(h, k), {h.list[k]})
  {
    var p := h.list[k];
    TakeKeeps(h, k);
    ListOffsetsDistinct(h);
    SegRemove(m, m', Start, h.list, k, End);
    assert FreeLeaf(h.tree, p);
    forall q | IsLeaf(Take(h, k).tree, q)
      ensures Describes(m', q)
      ensures FreeLeaf(Take(h, k).tree, q) ==> m'[At(Off(q))].free
      ensures LiveLeaf(Take(h, k).tree, q) && q != p ==> !m'[At(Off(q))].free
    {
      TakenHeader(m, m', h, k, q);
    }
  }

  lemma TakenHeader(m: Memory, m': Memory, h: Heap, k: nat, q: Path)
    requires Inv(h) && HeadersBut(m, h.tree, {}) && k < |h.list| && SameInfo(m, m')
    requires IsLeaf(Take(h, k).tree, q)
    ensures Describes(m', q)
    ensures FreeLeaf(Take(h, k).tree, q) ==> m'[At(Off(q))].free
    ensures LiveLeaf(Take(h, k).tree, q) && q != h.list[k] ==> !m'[At(Off(q))].free
  {
    var p := h.list[k];
    TakeKeeps(h, k);
    assert FreeLeaf(h.tree, p);
    PutAt(h.tree, p, Leaf(false), q);
    assert FreeLeaf(Take(h, k).tree, q) || LiveLeaf(Take(h, k).tree, q);
    assert q in Take(h, k).list ==> q in h.list by { DropKeeps(h.list, k); }
    assert FreeLeaf(h.tree, q) || LiveLeaf(h.tree, q);
    assert Describes(m, q);
  }

  lemma SegStep(m: Memory, it: Ptr, l: seq<Path>, k: nat)
    requires k < |l| && Seg(m, it, l[k..], End)
    ensures m[it].next == At(Off(l[k])) && Seg(m, At(Off(l[k])), l[k + 1..], End)
  {
    assert l[k..][0] == l[k] && l[k..][1..] == l[k + 1..];
  }

  /** The walk of the removal has reached the node before position `k`, looking for position `n`. */
  ghost predicate Reached(m: Memory, l: seq<Path>, it: Ptr, k: nat, n: nat) {
    && k <= n < |l| && it == NodeBefore(Start, l, k) && it != Null && Seg(m, it, l[k..], End)
    && m[it].next == At(Off(l[k])) && (k == n <==> Off(l[k]) == Off(l[n]))
  }

  lemma ReachedFirst(m: Memory, h: Heap, n: nat)
    requires Inv(h) && n < |h.list| && Seg(m, Start, h.list, End)
    ensures Reached(m, h.list, Start, 0, n)
  {
    ListOffsetsDistinct(h);
    assert h.list[0..] == h.list;
    SegStep(m, Start, h.list, 0);
  }

  lemma ReachedNext(m: Memory, h: Heap, it: Ptr, k: nat, n: nat)
    requires Inv(h) && Reached(m, h.list, it, k, n) && k < n
    ensures Reached(m, h.list, m[it].next, k + 1, n)
  {
    ListOffsetsDistinct(h);
    SegStep(m, it, h.list, k);
    SegStep(m, m[it].next, h.list, k + 1);
  }

  class BuddyManager {
    var mem: Memory
    var freeBytesRemaining: nat
    ghost var heap: Heap

    ghost predicate Valid()
      reads this
    {
      Represents(mem, heap, {})
    }

    constructor ()
      ensures Valid()
      ensures Manager(heap, freeBytesRemaining) == INITIAL
    {
      freeBytesRemaining := TOTAL_HEAP_SIZE;
      mem := map[Start := Header(false, 0, 0, At(0)),
                 End := Header(false, 0, TOTAL_HEAP_SIZE, Null),
                 At(0) := Header(true, 0, TOTAL_HEAP_SIZE, End)];
      heap := EMPTY_HEAP;
      new;
      InitInv();
      assert Seg(mem, Start, [[]], End);
    }

    method RemoveBlockFromFreeList(blockToRemove: Ptr, ghost s: Path)
      requires Inv(heap) && Sentinels(mem) && Seg(mem, Start, heap.list, End)
      requires s in heap.list && blockToRemove == At(Off(s))
      modifies this`mem
      ensures Sentinels(mem) && SameInfo(old(mem), mem)
      ensures Seg(mem, Start, Remove(heap.list, s), End)
    {
      ghost var l, n := heap.list, IndexOf(heap.list, s);
      ghost var k := 0;
      var it := Start;
      ReachedFirst(mem, heap, n);
      while it != Null && mem[it].next != blockToRemove
        invariant Reached(mem, l, it, k, n)
        modifies {}
        decreases n - k
      {
        ReachedNext(mem, heap, it, k, n);
        it := mem[it].next;
        k := k + 1;
      }
      assert k == n && Remove(l, s) == DropAt(l, n);
      if it != Null {
        Bypass(it, n);
      }
    }

    method Bypass(it: Ptr, ghost k: nat)
      requires Inv(heap) && Sentinels(mem) && Seg(mem, Start, heap.list, End)
      requires k < |heap.list| && it == NodeBefore(Start, heap.list, k) && it in mem
      requires mem[it].next == At(Off(heap.list[k]))
      modifies this`mem
      ensures Sentinels(mem) && SameInfo(old(mem), mem)
      ensures Seg(mem, Start, DropAt(heap.list, k), End)
    {
      ghost var before := mem;
      SegNodes(mem, Start, heap.list, End);
      ListOffsetsDistinct(heap);
      mem := mem[it := mem[it].(next := mem[mem[it].next].next)];
      SegRemove(before, mem, Start, heap.list, k, End);
    }

    /** Look at the buddy's header and, if it is a free block of the same size, widen the
        lower of the two headers over both. */
    method WidenOverBuddy(block: Ptr, ghost other: Ptr, ghost low: Ptr) returns (merge: bool, buddy: Ptr, merged: Ptr)
      requires block.At? && block in mem && other in mem && block != other
      requires mem[block].history % 2 == 1 ==> other == At(block.off - mem[block].blockSize) && low == other
      requires mem[block].history % 2 == 0 ==> other == At(block.off + mem[block].blockSize) && low == block
      modifies this`mem
      ensures merge <==> old(mem[other].free && mem[other].blockSize == mem[block].blockSize)
      ensures !merge ==> mem == old(mem)
      ensures merge ==> buddy == other && merged == low && mem == Widened(old(mem), low)
    {
      merged := block;
      merge := false;
      if mem[block].history % 2 == 1 {
        buddy := At(block.off - mem[block].blockSize);
        if mem[buddy].free && mem[buddy].blockSize == mem[block].blockSize {
          mem := mem[buddy := mem[buddy].(blockSize := mem[buddy].blockSize * 2)];
          merged := buddy;
          merge := true;
        }
      } else {
        buddy := At(block.off + mem[block].blockSize);
        if mem[buddy].free && mem[buddy].blockSize == mem[block].blockSize {
          mem := mem[block := mem[block].(blockSize := mem[block].blockSize * 2)];
          merge := true;
        }
      }
      if merge {
        mem := mem[merged := mem[merged].(history := mem[merged].history / 2)];
      }
    }

    /** Walk the list to the last block smaller than the one in hand. */
    method LastSmaller(blockSize: nat, ghost p: Path, ghost held: set<Path>) returns (it: Ptr)
      requires Represents(mem, heap, held) && LiveLeaf(heap.tree, p) && blockSize == Size(p)
      ensures it == NodeBefore(Start, heap.list, InsertPos(heap.list, |p|))
      ensures it in mem && it != At(Off(p))
    {
      ghost var l, n := heap.list, InsertPos(heap.list, |p|);
      ghost var k := 0;
      it := Start;
      NextInMemory(mem, heap, it, k);
      while mem[mem[it].next].blockSize < blockSize
        invariant k <= n && it == NodeBefore(Start, l, k) && Seg(mem, it, l[k..], End)
        invariant it in mem && mem[it].next in mem
        modifies {}
        decreases n - k
      {
        ListedSize(mem, heap, it, k, p, held);
        assert l[k..][0] == l[k] && l[k..][1..] == l[k + 1..];
        it := mem[it].next;
        k := k + 1;
        NextInMemory(mem, heap, it, k);
      }
      ListedSize(mem, heap, it, k, p, held);
      NotInHand(heap, k, p);
    }

    method LinkAfter(it: Ptr, block: Ptr)
      requires it in mem && block in mem && it != block
      modifies this`mem
      ensures LinkedAfter(old(mem), mem, it, block)
    {
      mem := mem[block := mem[block].(next := mem[it].next)];
      mem := mem[it := mem[it].(next := block)];
      mem := mem[block := mem[block].(free := true)];
    }

    method ListWholeHeap(block: Ptr)
      requires Sentinels(mem) && block == At(0) && Describes(mem, [])
      modifies this`mem, this`heap
      ensures heap == EMPTY_HEAP && Represents(mem, heap, {}) && Describes(mem, [])
    {
      mem := mem[Start := mem[Start].(next := block)];
      mem := mem[block := mem[block].(next := End, free := true)];
      heap := EMPTY_HEAP;
      WholeHeapListed(mem);
    }

    /** Put the block in hand into its place in the list. */
    method ListBlock(block: Ptr, ghost p: Path, ghost held: set<Path>) returns (size: nat)
      requires Represents(mem, heap, held + {p}) && LiveLeaf(heap.tree, p) && block == At(Off(p))
      modifies this`mem, this`heap
      ensures Sentinels(mem) && Seg(mem, Start, heap.list, End) && HeadersBut(mem, heap.tree, held)
      ensures heap == Heap(Put(old(heap).tree, p, Leaf(true)), Insert(old(heap).list, p)) && size == Size(p)
    {
      assert Describes(mem, p);
      var it := LastSmaller(mem[block].blockSize, p, held + {p});
      ghost var before := mem;
      LinkAfter(it, block);
      ListingRepresents(before, mem, heap, it, p, held);
      heap := Heap(Put(heap.tree, p, Leaf(true)), Insert(heap.list, p));
      size := mem[block].blockSize;
    }

    /** Give the block in hand back, merging with its buddy for as long as asked and possible.
        Returns the size of the block that ends up listed. */
    method InsertBlockIntoFreeList(block: Ptr, checkMerge: bool, ghost p: Path, ghost held: set<Path>) returns (size: nat)
      requires Represents(mem, heap, held + {p}) && LiveLeaf(heap.tree, p) && block == At(Off(p))
      requires if checkMerge then held == {} else p != []
      modifies this`mem, this`heap
      ensures Sentinels(mem) && Seg(mem, Start, heap.list, End) && HeadersBut(mem, heap.tree, held)
      ensures checkMerge ==> heap == Release(old(heap), p).heap && size == Size(Release(old(heap), p).block)
      ensures !checkMerge ==> heap == Heap(Put(old(heap).tree, p, Leaf(true)), Insert(old(heap).list, p)) && size == Size(p)
      decreases |p|
    {
      LeafDepth(heap.tree, p);
      assert Describes(mem, p);
      if mem[block].blockSize == TOTAL_HEAP_SIZE {
        WholeHeapSize(p);
        ListWholeHeap(block);
        return mem[block].blockSize;
      }
      assert p != [];
      if checkMerge {
        ghost var before := mem;
        assert held + {p} == {p};
        BuddyTest(mem, heap, p);
        BuddyAddress(p);
        var merge, buddy, merged := WidenOverBuddy(block, At(Off(Sibling(p))), At(Off(Parent(p))));
        if merge {
          assert Sibling(p) in heap.list;
          SegNodes(before, Start, heap.list, End);
          SegFrame(before, mem, Start, heap.list, End);
          RemoveBlockFromFreeList(buddy, Sibling(p));
          MergeRepresents(before, mem, heap, p);
          MergeKeeps(heap, p);
          heap := Merge(heap, p);
          size := InsertBlockIntoFreeList(merged, true, Parent(p), {});
          return;
        }
      }
      size := ListBlock(block, p, held);
    }

    /** Walk to the first listed block of at least `req` bytes and unlink it; NULL if none. */
    method UnlinkFirstFit(req: nat) returns (block: Ptr, ghost p: Path)
      requires Valid() && req <= TOTAL_HEAP_SIZE
      modifies this`mem, this`heap
      ensures var i := FirstFit(old(heap).list, req);
              if i == |old(heap).list| then
                block == Null && mem == old(mem) && heap == old(heap)
              else
                && p == old(heap).list[i] && block == At(Off(p))
                && heap == Take(old(heap), i) && Represents(mem, heap, {p}) && LiveLeaf(heap.tree, p)
    {
      ghost var l, n := heap.list, FirstFit(heap.list, req);
      ghost var k := 0;
      var previousBlock := Start;
      block := mem[Start].next;
      FitStep(mem, heap, 0, req);
      while mem[block].blockSize < req && mem[block].next != Null
        invariant k <= n && previousBlock == NodeBefore(Start, l, k) && previousBlock in mem
        invariant Seg(mem, previousBlock, l[k..], End) && block == NodeFrom(l, k) && block in mem
        modifies {}
        decreases n - k
      {
        FitStep(mem, heap, k, req);
        assert l[k..][0] == l[k] && l[k..][1..] == l[k + 1..];
        previousBlock := block;
        block := mem[block].next;
        k := k + 1;
        FitStep(mem, heap, k, req);
      }
      FitStep(mem, heap, k, req);
      if block == End {
        return Null, [];
      }
      p := l[k];
      Unlink(previousBlock, block, k);
    }

    method Unlink(previousBlock: Ptr, block: Ptr, ghost k: nat)
      requires Represents(mem, heap, {}) && k < |heap.list| && previousBlock in mem && block in mem
      requires previousBlock == NodeBefore(Start, heap.list, k) && block == NodeFrom(heap.list, k)
      modifies this`mem, this`heap
      ensures heap == Take(old(heap), k)
      ensures Represents(mem, heap, {old(heap).list[k]}) && LiveLeaf(heap.tree, old(heap).list[k])
    {
      ghost var before := mem;
      mem := mem[previousBlock := mem[previousBlock].(next := mem[block].next)];
      TakeRepresents(before, mem, heap, k);
      TakeKeeps(heap, k);
      heap := Take(heap, k);
    }

    /** Shrink the header of the block in hand and write one for its upper half. */
    method WriteHalves(block: Ptr, ghost p: Path) returns (newBlock: Ptr)
      requires Describes(mem, p) && |p| < MAX_DEPTH && block == At(Off(p))
      modifies this`mem
      ensures SplitHeaders(old(mem), mem, p) && newBlock == At(Off(p + [true]))
    {
      ChildOf(p, true);
      SizeIsPow2(|p|);
      SmallestSize(|p| + 1);
      mem := mem[block := mem[block].(blockSize := mem[block].blockSize / 2)];
      mem := mem[block := mem[block].(history := mem[block].history * 2)];
      newBlock := At(block.off + mem[block].blockSize);
      // `nextFreeBlock` of the new header is set when it is inserted
      mem := mem[newBlock := Header(true, mem[block].history + 1, mem[block].blockSize, Null)];
    }

    /** One round of the split loop. */
    method SplitOnce(block: Ptr, ghost p: Path)
      requires Represents(mem, heap, {p}) && LiveLeaf(heap.tree, p) && |p| < MAX_DEPTH && block == At(Off(p))
      modifies this`mem, this`heap
      ensures heap == Halve(old(heap), p) && Represents(mem, heap, {p + [false]})
    {
      ghost var before := mem;
      var newBlock := WriteHalves(block, p);
      SplitRepresents(before, mem, heap, p);
      InHandHalvesKeep(heap, p);
      HalveKeeps(heap, p);
      heap := InHandHalves(heap, p);
      assert {p + [false]} + {p + [true]} == {p + [false], p + [true]};
      var _ := InsertBlockIntoFreeList(newBlock, false, p + [true], {p + [false]});
    }

    /** Halve the block in hand for as long as the lower half still holds `req` bytes. */
    method SplitToSize(block: Ptr, ghost p0: Path, req: nat) returns (ghost p: Path)
      requires Represents(mem, heap, {p0}) && LiveLeaf(heap.tree, p0) && block == At(Off(p0)) && Size(p0) >= req
      modifies this`mem, this`heap
      ensures Carved(heap, p) == Split(old(heap), p0, req)
      ensures Represents(mem, heap, {p}) && LiveLeaf(heap.tree, p) && block == At(Off(p)) && Describes(mem, p)
    {
      p := p0;
      LeafDepth(heap.tree, p);
      assert Describes(mem, p);
      while mem[block].blockSize / 2 >= MINIMUM_BLOCK_SIZE && mem[block].blockSize / 2 >= req
        invariant Represents(mem, heap, {p}) && LiveLeaf(heap.tree, p) && block == At(Off(p)) && block in mem
        invariant Describes(mem, p) && |p| <= MAX_DEPTH
        invariant Split(heap, p, req) == Split(old(heap), p0, req)
        decreases MAX_DEPTH - |p|
      {
        SplitsOnlyAboveMinimum(|p|, req);
        ChildOf(p, false);
        HalveKeeps(heap, p);
        SplitOnce(block, p);
        p := p + [false];
        assert Describes(mem, p);
      }
    }

    /** The request with its header, rounded up to the alignment of 8 bytes. */
    method AddHeader(memoryToAllocate: nat) returns (req: nat)
      requires memoryToAllocate < WORD
      ensures req == Adjusted(memoryToAllocate) && req % 8 == 0
      ensures if memoryToAllocate <= LARGEST_SAFE_REQUEST
              then memoryToAllocate + 24 <= req < memoryToAllocate + 32
              else if memoryToAllocate < 0xFFFF_FFE8 then req == 0
              else memoryToAllocate - 0xFFFF_FFE8 <= req < memoryToAllocate - 0xFFFF_FFE0
    {
      AdjustedFacts(memoryToAllocate);
      req := (memoryToAllocate + STRUCT_SIZE) % WORD;
      if req % 8 != 0 {
        req := (req + (8 - req % 8)) % WORD;
      }
    }

    method MarkTaken(block: Ptr, ghost p: Path)
      requires Represents(mem, heap, {p}) && LiveLeaf(heap.tree, p) && block == At(Off(p)) && block in mem
      modifies this`mem
      ensures Valid()
    {
      ghost var before := mem;
      mem := mem[block := mem[block].(free := false)];
      NothingElse(before, heap, p, mem);
    }

    /** The part of allocMem after the request has been adjusted and checked. */
    method Carve(req: nat) returns (block: Ptr, size: nat)
      requires Valid() && req <= TOTAL_HEAP_SIZE
      modifies this`mem, this`heap
      ensures Valid()
      ensures var i := FirstFit(old(heap).list, req);
              if i == |old(heap).list| then
                block == Null && heap == old(heap)
              else
                var c := Split(Take(old(heap), i), old(heap).list[i], req);
                heap == c.heap && block == At(Off(c.block)) && size == Size(c.block)
    {
      ghost var p;
      block, p := UnlinkFirstFit(req);
      if block == Null {
        return Null, 0;
      }
      p := SplitToSize(block, p, req);
      size := mem[block].blockSize;
      MarkTaken(block, p);
    }

    method AllocMem(memoryToAllocate: nat) returns (blockToReturn: Ptr)
      requires Valid() && memoryToAllocate < WORD
      modifies this
      ensures Valid()
      ensures Manager(heap, freeBytesRemaining) == Step(old(Manager(heap, freeBytesRemaining)), AllocOp(memoryToAllocate))
      ensures match Alloc(old(heap), memoryToAllocate)
              case Refused => blockToReturn == Null
              case Granted(_, q) => blockToReturn == At(Off(q) + 24)
    {
      if memoryToAllocate == 0 {
        return Null;
      }
      var req := AddHeader(memoryToAllocate);
      if req > TOTAL_HEAP_SIZE {
        return Null;
      }
      var block, size := Carve(req);
      if block == Null {
        return Null;
      }
      freeBytesRemaining := Debit(freeBytesRemaining, size);
      return At(block.off + STRUCT_SIZE);
    }

    /** `block` is what AllocMem returned for the live block `p`. */
    method FreeMem(block: Ptr, ghost p: Path)
      requires Valid() && (block == Null || (LiveLeaf(heap.tree, p) && block == At(Off(p) + 24)))
      modifies this
      ensures Valid()
      ensures block == Null ==> Manager(heap, freeBytesRemaining) == old(Manager(heap, freeBytesRemaining))
      ensures block != Null ==>
                Manager(heap, freeBytesRemaining) == Step(old(Manager(heap, freeBytesRemaining)), FreeOp(p))
    {
      if block == Null {
        return;
      }
      var blockToFree := At(block.off - STRUCT_SIZE);
      ReleaseKeeps(heap, p);
      var memoryFreed := InsertBlockIntoFreeList(blockToFree, true, p, {});
      freeBytesRemaining := Credit(freeBytesRemaining, memoryFreed);
    }
  }

  lemma NothingElse(m: Memory, h: Heap, p: Path, m': Memory)
    requires Represents(m, h, {p}) && LiveLeaf(h.tree, p) && At(Off(p)) in m
    requires m' == m[At(Off(p)) := m[At(Off(p))].(free := false)]
    ensures Represents(m', h, {})
  {
    SegNodes(m, Start, h.list, End);
    SegFrame(m, m', Start, h.list, End);
    forall q | IsLeaf(h.tree, q)
      ensures Describes(m', q)
      ensures FreeLeaf(h.tree, q) ==> m'[At(Off(q))].free
      ensures LiveLeaf(h.tree, q) ==> !m'[At(Off(q))].free
    {
      assert FreeLeaf(h.tree, q) || LiveLeaf(h.tree, q);
      assert Describes(m, q);
      if q != p { OffsetsDiffer(h.tree, q, p); }
    }
  }

  lemma WholeHeapSize(p: Path)
    requires |p| <= MAX_DEPTH && Size(p) == TOTAL_HEAP_SIZE
    ensures p == []
  {
    if p != [] { SizeAntitone(0, |p|); }
  }

  lemma WholeHeapListed(m: Memory)
    requires Sentinels(m) && m[Start].next == At(0) && Describes(m, []) && m[At(0)].free && m[At(0)].next == End
    ensures Represents(m, EMPTY_HEAP, {})
  {
    InitInv();
    assert Seg(m, At(0), [], End);
    assert EMPTY_HEAP.list[1..] == [];
    assert Seg(m, Start, EMPTY_HEAP.list, End);
  }

  lemma NotInHand(h: Heap, k: nat, p: Path)
    requires Inv(h) && LiveLeaf(h.tree, p) && k <= |h.list|
    ensures NodeBefore(Start, h.list, k) != At(Off(p))
  {
    if k > 0 {
      assert h.list[k - 1] in h.list;
      assert FreeLeaf(h.tree, h.list[k - 1]);
      OffsetsDiffer(h.tree, h.list[k - 1], p);
    }
  }

  /** Comparing sizes in memory is comparing depths in the list. */
  lemma ListedSize(m: Memory, h: Heap, it: Ptr, k: nat, p: Path, held: set<Path>)
    requires Inv(h) && Sentinels(m) && HeadersBut(m, h.tree, held) && LiveLeaf(h.tree, p) && k <= InsertPos(h.list, |p|)
    requires it in m && m[it].next == NodeFrom(h.list, k) && m[it].next in m
    ensures m[m[it].next].blockSize < Size(p) <==> k < InsertPos(h.list, |p|)
  {
    var l := h.list;
    LeafDepth(h.tree, p);
    SizeAntitone(0, |p|);
    if k < |l| {
      assert l[k..][0] == l[k] && l[k] in l;
      assert FreeLeaf(h.tree, l[k]);
      LeafDepth(h.tree, l[k]);
      if |l[k]| <= |p| { SizeAntitone(|l[k]|, |p|); } else { SizeAntitone(|p|, |l[k]|); }
    }
  }

  lemma NextInMemory(m: Memory, h: Heap, it: Ptr, k: nat)
    requires Sentinels(m) && k <= |h.list| && Seg(m, it, h.list[k..], End)
    ensures m[it].next in m
  {
    if k < |h.list| {
      assert h.list[k..] != [];
    }
  }
}
