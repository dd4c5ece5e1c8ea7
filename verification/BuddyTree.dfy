// Block tree of the buddy allocator (Kernel/utils/MemManBuddy.c).
//
// Every block the allocator has ever handed out or kept is reached from the whole heap by
// halving: `false` keeps the lower half, `true` the upper half.  A path names a block; its
// depth gives the size, its bits give the `history` word and the offset.
module BuddyTree {
  import opened Options

  const TOTAL_HEAP_SIZE: nat := 134217728 // 128 MiB
  const MINIMUM_BLOCK_SIZE: nat := 512
  const MAX_DEPTH: nat := 18 // TOTAL_HEAP_SIZE / 2^18 == MINIMUM_BLOCK_SIZE

  type Path = seq<bool>

  datatype Tree = Leaf(free: bool) | Node(left: Tree, right: Tree)

  // ---------------------------------------------------------------- sizes

  /** Block size after `d` halvings. */
  function SizeAt(d: nat): nat {
    if d == 0 then TOTAL_HEAP_SIZE else SizeAt(d - 1) / 2
  }

  function Size(p: Path): nat {
    SizeAt(|p|)
  }

  function Pow2(k: nat): (r: nat)
    ensures r > 0
  {
    if k == 0 then 1 else 2 * Pow2(k - 1)
  }

  lemma {:induction false} SizeIsPow2(d: nat)
    requires d <= MAX_DEPTH
    ensures SizeAt(d) == Pow2(27 - d)
    ensures SizeAt(d) == 2 * SizeAt(d + 1)
  {
    if d == 0 {
      Pow2Of27();
    } else {
      SizeIsPow2(d - 1);
    }
    var k := 26 - d;
    HalfOf(SizeAt(d), k);
  }

  lemma HalfOf(s: nat, k: nat)
    requires s == Pow2(k + 1)
    ensures s == 2 * (s / 2) && s / 2 == Pow2(k)
  {
  }

  lemma Pow2Of27()
    ensures Pow2(27) == TOTAL_HEAP_SIZE
    ensures Pow2(9) == MINIMUM_BLOCK_SIZE
  {
    assert Pow2(9) == 512;
    assert Pow2(18) == 262144;
  }

  lemma {:induction false} SizeAntitone(d: nat, e: nat)
    requires d <= e <= MAX_DEPTH
    ensures SizeAt(e) <= SizeAt(d)
    ensures d < e ==> SizeAt(e) < SizeAt(d)
    ensures SizeAt(e) >= MINIMUM_BLOCK_SIZE
    decreases MAX_DEPTH - d
  {
    if d < e {
      SizeAntitone(d + 1, e);
      SizeIsPow2(d);
      SizeIsPow2(d + 1);
    } else {
      SmallestSize(d);
    }
  }

  lemma {:induction false} SmallestSize(d: nat)
    requires d <= MAX_DEPTH
    ensures SizeAt(d) >= MINIMUM_BLOCK_SIZE
    decreases MAX_DEPTH - d
  {
    SizeIsPow2(d);
    if d < MAX_DEPTH {
      SmallestSize(d + 1);
    } else {
      Pow2Of27();
    }
  }

  // ------------------------------------------------------- offset and history

  function Parent(p: Path): Path
    requires p != []
  {
    p[..|p| - 1]
  }

  function Last(p: Path): bool
    requires p != []
  {
    p[|p| - 1]
  }

  function Sibling(p: Path): Path
    requires p != []
  {
    Parent(p) + [!Last(p)]
  }

  function Off(p: Path): nat {
    if p == [] then 0 else Off(Parent(p)) + (if Last(p) then Size(p) else 0)
  }

  /** The `history` word: shifted left at each split, low bit set in the upper half. */
  function Hist(p: Path): nat {
    if p == [] then 0 else 2 * Hist(Parent(p)) + (if Last(p) then 1 else 0)
  }

  lemma ChildOf(p: Path, b: bool)
    ensures Parent(p + [b]) == p && Last(p + [b]) == b
    ensures Off(p + [b]) == Off(p) + (if b then SizeAt(|p| + 1) else 0)
    ensures Hist(p + [b]) == 2 * Hist(p) + (if b then 1 else 0)
  {
    assert (p + [b])[..|p|] == p;
  }

  lemma SiblingFacts(p: Path)
    requires p != []
    ensures |Sibling(p)| == |p| && Sibling(p) != p
    ensures Parent(Sibling(p)) == Parent(p) && Last(Sibling(p)) == !Last(p)
    ensures Sibling(Sibling(p)) == p
    ensures p == Parent(p) + [Last(p)]
    ensures Last(p) ==> Off(Sibling(p)) == Off(p) - Size(p) == Off(Parent(p))
    ensures !Last(p) ==> Off(Sibling(p)) == Off(p) + Size(p)
  {
    assert Sibling(p)[..|p| - 1] == Parent(p);
    ChildOf(Parent(p), !Last(p));
    assert Sibling(p)[|p| - 1] != p[|p| - 1];
  }

  /** A block's address is its history word times its size. */
  lemma {:induction false} OffsetIsHistoryTimesSize(p: Path)
    requires |p| <= MAX_DEPTH
    ensures Off(p) == Hist(p) * Size(p)
  {
    if p == [] {
    } else {
      OffsetIsHistoryTimesSize(Parent(p));
      SizeIsPow2(|p| - 1);
      assert Size(Parent(p)) == 2 * Size(p);
      DoubleProduct(Hist(Parent(p)), Size(p));
    }
  }

  lemma DoubleProduct(h: nat, s: nat)
    ensures h * (2 * s) == (2 * h) * s
    ensures h * (2 * s) + s == (2 * h + 1) * s
  {
  }

  lemma {:induction false} PrefixContains(q: Path, p: Path)
    requires q <= p && |p| <= MAX_DEPTH
    ensures Off(q) <= Off(p) && Off(p) + Size(p) <= Off(q) + Size(q)
  {
    if |q| < |p| {
      assert q <= Parent(p);
      PrefixContains(q, Parent(p));
      SizeIsPow2(|p| - 1);
    } else {
      assert p == q;
    }
  }

  predicate Incomparable(p: Path, q: Path) {
    !(p <= q) && !(q <= p)
  }

  lemma {:induction false} Diverge(p: Path, q: Path) returns (c: Path)
    requires Incomparable(p, q)
    ensures (c + [false] <= p && c + [true] <= q) || (c + [true] <= p && c + [false] <= q)
  {
    if p[0] != q[0] {
      c := [];
    } else {
      assert p == [p[0]] + p[1..] && q == [q[0]] + q[1..];
      var d := Diverge(p[1..], q[1..]);
      c := [p[0]] + d;
      assert c + [false] == [p[0]] + (d + [false]);
      assert c + [true] == [p[0]] + (d + [true]);
    }
  }

  predicate RangesDisjoint(p: Path, q: Path) {
    Off(p) + Size(p) <= Off(q) || Off(q) + Size(q) <= Off(p)
  }

  lemma IncomparableDisjoint(p: Path, q: Path)
    requires Incomparable(p, q) && |p| <= MAX_DEPTH && |q| <= MAX_DEPTH
    ensures RangesDisjoint(p, q)
    ensures Off(p) != Off(q)
  {
    var c := Diverge(p, q);
    ChildOf(c, false);
    ChildOf(c, true);
    SmallestSize(|p|);
    SmallestSize(|q|);
    if c + [false] <= p {
      PrefixContains(c + [false], p);
      PrefixContains(c + [true], q);
    } else {
      PrefixContains(c + [true], p);
      PrefixContains(c + [false], q);
    }
  }

  // ---------------------------------------------------------------- the tree

  function Child(t: Tree, b: bool): Tree
    requires t.Node?
  {
    if b then t.right else t.left
  }

  /** The subtree at a path, if the path exists. */
  function Sub(t: Tree, p: Path): Option<Tree> {
    if p == [] then Some(t)
    else if t.Leaf? then None
    else Sub(Child(t, p[0]), p[1..])
  }

  predicate IsLeaf(t: Tree, p: Path) {
    Sub(t, p).Some? && Sub(t, p).value.Leaf?
  }

  predicate FreeLeaf(t: Tree, p: Path) {
    Sub(t, p) == Some(Leaf(true))
  }

  predicate LiveLeaf(t: Tree, p: Path) {
    Sub(t, p) == Some(Leaf(false))
  }

  /** Replace the subtree at an existing path. */
  function Put(t: Tree, p: Path, u: Tree): Tree {
    if p == [] then u
    else if t.Leaf? then t
    else if p[0] then Node(t.left, Put(t.right, p[1..], u))
    else Node(Put(t.left, p[1..], u), t.right)
  }

  lemma {:induction false} SubAppend(t: Tree, p: Path, q: Path)
    ensures Sub(t, p).None? ==> Sub(t, p + q).None?
    ensures Sub(t, p).Some? ==> Sub(t, p + q) == Sub(Sub(t, p).value, q)
  {
    if p == [] {
      assert p + q == q;
    } else if t.Node? {
      assert (p + q)[1..] == p[1..] + q;
      SubAppend(Child(t, p[0]), p[1..], q);
    }
  }

  lemma {:induction false} SubPutBelow(t: Tree, p: Path, u: Tree, q: Path)
    requires Sub(t, p).Some?
    ensures Sub(Put(t, p, u), p + q) == Sub(u, q)
  {
    if p == [] {
      assert p + q == q;
    } else {
      assert (p + q)[1..] == p[1..] + q;
      SubPutBelow(Child(t, p[0]), p[1..], u, q);
    }
  }

  lemma SubPut(t: Tree, p: Path, u: Tree)
    requires Sub(t, p).Some?
    ensures Sub(Put(t, p, u), p) == Some(u)
  {
    SubPutBelow(t, p, u, []);
    assert p + [] == p;
  }

  lemma {:induction false} SubPutAside(t: Tree, p: Path, u: Tree, q: Path)
    requires Sub(t, p).Some? && Incomparable(p, q)
    ensures Sub(Put(t, p, u), q) == Sub(t, q)
  {
    if p[0] == q[0] {
      assert p == [p[0]] + p[1..] && q == [q[0]] + q[1..];
      assert Incomparable(p[1..], q[1..]);
      SubPutAside(Child(t, p[0]), p[1..], u, q[1..]);
    }
  }

  lemma {:induction false} SubPutAbove(t: Tree, p: Path, u: Tree, q: Path)
    requires Sub(t, p).Some? && q <= p && q != p
    ensures Sub(Put(t, p, u), q).Some? && Sub(Put(t, p, u), q).value.Node?
    ensures Sub(t, q).Some? && Sub(t, q).value.Node?
  {
    if q == [] {
    } else {
      assert p == [p[0]] + p[1..] && q == [q[0]] + q[1..];
      SubPutAbove(Child(t, p[0]), p[1..], u, q[1..]);
    }
  }

  lemma {:induction false} PutSub(t: Tree, p: Path, u: Tree)
    requires Sub(t, p) == Some(u)
    ensures Put(t, p, u) == t
  {
    if p == [] {
    } else {
      PutSub(Child(t, p[0]), p[1..], u);
    }
  }

  lemma {:induction false} PutPut(t: Tree, p: Path, u: Tree, v: Tree)
    requires Sub(t, p).Some?
    ensures Put(Put(t, p, u), p, v) == Put(t, p, v)
  {
    if p == [] {
    } else {
      PutPut(Child(t, p[0]), p[1..], u, v);
    }
  }

  /** Replacing the left half of a freshly split block replaces it inside the pair. */
  lemma {:induction false} PutChild(t: Tree, p: Path, l: Tree, r: Tree, b: bool, u: Tree)
    requires Sub(t, p).Some?
    ensures Put(Put(t, p, Node(l, r)), p + [b], u) == Put(t, p, if b then Node(l, u) else Node(u, r))
  {
    if p == [] {
      assert p + [b] == [b] && [b][1..] == [];
    } else {
      assert (p + [b])[1..] == p[1..] + [b];
      PutChild(Child(t, p[0]), p[1..], l, r, b, u);
    }
  }

  lemma LeavesIncomparable(t: Tree, p: Path, q: Path)
    requires IsLeaf(t, p) && IsLeaf(t, q) && p != q
    ensures Incomparable(p, q)
  {
    if p <= q {
      assert q == p + q[|p|..];
      SubAppend(t, p, q[|p|..]);
    }
    if q <= p {
      assert p == q + p[|q|..];
      SubAppend(t, q, p[|q|..]);
    }
  }

  lemma {:induction false} LeafDepth(t: Tree, p: Path)
    requires Sub(t, p).Some?
    ensures |p| + Height(Sub(t, p).value) <= Height(t)
  {
    if p == [] {
    } else {
      LeafDepth(Child(t, p[0]), p[1..]);
    }
  }

  function Height(t: Tree): nat {
    match t
    case Leaf(_) => 0
    case Node(l, r) => 1 + (if Height(l) > Height(r) then Height(l) else Height(r))
  }

  lemma {:induction false} PutHeight(t: Tree, p: Path, u: Tree, n: nat)
    requires Sub(t, p).Some? && Height(t) <= n && |p| + Height(u) <= n
    ensures Height(Put(t, p, u)) <= n
  {
    if p == [] {
    } else {
      PutHeight(Child(t, p[0]), p[1..], u, n - 1);
    }
  }

  /** No two halves of the same block are both free. */
  predicate Coalesced(t: Tree) {
    t.Node? ==> Coalesced(t.left) && Coalesced(t.right) && !(t.left == Leaf(true) && t.right == Leaf(true))
  }

  lemma {:induction false} CoalescedAt(t: Tree, p: Path)
    requires Coalesced(t) && p != [] && FreeLeaf(t, p)
    ensures !FreeLeaf(t, Sibling(p))
  {
    SiblingFacts(p);
    if |p| == 1 {
      assert Sibling(p) == [!p[0]];
      assert p[1..] == [] && Sibling(p)[1..] == [];
      assert Sub(t, p) == Sub(Child(t, p[0]), []) == Some(Child(t, p[0]));
      assert Sub(t, Sibling(p)) == Sub(Child(t, !p[0]), []) == Some(Child(t, !p[0]));
    } else {
      assert Sibling(p)[1..] == Sibling(p[1..]);
      CoalescedAt(Child(t, p[0]), p[1..]);
    }
  }

  /** Writing a subtree that is not a lone free leaf never breaks coalescing. */
  lemma {:induction false} PutCoalesced(t: Tree, p: Path, u: Tree)
    requires Sub(t, p).Some? && Coalesced(t) && Coalesced(u)
    requires u == Leaf(true) ==> p == [] || !FreeLeaf(t, Sibling(p))
    ensures Coalesced(Put(t, p, u))
  {
    if p == [] {
    } else if |p| == 1 {
      assert p[1..] == [];
      assert Sibling(p) == [!p[0]] && Sibling(p)[1..] == [];
      assert Sub(t, Sibling(p)) == Sub(Child(t, !p[0]), []) == Some(Child(t, !p[0]));
      assert Put(Child(t, p[0]), p[1..], u) == u;
    } else {
      assert Sibling(p)[1..] == Sibling(p[1..]);
      PutCoalesced(Child(t, p[0]), p[1..], u);
    }
  }

  /** The block that starts where a (sub)tree starts. */
  function Leftmost(t: Tree, p: Path): (q: Path)
  {
    match t
    case Leaf(_) => p
    case Node(l, _) => Leftmost(l, p + [false])
  }

  lemma {:induction false} LeftmostFacts(root: Tree, t: Tree, p: Path)
    requires Sub(root, p) == Some(t)
    ensures IsLeaf(root, Leftmost(t, p))
    ensures Off(Leftmost(t, p)) == Off(p)
    ensures |Leftmost(t, p)| >= |p|
    ensures |Leftmost(t, p)| == |p| <==> t.Leaf?
    ensures t.Leaf? ==> Leftmost(t, p) == p
    decreases t
  {
    if t.Node? {
      SubAppend(root, p, [false]);
      assert [false][1..] == [];
      ChildOf(p, false);
      LeftmostFacts(root, t.left, p + [false]);
    }
  }

  lemma SiblingExists(t: Tree, p: Path)
    requires p != [] && Sub(t, p).Some?
    ensures Sub(t, Sibling(p)).Some?
    ensures Sub(t, Parent(p)).Some? && Sub(t, Parent(p)).value.Node?
    ensures Sub(t, Parent(p)).value == if Last(p)
                                       then Node(Sub(t, Sibling(p)).value, Sub(t, p).value)
                                       else Node(Sub(t, p).value, Sub(t, Sibling(p)).value)
  {
    SiblingFacts(p);
    SubAppend(t, Parent(p), [Last(p)]);
    SubAppend(t, Parent(p), [!Last(p)]);
    assert [true][1..] == [] && [false][1..] == [];
  }

  // ---------------------------------------------------------------- tiling

  predicate Covers(p: Path, a: int) {
    Off(p) <= a < Off(p) + Size(p)
  }

  /** Every address below a block lies in some leaf of the block's subtree. */
  lemma {:induction false} LeafCovering(root: Tree, t: Tree, p: Path, a: int) returns (q: Path)
    requires Sub(root, p) == Some(t) && Height(root) <= MAX_DEPTH && Covers(p, a)
    ensures IsLeaf(root, q) && Covers(q, a)
    decreases t
  {
    if t.Leaf? {
      q := p;
    } else {
      LeafDepth(root, p);
      SizeIsPow2(|p|);
      ChildOf(p, false);
      ChildOf(p, true);
      var b := a >= Off(p) + SizeAt(|p| + 1);
      SubAppend(root, p, [b]);
      assert [b][1..] == [];
      q := LeafCovering(root, Child(t, b), p + [b], a);
    }
  }

  ghost predicate InSomeLeaf(t: Tree, a: int) {
    exists p :: IsLeaf(t, p) && Covers(p, a)
  }

  /** Leaves tile the heap: each address lies in exactly one of them. */
  lemma LeavesTile(t: Tree)
    requires Height(t) <= MAX_DEPTH
    ensures forall a: int | 0 <= a < TOTAL_HEAP_SIZE :: InSomeLeaf(t, a)
    ensures forall p, q | IsLeaf(t, p) && IsLeaf(t, q) && p != q :: RangesDisjoint(p, q)
    ensures forall p | IsLeaf(t, p) :: Off(p) + Size(p) <= TOTAL_HEAP_SIZE
  {
    forall a: int | 0 <= a < TOTAL_HEAP_SIZE
      ensures InSomeLeaf(t, a)
    {
      assert Covers([], a);
      var q := LeafCovering(t, t, [], a);
      assert IsLeaf(t, q) && Covers(q, a);
    }
    forall p, q | IsLeaf(t, p) && IsLeaf(t, q) && p != q
      ensures RangesDisjoint(p, q)
    {
      LeafDepth(t, p);
      LeafDepth(t, q);
      LeavesIncomparable(t, p, q);
      IncomparableDisjoint(p, q);
    }
    forall p | IsLeaf(t, p)
      ensures Off(p) + Size(p) <= TOTAL_HEAP_SIZE
    {
      LeafDepth(t, p);
      PrefixContains([], p);
    }
  }

  lemma OffsetsDiffer(t: Tree, p: Path, q: Path)
    requires Height(t) <= MAX_DEPTH && IsLeaf(t, p) && IsLeaf(t, q) && p != q
    ensures Off(p) != Off(q)
  {
    LeafDepth(t, p);
    LeafDepth(t, q);
    LeavesIncomparable(t, p, q);
    IncomparableDisjoint(p, q);
  }

  /** A fully free, coalesced tree is a single block. */
  lemma {:induction false} AllFreeIsOneBlock(t: Tree)
    requires Coalesced(t) && forall p :: !LiveLeaf(t, p)
    ensures t == Leaf(true)
  {
    assert Sub(t, []) == Some(t);
    if t.Node? {
      forall p ensures !LiveLeaf(t.left, p) && !LiveLeaf(t.right, p) {
        assert ([false] + p)[1..] == p && ([true] + p)[1..] == p;
        assert !LiveLeaf(t, [false] + p) && !LiveLeaf(t, [true] + p);
      }
      AllFreeIsOneBlock(t.left);
      AllFreeIsOneBlock(t.right);
    } else {
      assert !LiveLeaf(t, []);
    }
  }

  // ---------------------------------------------------------------- accounting

  /** Sum of the sizes of the free leaves of a subtree rooted at depth `d`. */
  function FreeBytes(t: Tree, d: nat): nat {
    match t
    case Leaf(free) => if free then SizeAt(d) else 0
    case Node(l, r) => FreeBytes(l, d + 1) + FreeBytes(r, d + 1)
  }

  lemma {:induction false} PutFreeBytes(t: Tree, p: Path, u: Tree, d: nat)
    requires Sub(t, p).Some?
    ensures FreeBytes(Put(t, p, u), d) == FreeBytes(t, d) - FreeBytes(Sub(t, p).value, d + |p|) + FreeBytes(u, d + |p|)
  {
    if p == [] {
    } else {
      PutFreeBytes(Child(t, p[0]), p[1..], u, d + 1);
    }
  }
}
