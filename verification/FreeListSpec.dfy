// The free-list allocator: best fit, split, no merging (Kernel/utils/MemoryManagerADT.c:27-126).
module FreeListSpec {
  import opened AllocatorSpec

  const TOTAL_HEAP_SIZE: nat := 134217728
  const STRUCT_SIZE: nat := 16
  const MINIMUM_BLOCK_SIZE: nat := 32 // STRUCT_SIZE * 2
  const WORD: nat := 0x1_0000_0000 // request sizes are 32-bit unsigned ints
  const LARGEST_SAFE_REQUEST: nat := 0xFFFF_FFE8 // adding header and alignment stays below WORD

  /** `blocks` gives the size at each block's offset; `list` is the free list in link order. */
  datatype Heap = Heap(blocks: map<nat, nat>, list: seq<nat>)

  const EMPTY_HEAP: Heap := Heap(map[0 := TOTAL_HEAP_SIZE], [0])

  predicate Listed(h: Heap) {
    forall i | 0 <= i < |h.list| :: h.list[i] in h.blocks
  }

  function SizeOf(h: Heap, b: nat): nat {
    if b in h.blocks then h.blocks[b] else 0
  }

  /** Where a block of this size goes: before the first listed block that is not smaller. */
  function InsertPos(h: Heap, l: seq<nat>, size: nat): (k: nat)
    ensures k <= |l|
    ensures forall i | 0 <= i < k :: SizeOf(h, l[i]) < size
    ensures k < |l| ==> SizeOf(h, l[k]) >= size
  {
    if l == [] || SizeOf(h, l[0]) >= size then 0 else 1 + InsertPos(h, l[1..], size)
  }

  function InsertInto(h: Heap, l: seq<nat>, b: nat): seq<nat> {
    var k := InsertPos(h, l, SizeOf(h, b));
    l[..k] + [b] + l[k..]
  }

  /** Header added and rounded up to 8 bytes, in 32-bit arithmetic. */
  function Adjusted(n: nat): (r: nat)
    ensures r < WORD
  {
    var a := (n + STRUCT_SIZE) % 0x1_0000_0000;
    if a % 8 != 0 then (a + (8 - a % 8)) % 0x1_0000_0000 else a
  }

  datatype AllocResult = Refused | Granted(heap: Heap, block: nat)

  function Unlink(h: Heap, i: nat): Heap
    requires i < |h.list|
  {
    h.(list := h.list[..i] + h.list[i + 1..])
  }

  /** Cut the block in hand after `req` bytes and list the rest, if the rest is worth keeping.
      With `req` 0, after a wrap, the block itself is what is listed. */
  function Carve(h: Heap, b: nat, req: nat): Heap {
    if SizeOf(h, b) - req > MINIMUM_BLOCK_SIZE then
      var g := CutAt(h, b, req);
      g.(list := InsertInto(g, g.list, b + req))
    else h
  }

  function CutAt(h: Heap, b: nat, req: nat): Heap
    requires req <= SizeOf(h, b)
  {
    h.(blocks := h.blocks[b + req := SizeOf(h, b) - req][b := req])
  }

  function Alloc(h: Heap, n: nat): AllocResult {
    if n == 0 || Adjusted(n) >= TOTAL_HEAP_SIZE then Refused else Taken(h, Adjusted(n))
  }

  /** Take the first listed block that is large enough and carve the request out of it. */
  function Taken(h: Heap, req: nat): AllocResult {
    var i := InsertPos(h, h.list, req);
    if i == |h.list| then Refused else Granted(Carve(Unlink(h, i), h.list[i], req), h.list[i])
  }

  function Free(h: Heap, b: nat): Heap {
    h.(list := InsertInto(h, h.list, b))
  }

  // ---------------------------------------------------------------- invariant

  /** Another block or the end of the heap follows. */
  predicate Followed(blocks: map<nat, nat>, b: nat)
    requires b in blocks
  {
    b + blocks[b] == TOTAL_HEAP_SIZE || b + blocks[b] in blocks
  }

  predicate Disjoint(blocks: map<nat, nat>, a: nat, b: nat)
    requires a in blocks && b in blocks
  {
    a < b ==> a + blocks[a] <= b
  }

  predicate Tiled(blocks: map<nat, nat>) {
    && 0 in blocks
    // every block has room for its header
    && (forall b | b in blocks :: blocks[b] >= STRUCT_SIZE)
    && (forall b {:trigger Followed(blocks, b)} | b in blocks :: Followed(blocks, b))
    && (forall b | b in blocks :: b + blocks[b] <= TOTAL_HEAP_SIZE)
    && (forall a, b {:trigger Disjoint(blocks, a, b)} | a in blocks && b in blocks :: Disjoint(blocks, a, b))
  }

  predicate Distinct(l: seq<nat>) {
    forall i, j | 0 <= i < j < |l| :: l[i] != l[j]
  }

  predicate SortedBySize(h: Heap, l: seq<nat>) {
    forall i, j | 0 <= i < j < |l| :: SizeOf(h, l[i]) <= SizeOf(h, l[j])
  }

  predicate Inv(h: Heap) {
    Tiled(h.blocks) && Listed(h) && Distinct(h.list) && SortedBySize(h, h.list)
  }

  predicate Live(h: Heap, b: nat) {
    b in h.blocks && b !in h.list
  }

  predicate InBlock(h: Heap, b: nat, a: nat) {
    b in h.blocks && b <= a < b + h.blocks[b]
  }

  /** The blocks tile the heap: each address lies in exactly one of them. */
  lemma {:induction false} TileAt(h: Heap, from: nat, a: nat) returns (b: nat)
    requires Tiled(h.blocks) && from in h.blocks && from <= a < TOTAL_HEAP_SIZE
    ensures InBlock(h, b, a)
    decreases TOTAL_HEAP_SIZE - from
  {
    if a < from + h.blocks[from] {
      b := from;
    } else {
      assert Followed(h.blocks, from);
      b := TileAt(h, from + h.blocks[from], a);
    }
  }

  ghost predicate InExactlyOneBlock(h: Heap, a: nat) {
    (exists b: nat :: InBlock(h, b, a)) && forall b: nat, c: nat | InBlock(h, b, a) && InBlock(h, c, a) :: b == c
  }

  lemma BlocksTile(h: Heap, a: nat)
    requires Inv(h) && a < TOTAL_HEAP_SIZE
    ensures InExactlyOneBlock(h, a)
  {
    var b := TileAt(h, 0, a);
    assert InBlock(h, b, a);
    forall c: nat, d: nat | InBlock(h, c, a) && InBlock(h, d, a)
      ensures c == d
    {
      assert Disjoint(h.blocks, c, d) && Disjoint(h.blocks, d, c);
    }
  }

  lemma InsertKeeps(h: Heap, l: seq<nat>, b: nat)
    requires Distinct(l) && SortedBySize(h, l) && b !in l
    ensures Distinct(InsertInto(h, l, b)) && SortedBySize(h, InsertInto(h, l, b))
    ensures forall x :: x in InsertInto(h, l, b) <==> x in l || x == b
  {
    var k := InsertPos(h, l, SizeOf(h, b));
    InsertMembers(l, k, b);
    InsertSorted(h, l, k, b);
  }

  lemma InsertMembers(l: seq<nat>, k: nat, b: nat)
    requires k <= |l|
    ensures forall x :: x in l[..k] + [b] + l[k..] <==> x in l || x == b
    ensures Distinct(l) && b !in l ==> Distinct(l[..k] + [b] + l[k..])
  {
    assert l == l[..k] + l[k..];
  }

  lemma InsertSorted(h: Heap, l: seq<nat>, k: nat, b: nat)
    requires SortedBySize(h, l) && k <= |l|
    requires forall i | 0 <= i < k :: SizeOf(h, l[i]) < SizeOf(h, b)
    requires k < |l| ==> SizeOf(h, l[k]) >= SizeOf(h, b)
    ensures SortedBySize(h, l[..k] + [b] + l[k..])
  {
    var m := l[..k] + [b] + l[k..];
    forall i, j | 0 <= i < j < |m|
      ensures SizeOf(h, m[i]) <= SizeOf(h, m[j])
    {
      assert m[i] == if i < k then l[i] else if i == k then b else l[i - 1];
      assert m[j] == if j < k then l[j] else if j == k then b else l[j - 1];
    }
  }

  lemma UnlinkKeeps(h: Heap, i: nat)
    requires Inv(h) && i < |h.list|
    ensures Inv(Unlink(h, i))
    ensures forall x :: x in Unlink(h, i).list <==> x in h.list && x != h.list[i]
    ensures forall x: nat :: Live(Unlink(h, i), x) <==> Live(h, x) || x == h.list[i]
  {
    assert h.list == h.list[..i] + [h.list[i]] + h.list[i + 1..];
    assert h.list[i] in h.list;
  }

  /** Cutting `req` bytes off a block leaves the heap tiled. */
  lemma SplitTiled(blocks: map<nat, nat>, b: nat, req: nat)
    requires Tiled(blocks) && b in blocks && STRUCT_SIZE <= req < blocks[b] - STRUCT_SIZE
    ensures Tiled(blocks[b + req := blocks[b] - req][b := req])
    ensures b + req !in blocks
  {
    NothingInside(blocks, b, req);
    CutFollowed(blocks, b, req);
    CutApart(blocks, b, req);
  }

  lemma NothingInside(blocks: map<nat, nat>, b: nat, req: nat)
    requires Tiled(blocks) && b in blocks && 0 < req < blocks[b]
    ensures b + req !in blocks
  {
    forall c | c in blocks && b < c
      ensures b + blocks[b] <= c
    {
      assert Disjoint(blocks, b, c);
    }
  }

  lemma CutFollowed(blocks: map<nat, nat>, b: nat, req: nat)
    requires Tiled(blocks) && b in blocks && 0 < req < blocks[b] && b + req !in blocks
    ensures var m := blocks[b + req := blocks[b] - req][b := req];
            forall x {:trigger Followed(m, x)} | x in m :: Followed(m, x)
  {
    var m := blocks[b + req := blocks[b] - req][b := req];
    forall x | x in m
      ensures Followed(m, x)
    {
      assert Followed(blocks, if x == b + req then b else x);
    }
  }

  lemma CutApart(blocks: map<nat, nat>, b: nat, req: nat)
    requires Tiled(blocks) && b in blocks && 0 < req < blocks[b] && b + req !in blocks
    ensures var m := blocks[b + req := blocks[b] - req][b := req];
            forall x, y {:trigger Disjoint(m, x, y)} | x in m && y in m :: Disjoint(m, x, y)
  {
    var m := blocks[b + req := blocks[b] - req][b := req];
    forall x, y | x in m && y in m
      ensures Disjoint(m, x, y)
    {
      var u, v := if x == b + req then b else x, if y == b + req then b else y;
      assert Disjoint(blocks, u, v) && Disjoint(blocks, v, u);
    }
  }

  lemma AdjustedFacts(n: nat)
    requires n < WORD
    ensures Adjusted(n) % 8 == 0
    ensures n <= LARGEST_SAFE_REQUEST ==> n + 16 <= Adjusted(n) < n + 24
    ensures n > LARGEST_SAFE_REQUEST ==>
              if n < 0xFFFF_FFF0 then Adjusted(n) == 0 else n - 0xFFFF_FFF0 <= Adjusted(n) < n - 0xFFFF_FFE8
  {
    var a := (n + STRUCT_SIZE) % WORD;
    RoundedUp(a);
    assert a == if n + STRUCT_SIZE < WORD then n + STRUCT_SIZE else n + STRUCT_SIZE - WORD;
  }

  lemma RoundedUp(a: nat)
    requires a < WORD
    ensures var r := if a % 8 != 0 then (a + (8 - a % 8)) % WORD else a;
            && r % 8 == 0
            && (a <= WORD - 8 ==> a <= r < a + 8)
            && (a > WORD - 8 ==> r == 0)
  {
  }

  // ---------------------------------------------------------------- single calls

  /** The block in hand is taken whole, or what is cut off it has room for more than a header. */
  predicate CarveSafe(h: Heap, b: nat, req: nat) {
    && req <= SizeOf(h, b)
    && (SizeOf(h, b) - req > MINIMUM_BLOCK_SIZE ==> req >= STRUCT_SIZE)
  }

  lemma CarveKeeps(h: Heap, b: nat, req: nat)
    requires Inv(h) && Live(h, b) && CarveSafe(h, b, req)
    ensures var g := Carve(h, b, req);
            && Inv(g) && h.blocks.Keys <= g.blocks.Keys
            && (forall x: nat :: Live(g, x) <==> Live(h, x))
            && (forall x: nat | Live(h, x) && x != b :: g.blocks[x] == h.blocks[x])
            && req <= g.blocks[b] <= req + MINIMUM_BLOCK_SIZE
  {
    if SizeOf(h, b) - req > MINIMUM_BLOCK_SIZE {
      CarveCut(h, b, req);
    }
  }

  lemma CarveCut(h: Heap, b: nat, req: nat)
    requires Inv(h) && Live(h, b) && req >= STRUCT_SIZE && h.blocks[b] - req > MINIMUM_BLOCK_SIZE
    ensures var g := Carve(h, b, req);
            && Inv(g) && g.blocks.Keys == h.blocks.Keys + {b + req}
            && (forall x: nat :: Live(g, x) <==> Live(h, x))
            && (forall x: nat | x in h.blocks && x != b :: g.blocks[x] == h.blocks[x])
            && g.blocks[b] == req
  {
    ListedCut(h, b, req);
    CutKeeps(h, b, req);
  }

  /** After a cut the upper part is a new block, in hand until it is listed. */
  lemma CutKeeps(h: Heap, b: nat, req: nat)
    requires Inv(h) && Live(h, b) && STRUCT_SIZE <= req < h.blocks[b] - STRUCT_SIZE
    ensures var g := CutAt(h, b, req);
            && Inv(g) && b + req !in h.blocks && b + req !in g.list
            && g.blocks.Keys == h.blocks.Keys + {b + req}
            && g.blocks[b] == req && g.blocks[b + req] == h.blocks[b] - req
            && (forall x: nat | x in h.blocks && x != b :: g.blocks[x] == h.blocks[x])
  {
    CutInv(h, b, req);
    CutMap(h.blocks, b, req);
  }

  lemma CutInv(h: Heap, b: nat, req: nat)
    requires Inv(h) && Live(h, b) && STRUCT_SIZE <= req < h.blocks[b] - STRUCT_SIZE
    ensures Inv(CutAt(h, b, req)) && b + req !in h.blocks && b + req !in h.list
  {
    CutTiled(h, b, req);
    CutListKept(h, b, req);
  }

  lemma CutTiled(h: Heap, b: nat, req: nat)
    requires Tiled(h.blocks) && b in h.blocks && STRUCT_SIZE <= req < h.blocks[b] - STRUCT_SIZE
    ensures Tiled(CutAt(h, b, req).blocks) && b + req !in h.blocks
  {
    SplitTiled(h.blocks, b, req);
  }

  lemma CutMap(blocks: map<nat, nat>, b: nat, req: nat)
    requires b in blocks && 0 < req <= blocks[b]
    ensures var m := blocks[b + req := blocks[b] - req][b := req];
            && m.Keys == blocks.Keys + {b + req}
            && m[b] == req && m[b + req] == blocks[b] - req
            && (forall x: nat | x in blocks && x != b && x != b + req :: m[x] == blocks[x])
  {
  }

  lemma CutListKept(h: Heap, b: nat, req: nat)
    requires Listed(h) && SortedBySize(h, h.list)
    requires b in h.blocks && b !in h.list && req <= h.blocks[b] && b + req !in h.blocks
    ensures var g := CutAt(h, b, req); Listed(g) && b + req !in h.list && SortedBySize(g, g.list)
  {
    CutSizes(h, b, req);
    SameSizes(h, CutAt(h, b, req), h.list);
  }

  lemma CutSizes(h: Heap, b: nat, req: nat)
    requires Listed(h) && b in h.blocks && b !in h.list && req <= h.blocks[b] && b + req !in h.blocks
    ensures forall i | 0 <= i < |h.list| :: SizeOf(h, h.list[i]) == SizeOf(CutAt(h, b, req), h.list[i])
    ensures Listed(CutAt(h, b, req)) && b + req !in h.list
  {
  }

  lemma ListedCut(h: Heap, b: nat, req: nat)
    requires Inv(h) && Live(h, b) && req >= STRUCT_SIZE && h.blocks[b] - req > MINIMUM_BLOCK_SIZE
    ensures var g := Carve(h, b, req);
            && Inv(g) && (forall x: nat :: Live(g, x) <==> Live(h, x))
  {
    CutKeeps(h, b, req);
    var c := CutAt(h, b, req);
    InsertKeeps(c, c.list, b + req);
    var g := Carve(h, b, req);
    SameSizes(c, g, g.list);
    forall x: nat
      ensures Live(g, x) <==> Live(h, x)
    {
    }
  }

  /** What is cut off has room for its header, or nothing is cut: the addition of header and
      alignment does not wrap, or wraps to a header alone, or the block found is handed out whole. */
  predicate SafeRequest(h: Heap, n: nat) {
    Adjusted(n) >= STRUCT_SIZE || Uncut(h, Adjusted(n))
  }

  predicate Uncut(h: Heap, req: nat) {
    var i := InsertPos(h, h.list, req);
    i < |h.list| ==> SizeOf(h, h.list[i]) - req <= MINIMUM_BLOCK_SIZE
  }

  lemma AllocKeeps(h: Heap, n: nat)
    requires Inv(h) && n < WORD && Alloc(h, n).Granted? && SafeRequest(h, n)
    ensures var r := Alloc(h, n);
            && Inv(r.heap) && r.block in h.list && r.block !in r.heap.list
            && (forall b: nat :: Live(r.heap, b) <==> Live(h, b) || b == r.block)
            && (forall b: nat | Live(h, b) :: r.heap.blocks[b] == h.blocks[b])
            && Adjusted(n) <= SizeOf(r.heap, r.block) <= Adjusted(n) + MINIMUM_BLOCK_SIZE
            // boundaries are only ever refined
            && h.blocks.Keys <= r.heap.blocks.Keys
  {
    var req := Adjusted(n);
    AdjustedFacts(n);
    var i := InsertPos(h, h.list, req);
    UnlinkKeeps(h, i);
    CarveKeeps(Unlink(h, i), h.list[i], req);
    assert Live(Alloc(h, n).heap, h.list[i]);
  }

  lemma SameSizes(h: Heap, g: Heap, l: seq<nat>)
    requires SortedBySize(h, l) && forall i | 0 <= i < |l| :: SizeOf(h, l[i]) == SizeOf(g, l[i])
    ensures SortedBySize(g, l)
  {
  }

  lemma FreeKeeps(h: Heap, b: nat)
    requires Inv(h) && Live(h, b)
    ensures Inv(Free(h, b)) && Free(h, b).blocks == h.blocks
    ensures forall x: nat :: Live(Free(h, b), x) <==> Live(h, x) && x != b
  {
    InsertKeeps(h, h.list, b);
  }

  /** A grant exceeds the aligned request by at most two headers, it comes from a smallest
      free block that is large enough, and its payload holds the request exactly when adding
      header and alignment did not wrap around 32 bits. */
  lemma GrantedFits(h: Heap, n: nat)
    requires Inv(h) && n < WORD && Alloc(h, n).Granted?
    ensures var r := Alloc(h, n);
            && Adjusted(n) <= SizeOf(r.heap, r.block) <= Adjusted(n) + 32
            && (forall b | b in h.list && SizeOf(h, b) >= Adjusted(n) :: SizeOf(h, r.block) <= SizeOf(h, b))
            && (SizeOf(r.heap, r.block) - STRUCT_SIZE >= n <==> n <= LARGEST_SAFE_REQUEST)
  {
    AdjustedFacts(n);
    FirstIsSmallest(h, Adjusted(n));
  }

  /** A grant leaves the block it found whole when no more than two headers would be left over.
      Otherwise the block keeps the request with its header, and the rest is a new listed block
      right behind it.  No other block changes, and no other block enters or leaves the list. */
  lemma GrantCutsExactly(h: Heap, n: nat)
    requires Inv(h) && n < WORD && Alloc(h, n).Granted?
    ensures var g, b := Alloc(h, n).heap, Alloc(h, n).block;
            var s, r := SizeOf(h, b), Adjusted(n);
            && b in h.list && s >= r
            && g.blocks == (if s - r <= 32 then h.blocks else h.blocks[b + r := s - r][b := r])
            && forall x :: x in g.list <==> (x in h.list && x != b) || (s - r > 32 && x == b + r)
  {
    var i := InsertPos(h, h.list, Adjusted(n));
    UnlinkKeeps(h, i);
    CarveCuts(Unlink(h, i), h.list[i], Adjusted(n));
  }

  lemma CarveCuts(u: Heap, b: nat, r: nat)
    requires b in u.blocks && r <= u.blocks[b]
    ensures var g, s := Carve(u, b, r), u.blocks[b];
            && g.blocks == (if s - r <= 32 then u.blocks else u.blocks[b + r := s - r][b := r])
            && forall x :: x in g.list <==> x in u.list || (s - r > 32 && x == b + r)
  {
    if u.blocks[b] - r > MINIMUM_BLOCK_SIZE {
      var c := CutAt(u, b, r);
      InsertMembers(c.list, InsertPos(c, c.list, SizeOf(c, b + r)), b + r);
    }
  }

  /** A grant keeps the heap sound exactly when what it cuts off has room for its header or nothing
      is cut; it keeps the heap sound and holds its payload exactly when the request does not wrap. */
  lemma GrantSoundExactly(h: Heap, n: nat)
    requires Inv(h) && n < WORD && Alloc(h, n).Granted?
    ensures var r := Alloc(h, n);
            && (Inv(r.heap) <==> SafeRequest(h, n))
            && (Inv(r.heap) && SizeOf(r.heap, r.block) - STRUCT_SIZE >= n <==> n <= LARGEST_SAFE_REQUEST)
  {
    GrantedFits(h, n);
    if SafeRequest(h, n) {
      AllocKeeps(h, n);
    } else {
      AdjustedFacts(n);
      WrapCuts(h, n);
    }
  }

  /** Otherwise a block without room for its header is left. */
  lemma WrapCuts(h: Heap, n: nat)
    requires n < WORD && Alloc(h, n).Granted? && !SafeRequest(h, n)
    ensures var r := Alloc(h, n); r.block in r.heap.blocks && r.heap.blocks[r.block] < STRUCT_SIZE
  {
    AdjustedFacts(n);
  }

  /** On a fresh heap a request of 0xFFFF_FFF0 bytes wraps to 0.  The only block is handed out and
      listed at once with size 0, and a second such request is granted the same block. */
  lemma WrappedRequestExample()
    ensures var n := 0xFFFF_FFF0;
            var r := Alloc(EMPTY_HEAP, n);
            && Inv(EMPTY_HEAP) && Adjusted(n) == 0
            && r == Granted(Heap(map[0 := 0], [0]), 0) && !Inv(r.heap)
            && Alloc(r.heap, n) == Granted(Heap(map[0 := 0], []), 0)
  {
    var n := 0xFFFF_FFF0;
    assert Adjusted(n) == 0;
    var e := Unlink(EMPTY_HEAP, 0);
    assert e.list == [];
    assert CutAt(e, 0, 0).blocks == map[0 := 0];
    assert Taken(EMPTY_HEAP, 0).heap == Heap(map[0 := 0], [0]);
    var g := Heap(map[0 := 0], [0]);
    assert Unlink(g, 0).list == [];
  }

  lemma FirstIsSmallest(h: Heap, req: nat)
    requires SortedBySize(h, h.list) && InsertPos(h, h.list, req) < |h.list|
    ensures var i := InsertPos(h, h.list, req);
            forall b | b in h.list && SizeOf(h, b) >= req :: SizeOf(h, h.list[i]) <= SizeOf(h, b)
  {
    var i := InsertPos(h, h.list, req);
    forall b | b in h.list && SizeOf(h, b) >= req
      ensures SizeOf(h, h.list[i]) <= SizeOf(h, b)
    {
      var j :| 0 <= j < |h.list| && h.list[j] == b;
      assert i <= j;
    }
  }

  /** NULL exactly for a zero request, one that would need the whole heap, or when no free block
      is large enough. */
  lemma RefusedExactly(h: Heap, n: nat)
    requires Inv(h) && n < WORD
    ensures Alloc(h, n).Refused? <==>
              n == 0 || Adjusted(n) >= 0x800_0000 || forall b | b in h.list :: SizeOf(h, b) < Adjusted(n)
  {
    var i := InsertPos(h, h.list, Adjusted(n));
    if i < |h.list| { assert h.list[i] in h.list; }
  }

  // ---------------------------------------------------------------- accounting

  function FreeBytes(h: Heap, l: seq<nat>): nat {
    if l == [] then 0 else SizeOf(h, l[0]) + FreeBytes(h, l[1..])
  }

  lemma {:induction false} FreeBytesAppend(h: Heap, a: seq<nat>, b: seq<nat>)
    ensures FreeBytes(h, a + b) == FreeBytes(h, a) + FreeBytes(h, b)
  {
    if a == [] {
      assert a + b == b;
    } else {
      assert (a + b)[1..] == a[1..] + b;
      FreeBytesAppend(h, a[1..], b);
    }
  }

  lemma InsertFreeBytes(h: Heap, l: seq<nat>, b: nat)
    ensures FreeBytes(h, InsertInto(h, l, b)) == FreeBytes(h, l) + SizeOf(h, b)
  {
    var k := InsertPos(h, l, SizeOf(h, b));
    assert l == l[..k] + l[k..];
    FreeBytesAppend(h, l[..k], l[k..]);
    FreeBytesAppend(h, l[..k] + [b], l[k..]);
    FreeBytesAppend(h, l[..k], [b]);
    assert FreeBytes(h, [b]) == SizeOf(h, b) by { assert [b][1..] == []; }
  }

  lemma RestFreeBytes(h: Heap, i: nat)
    requires i < |h.list|
    ensures FreeBytes(h, Unlink(h, i).list) == FreeBytes(h, h.list) - SizeOf(h, h.list[i])
  {
    var b := h.list[i];
    assert h.list == h.list[..i] + ([b] + h.list[i + 1..]);
    FreeBytesAppend(h, h.list[..i], [b] + h.list[i + 1..]);
    FreeBytesAppend(h, [b], h.list[i + 1..]);
    FreeBytesAppend(h, h.list[..i], h.list[i + 1..]);
    assert FreeBytes(h, [b]) == SizeOf(h, b) by { assert [b][1..] == []; }
  }

  lemma {:induction false} FreeBytesSame(h: Heap, g: Heap, l: seq<nat>)
    requires forall i | 0 <= i < |l| :: SizeOf(h, l[i]) == SizeOf(g, l[i])
    ensures FreeBytes(h, l) == FreeBytes(g, l)
  {
    if l == [] {
    } else {
      assert forall i | 0 <= i < |l[1..]| :: l[1..][i] == l[i + 1];
      FreeBytesSame(h, g, l[1..]);
    }
  }

  lemma SameListed(h: Heap, g: Heap, b: nat)
    requires Inv(h) && Live(h, b) && h.blocks.Keys <= g.blocks.Keys
    requires forall x: nat | x in h.blocks && x != b :: g.blocks[x] == h.blocks[x]
    ensures forall i | 0 <= i < |h.list| :: SizeOf(h, h.list[i]) == SizeOf(g, h.list[i])
  {
  }

  lemma CarveFreeBytes(h: Heap, b: nat, req: nat)
    requires Inv(h) && Live(h, b) && CarveSafe(h, b, req)
    ensures var g := Carve(h, b, req);
            FreeBytes(g, g.list) == FreeBytes(h, h.list) + SizeOf(h, b) - SizeOf(g, b)
  {
    if SizeOf(h, b) - req > MINIMUM_BLOCK_SIZE {
      CutFreeBytes(h, b, req);
      var c, g := CutAt(h, b, req), Carve(h, b, req);
      FreeBytesSame(c, g, g.list);
    }
  }

  lemma CutFreeBytes(h: Heap, b: nat, req: nat)
    requires Inv(h) && Live(h, b) && STRUCT_SIZE <= req < h.blocks[b] - STRUCT_SIZE
    ensures var g := CutAt(h, b, req);
            && FreeBytes(g, InsertInto(g, g.list, b + req)) == FreeBytes(h, h.list) + SizeOf(h, b) - req
            && SizeOf(g, b) == req
  {
    var g := CutAt(h, b, req);
    CutListed(h, b, req);
    InsertFreeBytes(g, g.list, b + req);
  }

  lemma CutListed(h: Heap, b: nat, req: nat)
    requires Inv(h) && Live(h, b) && STRUCT_SIZE <= req < h.blocks[b] - STRUCT_SIZE
    ensures var g := CutAt(h, b, req);
            && g.list == h.list && FreeBytes(g, h.list) == FreeBytes(h, h.list)
            && SizeOf(g, b) == req && SizeOf(g, b + req) == SizeOf(h, b) - req
  {
    CutKeeps(h, b, req);
    SameListed(h, CutAt(h, b, req), b);
    FreeBytesSame(h, CutAt(h, b, req), h.list);
  }

  lemma AllocFreeBytes(h: Heap, n: nat)
    requires Inv(h) && n < WORD && Alloc(h, n).Granted? && SafeRequest(h, n)
    ensures var r := Alloc(h, n);
            FreeBytes(r.heap, r.heap.list) == FreeBytes(h, h.list) - SizeOf(r.heap, r.block)
  {
    var i := InsertPos(h, h.list, Adjusted(n));
    AdjustedFacts(n);
    UnlinkKeeps(h, i);
    RestFreeBytes(h, i);
    FreeBytesSame(h, Unlink(h, i), Unlink(h, i).list);
    CarveFreeBytes(Unlink(h, i), h.list[i], Adjusted(n));
  }

  // ---------------------------------------------------------------- runs

  datatype Op = AllocOp(n: nat) | FreeOp(b: nat)

  datatype Manager = Manager(heap: Heap, freeBytes: int)

  const INITIAL: Manager := Manager(EMPTY_HEAP, TOTAL_HEAP_SIZE)

  /** What the types and the callers guarantee: 32-bit requests, frees of live blocks. */
  predicate Callable(m: Manager, op: Op) {
    match op
    case AllocOp(n) => n < WORD
    case FreeOp(b) => Live(m.heap, b)
  }

  /** In addition no request is granted by wrapping around and cutting. */
  predicate LegalStep(m: Manager, op: Op) {
    Callable(m, op) && (op.AllocOp? && Alloc(m.heap, op.n).Granted? ==> SafeRequest(m.heap, op.n))
  }

  function Step(m: Manager, op: Op): Manager {
    match op
    case AllocOp(n) => (
      match Alloc(m.heap, n)
      case Refused => m
      case Granted(g, b) => Manager(g, m.freeBytes - SizeOf(g, b))
    )
    case FreeOp(b) => Manager(Free(m.heap, b), m.freeBytes + SizeOf(m.heap, b))
  }

  predicate Legal(m: Manager, ops: seq<Op>)
    decreases |ops|
  {
    ops == [] || (LegalStep(m, ops[0]) && Legal(Step(m, ops[0]), ops[1..]))
  }

  function Run(m: Manager, ops: seq<Op>): Manager
    decreases |ops|
  {
    if ops == [] then m else Run(Step(m, ops[0]), ops[1..])
  }

  predicate ManagerInv(m: Manager) {
    Inv(m.heap) && m.freeBytes == FreeBytes(m.heap, m.heap.list)
  }

  lemma StepKeeps(m: Manager, op: Op)
    requires ManagerInv(m) && LegalStep(m, op)
    ensures ManagerInv(Step(m, op)) && m.heap.blocks.Keys <= Step(m, op).heap.blocks.Keys
  {
    match op
    case AllocOp(n) =>
      if Alloc(m.heap, n).Granted? {
        AllocKeeps(m.heap, n);
        AllocFreeBytes(m.heap, n);
      }
    case FreeOp(b) =>
      FreeKeeps(m.heap, b);
      InsertFreeBytes(m.heap, m.heap.list, b);
      FreeBytesSame(m.heap, Free(m.heap, b), Free(m.heap, b).list);
  }

  /** One call keeps the heap sound and the counter exact if and only if it is not such a grant. */
  lemma StepSoundExactly(m: Manager, op: Op)
    requires ManagerInv(m) && Callable(m, op)
    ensures ManagerInv(Step(m, op)) <==> LegalStep(m, op)
  {
    if LegalStep(m, op) {
      StepKeeps(m, op);
    } else {
      GrantSoundExactly(m.heap, op.n);
    }
  }

  lemma {:induction false} RunKeeps(m: Manager, ops: seq<Op>)
    requires ManagerInv(m) && Legal(m, ops)
    ensures ManagerInv(Run(m, ops)) && m.heap.blocks.Keys <= Run(m, ops).heap.blocks.Keys
    decreases |ops|
  {
    if ops == [] {
    } else {
      StepKeeps(m, ops[0]);
      RunKeeps(Step(m, ops[0]), ops[1..]);
    }
  }

  /** After any run of allocations and frees of live blocks the blocks tile the heap, the free
      list is sorted by size without repetition, and the counter is the sum of the free sizes. */
  lemma HeapAfterAnyRun(ops: seq<Op>)
    requires Legal(INITIAL, ops)
    ensures var m := Run(INITIAL, ops);
            && Inv(m.heap)
            && (forall a: nat | a < TOTAL_HEAP_SIZE :: InExactlyOneBlock(m.heap, a))
            && m.freeBytes == FreeBytes(m.heap, m.heap.list)
  {
    assert FreeBytes(EMPTY_HEAP, [0]) == TOTAL_HEAP_SIZE by { assert [0][1..] == []; }
    RunKeeps(INITIAL, ops);
    var m := Run(INITIAL, ops);
    forall a: nat | a < TOTAL_HEAP_SIZE
      ensures InExactlyOneBlock(m.heap, a)
    {
      BlocksTile(m.heap, a);
    }
  }

  predicate AllCallable(m: Manager, ops: seq<Op>)
    decreases |ops|
  {
    ops == [] || (Callable(m, ops[0]) && AllCallable(Step(m, ops[0]), ops[1..]))
  }

  predicate AlwaysSound(m: Manager, ops: seq<Op>)
    decreases |ops|
  {
    ManagerInv(m) && (ops == [] || AlwaysSound(Step(m, ops[0]), ops[1..]))
  }

  lemma {:induction false} SoundAlongRun(m: Manager, ops: seq<Op>)
    requires ManagerInv(m) && AllCallable(m, ops)
    ensures AlwaysSound(m, ops) <==> Legal(m, ops)
    decreases |ops|
  {
    if ops == [] {
    } else {
      var next := Step(m, ops[0]);
      StepSoundExactly(m, ops[0]);
      if ManagerInv(next) {
        SoundAlongRun(next, ops[1..]);
      } else {
        assert !AlwaysSound(next, ops[1..]);
      }
    }
  }

  /** On any run of 32-bit requests and frees of live blocks, heap and counter are sound throughout
      if and only if no grant cuts off a block without room for its header. */
  lemma HeapSoundExactly(ops: seq<Op>)
    requires AllCallable(INITIAL, ops)
    ensures AlwaysSound(INITIAL, ops) <==> Legal(INITIAL, ops)
  {
    assert FreeBytes(EMPTY_HEAP, [0]) == TOTAL_HEAP_SIZE by { assert [0][1..] == []; }
    SoundAlongRun(INITIAL, ops);
  }

  // ---------------------------------------------------------------- what callers hold

  /** The blocks callers hold with their sizes, and how many bytes that is, as they can tell from what
      they were given and what they gave back. */
  datatype Book = Book(held: map<nat, nat>, bytes: int)

  function Booked(book: Book, m: Manager, op: Op): Book {
    match op
    case AllocOp(n) => (
      match Alloc(m.heap, n)
      case Refused => book
      case Granted(g, b) => Book(book.held[b := SizeOf(g, b)], book.bytes + SizeOf(g, b))
    )
    case FreeOp(b) =>
      if b in book.held then Book(book.held - {b}, book.bytes - book.held[b]) else book
  }

  function Bookkeeping(book: Book, m: Manager, ops: seq<Op>): Book
    decreases |ops|
  {
    if ops == [] then book else Bookkeeping(Booked(book, m, ops[0]), Step(m, ops[0]), ops[1..])
  }

  /** The live blocks are those held, with the same sizes, and the counter is what remains of the
      128 MiB. */
  ghost predicate Agrees(m: Manager, book: Book) {
    && (forall b: nat :: Live(m.heap, b) <==> b in book.held)
    && (forall b: nat | b in book.held :: book.held[b] == SizeOf(m.heap, b))
    && m.freeBytes == 0x800_0000 - book.bytes
  }

  lemma StepAgrees(m: Manager, book: Book, op: Op)
    requires ManagerInv(m) && LegalStep(m, op) && Agrees(m, book)
    ensures Agrees(Step(m, op), Booked(book, m, op))
  {
    match op
    case AllocOp(n) =>
      if Alloc(m.heap, n).Granted? { AllocKeeps(m.heap, n); }
    case FreeOp(b) => FreeKeeps(m.heap, b);
  }

  lemma {:induction false} RunAgrees(m: Manager, book: Book, ops: seq<Op>)
    requires ManagerInv(m) && Legal(m, ops) && Agrees(m, book)
    ensures Agrees(Run(m, ops), Bookkeeping(book, m, ops))
    decreases |ops|
  {
    if ops == [] {
    } else {
      StepAgrees(m, book, ops[0]);
      StepKeeps(m, ops[0]);
      RunAgrees(Step(m, ops[0]), Booked(book, m, ops[0]), ops[1..]);
    }
  }

  /** After any such run from the start the live blocks are exactly those granted and not given back
      since, each of the size it was granted with, and the counter is 128 MiB less their bytes. */
  lemma LiveIsHeld(ops: seq<Op>)
    requires Legal(INITIAL, ops)
    ensures Agrees(Run(INITIAL, ops), Bookkeeping(Book(map[], 0), INITIAL, ops))
  {
    assert FreeBytes(EMPTY_HEAP, [0]) == TOTAL_HEAP_SIZE by { assert [0][1..] == []; }
    RunAgrees(INITIAL, Book(map[], 0), ops);
  }

  // ---------------------------------------------------------------- refinement

  function ExtentOf(h: Heap, b: nat): Extent {
    Extent(b, SizeOf(h, b))
  }

  ghost function Owned(h: Heap): iset<Extent> {
    iset b: nat | Live(h, b) :: ExtentOf(h, b)
  }

  lemma OwnedSeparated(h: Heap)
    requires Inv(h)
    ensures Separated(Owned(h), TOTAL_HEAP_SIZE)
  {
    forall x, y | x in Owned(h) && y in Owned(h) && x != y
      ensures Apart(x, y)
    {
      assert Disjoint(h.blocks, x.start, y.start) && Disjoint(h.blocks, y.start, x.start);
    }
  }

  /** This allocator meets the same specification as the buddy allocator. */
  lemma FreeListAllocates(h: Heap, n: nat)
    requires Inv(h) && n < WORD && Alloc(h, n).Granted? && SafeRequest(h, n)
    ensures var r := Alloc(h, n);
            Allocates(Owned(h), ExtentOf(r.heap, r.block), Owned(r.heap), TOTAL_HEAP_SIZE)
  {
    var r := Alloc(h, n);
    AllocKeeps(h, n);
    OwnedSeparated(r.heap);
    forall x
      ensures x in Owned(r.heap) <==> x in Owned(h) || x == ExtentOf(r.heap, r.block)
    {
      if x in Owned(r.heap) { assert Live(r.heap, x.start) && x == ExtentOf(r.heap, x.start); }
      if x in Owned(h) { assert Live(h, x.start) && Live(r.heap, x.start) && x == ExtentOf(r.heap, x.start); }
      assert Live(r.heap, r.block);
    }
    assert ExtentOf(r.heap, r.block) !in Owned(h);
  }

  lemma FreeListFrees(h: Heap, b: nat)
    requires Inv(h) && Live(h, b)
    ensures Frees(Owned(h), ExtentOf(h, b), Owned(Free(h, b)))
  {
    FreeKeeps(h, b);
    var g := Free(h, b);
    forall x
      ensures x in Owned(g) <==> x in Owned(h) && x != ExtentOf(h, b)
    {
      if x in Owned(g) { assert Live(h, x.start) && x.start != b; }
      if x in Owned(h) && x != ExtentOf(h, b) { assert Live(g, x.start) && x == ExtentOf(g, x.start); }
    }
  }
}
