// The image the packer writes and what the kernel's loader makes of it
// (Toolchain/ModulePacker/main.c:54-121, Kernel/moduleLoader.c:11-31).
module ModuleImage {
  import opened Options
  import opened Arithmetic

  const WORD: nat := 0x1_0000_0000 // the count and the sizes are 32-bit fields
  const INT_LIMIT: nat := 0x8000_0000 // the loop counter is an int

  type Byte = b: int | 0 <= b < 256
  type Bytes = seq<Byte>

  // ---------------------------------------------------------------- 32-bit little-endian fields

  /** The value of a little-endian field. */
  function FromLe(b: Bytes): nat {
    if b == [] then 0 else b[0] + 256 * FromLe(b[1..])
  }

  function Power(k: nat): (p: nat)
    ensures p >= 1
  {
    if k == 0 then 1 else 256 * Power(k - 1)
  }

  lemma {:induction false} FieldBound(b: Bytes)
    ensures FromLe(b) < Power(|b|)
  {
    if b != [] { FieldBound(b[1..]); }
  }

  /** A field's value determines its bytes. */
  lemma {:induction false} SameField(a: Bytes, b: Bytes)
    requires |a| == |b| && FromLe(a) == FromLe(b)
    ensures a == b
  {
    if a == [] {
    } else {
      LowDigit(a[0], FromLe(a[1..]), b[0], FromLe(b[1..]));
      SameField(a[1..], b[1..]);
      assert a == [a[0]] + a[1..] && b == [b[0]] + b[1..];
    }
  }

  lemma LowDigit(a: Byte, x: nat, b: Byte, y: nat)
    requires a + 256 * x == b + 256 * y
    ensures a == b && x == y
  {
  }

  function FromLe32(b: Bytes): (r: nat)
    requires |b| == 4
    ensures r < WORD
  {
    FieldBound(b);
    assert Power(4) == WORD;
    FromLe(b)
  }

  /** What is left of `n` in a 32-bit field. */
  function Truncated(n: nat): nat {
    if n < WORD then n else n % 0x1_0000_0000
  }

  /** The four bytes a 32-bit little-endian field holds after `n` is stored in it. */
  ghost function Le32(n: nat): (r: Bytes)
    ensures |r| == 4 && FromLe32(r) == Truncated(n)
  {
    FieldExists(n);
    var r: Bytes :| |r| == 4 && FromLe32(r) == Truncated(n);
    r
  }

  lemma FieldExists(n: nat)
    ensures exists r: Bytes :: |r| == 4 && FromLe32(r) == Truncated(n)
  {
    var b := Digits(n, 4);
    assert Power(4) == WORD;
  }

  /** The low `k` bytes of `n`. */
  function Digits(n: nat, k: nat): (r: Bytes)
    ensures |r| == k && FromLe(r) == n % Power(k)
  {
    if k == 0 then []
    else
      var r := [n % 256] + Digits(n / 256, k - 1);
      assert r[1..] == Digits(n / 256, k - 1);
      ModPower(n, Power(k - 1));
      r
  }

  lemma ModPower(n: nat, p: nat)
    requires p >= 1
    ensures n % (256 * p) == n % 256 + 256 * (n / 256 % p)
  {
    var q, r := n / 256 / p, n / 256 % p;
    assert n / 256 == q * p + r;
    assert n == q * (256 * p) + (n % 256 + 256 * r);
    DivModUnique(n, 256 * p, q, n % 256 + 256 * r);
  }

  /** Every four bytes are the field of their value. */
  lemma FieldRoundTrip(b: Bytes)
    requires |b| == 4
    ensures Le32(FromLe32(b)) == b
  {
    SameField(Le32(FromLe32(b)), b);
  }

  /** The least significant byte comes first, when read and when stored. */
  lemma LeastByteFirst(b: Bytes, n: nat)
    requires |b| == 4 && n < 0x1_0000_0000
    ensures FromLe32(b) == b[0] as int + b[1] as int * 0x100 + b[2] as int * 0x1_0000 + b[3] as int * 0x100_0000
    ensures var r := Le32(n);
            n == r[0] as int + r[1] as int * 0x100 + r[2] as int * 0x1_0000 + r[3] as int * 0x100_0000
  {
    FourBytes(b);
    FourBytes(Le32(n));
  }

  lemma FourBytes(b: Bytes)
    requires |b| == 4
    ensures FromLe(b) == b[0] as int + b[1] as int * 0x100 + b[2] as int * 0x1_0000 + b[3] as int * 0x100_0000
  {
    var b1, b2, b3 := b[1..], b[2..], b[3..];
    assert b1[1..] == b2 && b2[1..] == b3 && b3[1..] == [];
    assert FromLe(b3) == b[3] && FromLe(b2) == b[2] as int + 256 * FromLe(b3);
  }

  // ---------------------------------------------------------------- the image

  ghost function Entries(ms: seq<Bytes>): Bytes {
    if ms == [] then [] else Le32(|ms[0]|) + (ms[0] + Entries(ms[1..]))
  }

  /** What the packer writes after the kernel: the number of modules, then each with its size. */
  ghost function Payload(ms: seq<Bytes>): Bytes {
    Le32(|ms|) + Entries(ms)
  }

  ghost function Image(kernel: Bytes, ms: seq<Bytes>): Bytes {
    kernel + Payload(ms)
  }

  /** Where the size field of module `i` starts. */
  function SizeFieldAt(ms: seq<Bytes>, i: nat): nat
    requires i <= |ms|
  {
    if i == 0 then 4 else SizeFieldAt(ms, i - 1) + 4 + |ms[i - 1]|
  }

  /** The image is the kernel, the count, and then, module after module and nothing between or behind
      them, the four bytes of its size and its own bytes. */
  lemma ImageLayout(kernel: Bytes, ms: seq<Bytes>)
    ensures var r, k := Image(kernel, ms), |kernel|;
            && |r| == k + SizeFieldAt(ms, |ms|) && Holds(r, 0, kernel) && Holds(r, k, Le32(|ms|))
            && forall i: nat | i < |ms| :: EntryThere(r, k, ms, i)
  {
    EntriesLength(ms);
    var r, front := Image(kernel, ms), kernel + Le32(|ms|);
    Regrouped(kernel, Le32(|ms|), Entries(ms));
    FrontHeld(r, kernel, Le32(|ms|), Entries(ms));
    EntriesThere(r, front, ms, |kernel|);
  }

  lemma Regrouped(x: Bytes, y: Bytes, z: Bytes)
    ensures x + (y + z) == (x + y) + z
  {
  }

  lemma FrontHeld(r: Bytes, x: Bytes, y: Bytes, z: Bytes)
    requires r == x + (y + z)
    ensures Holds(r, 0, x) && Holds(r, |x|, y)
  {
  }

  lemma EntriesThere(r: Bytes, front: Bytes, ms: seq<Bytes>, k: nat)
    requires r == front + Entries(ms) && |front| == k + 4
    ensures forall i: nat | i < |ms| :: EntryThere(r, k, ms, i)
  {
    forall i: nat | i < |ms|
      ensures EntryThere(r, k, ms, i)
    {
      EntryAt(r, front, ms, i, k);
    }
  }

  /** Behind `k` bytes of kernel, module `i` stands where the layout says. */
  predicate EntryThere(r: Bytes, k: nat, ms: seq<Bytes>, i: nat)
    requires i < |ms|
  {
    var at := k + SizeFieldAt(ms, i);
    Within(r, at, 4) && Field(r, at) == Truncated(|ms[i]|) && Holds(r, at + 4, ms[i])
  }

  lemma {:induction false} EntriesLength(ms: seq<Bytes>)
    ensures |Entries(ms)| + 4 == SizeFieldAt(ms, |ms|)
  {
    if ms == [] {
    } else {
      EntriesLength(ms[1..]);
      ShiftedField(ms, |ms|);
    }
  }

  /** Without the first module the fields lie nearer to the start. */
  lemma {:induction false} ShiftedField(ms: seq<Bytes>, i: nat)
    requires 1 <= i <= |ms|
    ensures SizeFieldAt(ms, i) == SizeFieldAt(ms[1..], i - 1) + 4 + |ms[0]|
    decreases i
  {
    if i == 1 {
    } else {
      ShiftedField(ms, i - 1);
      assert ms[1..][i - 2] == ms[i - 1];
    }
  }

  /** Entry `i` behind a prefix that ends with the count, the four bytes after the first `k`. */
  lemma {:induction false} EntryAt(r: Bytes, prefix: Bytes, ms: seq<Bytes>, i: nat, k: nat)
    requires i < |ms| && |prefix| == k + 4 && r == prefix + Entries(ms)
    ensures EntryThere(r, k, ms, i)
    decreases |ms|
  {
    if i == 0 {
      Regrouped(prefix, Le32(|ms[0]|), ms[0] + Entries(ms[1..]));
      FirstEntryThere(r, prefix, ms[0], Entries(ms[1..]));
    } else {
      BehindFirst(r, prefix, ms);
      EntryAt(r, prefix + Le32(|ms[0]|) + ms[0], ms[1..], i - 1, k + 4 + |ms[0]|);
      EntryMoved(r, k, ms, i);
    }
  }

  lemma BehindFirst(r: Bytes, prefix: Bytes, ms: seq<Bytes>)
    requires ms != [] && r == prefix + Entries(ms)
    ensures r == (prefix + Le32(|ms[0]|) + ms[0]) + Entries(ms[1..])
  {
    Regrouped(prefix, Le32(|ms[0]|), ms[0] + Entries(ms[1..]));
    Regrouped(prefix + Le32(|ms[0]|), ms[0], Entries(ms[1..]));
  }

  lemma EntryMoved(r: Bytes, k: nat, ms: seq<Bytes>, i: nat)
    requires 1 <= i < |ms| && EntryThere(r, k + 4 + |ms[0]|, ms[1..], i - 1)
    ensures EntryThere(r, k, ms, i)
  {
    ShiftedField(ms, i);
  }

  lemma FirstEntryThere(r: Bytes, prefix: Bytes, m: Bytes, rest: Bytes)
    requires r == prefix + (Le32(|m|) + (m + rest)) && r == (prefix + Le32(|m|)) + (m + rest)
    ensures Within(r, |prefix|, 4) && Field(r, |prefix|) == Truncated(|m|) && Holds(r, |prefix| + 4, m)
  {
    FrontHeld(r, prefix, Le32(|m|), m + rest);
    FrontHeld(r, prefix + Le32(|m|), m, rest);
  }

  predicate SizesFit(ms: seq<Bytes>) {
    forall i | 0 <= i < |ms| :: |ms[i]| < WORD
  }

  /** The module list at the start of `b`, read by the same rule as the loader's. */
  function Unpack(b: Bytes): Option<seq<Bytes>> {
    if |b| < 4 then None else UnpackEntries(b[4..], FromLe32(b[..4]))
  }

  function UnpackEntries(b: Bytes, count: nat): Option<seq<Bytes>>
    decreases count
  {
    if count == 0 then Some([])
    else if |b| < 4 then None
    else
      var size := FromLe32(b[..4]);
      if 4 + size > |b| then None
      else
        match UnpackEntries(b[4 + size..], count - 1)
        case None => None
        case Some(rest) => Some([b[4..4 + size]] + rest)
  }

  lemma PrefixSplit(b: Bytes, x: Bytes, y: Bytes)
    requires x + y <= b
    ensures x <= b && b[..|x|] == x && y <= b[|x|..]
  {
    assert (x + y)[..|x|] == x && (x + y)[|x|..] == y;
    assert b[..|x| + |y|][|x|..] == b[|x|..][..|y|];
  }

  lemma FirstEntry(b: Bytes, ms: seq<Bytes>)
    requires ms != [] && SizesFit(ms) && Entries(ms) <= b
    ensures var size := |ms[0]|;
            && 4 + size <= |b| && FromLe32(b[..4]) == size && b[4..4 + size] == ms[0]
            && Entries(ms[1..]) <= b[4 + size..]
  {
    var size, rest := |ms[0]|, Entries(ms[1..]);
    PrefixSplit(b, Le32(size), ms[0] + rest);
    PrefixSplit(b[4..], ms[0], rest);
    assert b[4..][size..] == b[4 + size..] && b[4..][..size] == b[4..4 + size];
  }

  lemma {:induction false} EntriesUnpack(b: Bytes, ms: seq<Bytes>)
    requires SizesFit(ms) && Entries(ms) <= b
    ensures UnpackEntries(b, |ms|) == Some(ms)
    decreases |ms|
  {
    if ms == [] {
    } else {
      FirstEntry(b, ms);
      EntriesUnpack(b[4 + |ms[0]|..], ms[1..]);
      assert ms == [ms[0]] + ms[1..];
    }
  }

  lemma {:induction false} UnpackedEntries(b: Bytes, count: nat)
    requires UnpackEntries(b, count).Some?
    ensures var ms := UnpackEntries(b, count).value;
            |ms| == count && SizesFit(ms) && Entries(ms) <= b
    decreases count
  {
    if count == 0 {
    } else {
      var size := FromLe32(b[..4]);
      UnpackedEntries(b[4 + size..], count - 1);
      var rest := UnpackEntries(b[4 + size..], count - 1).value;
      EntryJoins(b, b[4..4 + size], rest);
      assert UnpackEntries(b, count).value == [b[4..4 + size]] + rest;
    }
  }

  /** An entry before the entries of `rest`. */
  lemma EntryJoins(b: Bytes, m: Bytes, rest: seq<Bytes>)
    requires 4 + |m| <= |b| && FromLe32(b[..4]) == |m| && m == b[4..4 + |m|]
    requires SizesFit(rest) && Entries(rest) <= b[4 + |m|..]
    ensures var ms := [m] + rest; |ms| == |rest| + 1 && SizesFit(ms) && Entries(ms) <= b
  {
    var ms := [m] + rest;
    assert ms[1..] == rest;
    FieldRoundTrip(b[..4]);
    ThreeParts(b, b[..4], m, Entries(rest));
  }

  lemma ThreeParts(b: Bytes, x: Bytes, y: Bytes, z: Bytes)
    requires |x| + |y| <= |b| && x == b[..|x|] && y == b[|x|..|x| + |y|] && z <= b[|x| + |y|..]
    ensures x + (y + z) <= b
  {
    assert b == x + (y + b[|x| + |y|..]);
  }

  /** Packing and parsing are inverse: `b` parses as `ms` exactly when it starts with the payload
      the packer writes for `ms` and no count or size is truncated by its 32-bit field. */
  lemma UnpackExactly(b: Bytes, ms: seq<Bytes>)
    ensures Unpack(b) == Some(ms) <==> |ms| < WORD && SizesFit(ms) && Payload(ms) <= b
  {
    if Unpack(b) == Some(ms) {
      UnpackedEntries(b[4..], FromLe32(b[..4]));
      FieldRoundTrip(b[..4]);
      assert b == b[..4] + b[4..];
    }
    if |ms| < WORD && SizesFit(ms) && Payload(ms) <= b {
      var p := Payload(ms);
      assert b[..|p|] == p;
      assert b[..4] == p[..4] == Le32(|ms|);
      assert b[4..|p|] == p[4..] == Entries(ms);
      FieldRoundTrip(b[..4]);
      EntriesUnpack(b[4..], ms);
    }
  }

  /** Whatever follows it in memory, the packer's output parses back to the modules packed
      exactly when every size and the count fit 32 bits. */
  lemma PackedParsesBackExactly(ms: seq<Bytes>, rest: Bytes)
    ensures Unpack(Payload(ms) + rest) == Some(ms) <==> |ms| < WORD && SizesFit(ms)
  {
    UnpackExactly(Payload(ms) + rest, ms);
  }

  // ---------------------------------------------------------------- the loader's effect on memory

  predicate Within(m: Bytes, from: nat, size: nat) {
    from + size <= |m|
  }

  predicate Clear(a: nat, aSize: nat, b: nat, bSize: nat) {
    a + aSize <= b || b + bSize <= a
  }

  function Copied(m: Bytes, dst: nat, src: nat, size: nat): (r: Bytes)
    requires Within(m, dst, size) && Within(m, src, size)
    ensures |r| == |m|
  {
    seq(|m|, a requires 0 <= a < |m| => if dst <= a < dst + size then m[src + a - dst] else m[a])
  }

  function Field(m: Bytes, at: nat): (r: nat)
    requires Within(m, at, 4)
    ensures r < WORD
  {
    FromLe32(m[at..at + 4])
  }

  /** Memory after loading one module to each target in turn, or None when a field, a module or a
      target reaches outside memory or a module overlaps its own target. */
  function LoadFrom(m: Bytes, cursor: nat, targets: seq<nat>): Option<Bytes>
    decreases |targets|
  {
    if targets == [] then Some(m)
    else if !Within(m, cursor, 4) then None
    else
      var size := Field(m, cursor);
      if !Within(m, cursor + 4, size) || !Within(m, targets[0], size) || !Clear(targets[0], size, cursor + 4, size) then None
      else LoadFrom(Copied(m, targets[0], cursor + 4, size), cursor + 4 + size, targets[1..])
  }

  function Load(m: Bytes, payload: nat, table: seq<nat>): Option<Bytes> {
    if !Within(m, payload, 4) then None
    else
      var count := Field(m, payload);
      if count > |table| || count >= INT_LIMIT then None else LoadFrom(m, payload + 4, table[..count])
  }

  /** Each target lies in memory, clear of the other targets and of the bytes still to be read. */
  ghost predicate Placed(m: Bytes, ms: seq<Bytes>, targets: seq<nat>, from: nat, size: nat) {
    && |targets| == |ms|
    && (forall i | 0 <= i < |ms| :: Within(m, targets[i], |ms[i]|) && Clear(targets[i], |ms[i]|, from, size))
    && PairwiseClear(ms, targets)
  }

  ghost predicate PairwiseClear(ms: seq<Bytes>, targets: seq<nat>)
    requires |targets| == |ms|
  {
    forall i, j | 0 <= i < j < |ms| :: Clear(targets[i], |ms[i]|, targets[j], |ms[j]|)
  }

  predicate Holds(m: Bytes, at: nat, b: Bytes) {
    Within(m, at, |b|) && m[at..at + |b|] == b
  }

  ghost predicate Outside(a: nat, ms: seq<Bytes>, targets: seq<nat>)
    requires |targets| == |ms|
  {
    forall i | 0 <= i < |ms| :: Clear(targets[i], |ms[i]|, a, 1)
  }

  /** Every module at its target, and nothing else touched. */
  ghost predicate LoadedExactly(m: Bytes, r: Bytes, ms: seq<Bytes>, targets: seq<nat>)
    requires |targets| == |ms|
  {
    && |r| == |m|
    && (forall i | 0 <= i < |ms| :: Holds(r, targets[i], ms[i]))
    && (forall a: nat | a < |m| && Outside(a, ms, targets) :: r[a] == m[a])
  }

  /** A copy that keeps clear of a region leaves it as it was. */
  lemma CopyKeeps(m: Bytes, dst: nat, src: nat, size: nat, at: nat, b: Bytes)
    requires Within(m, dst, size) && Within(m, src, size) && Holds(m, at, b) && Clear(dst, size, at, |b|)
    ensures Holds(Copied(m, dst, src, size), at, b)
  {
    var r := Copied(m, dst, src, size);
    forall a | at <= a < at + |b|
      ensures r[a] == m[a]
    {
    }
    assert r[at..at + |b|] == m[at..at + |b|];
  }

  lemma CopyPuts(m: Bytes, dst: nat, src: nat, b: Bytes)
    requires Within(m, dst, |b|) && Holds(m, src, b)
    ensures Holds(Copied(m, dst, src, |b|), dst, b)
  {
    assert Copied(m, dst, src, |b|)[dst..dst + |b|] == b;
  }

  lemma EntryHeld(m: Bytes, cursor: nat, ms: seq<Bytes>)
    requires ms != [] && SizesFit(ms) && Holds(m, cursor, Entries(ms))
    ensures Within(m, cursor, 4) && Field(m, cursor) == |ms[0]| && Holds(m, cursor + 4, ms[0])
    ensures Holds(m, cursor + 4 + |ms[0]|, Entries(ms[1..]))
    ensures |Entries(ms)| == 4 + |ms[0]| + |Entries(ms[1..])|
  {
    TripleHeld(m, cursor, Entries(ms), |ms[0]|, ms[0], Entries(ms[1..]));
  }

  lemma TripleHeld(m: Bytes, at: nat, e: Bytes, size: nat, x: Bytes, y: Bytes)
    requires size < WORD && e == Le32(size) + (x + y) && Holds(m, at, e)
    ensures Within(m, at, 4) && Field(m, at) == size && Holds(m, at + 4, x) && Holds(m, at + 4 + |x|, y)
    ensures |e| == 4 + |x| + |y|
  {
    HoldsSplit(m, at, Le32(size), x + y);
    HoldsSplit(m, at + 4, x, y);
  }

  lemma HoldsSplit(m: Bytes, at: nat, x: Bytes, y: Bytes)
    requires Holds(m, at, x + y)
    ensures Holds(m, at, x) && Holds(m, at + |x|, y)
  {
    assert m[at..at + |x|] == (x + y)[..|x|] == x;
    assert m[at + |x|..at + |x| + |y|] == (x + y)[|x|..] == y;
  }

  lemma {:induction false} LoadEntries(m: Bytes, cursor: nat, ms: seq<Bytes>, targets: seq<nat>) returns (r: Bytes)
    requires SizesFit(ms) && Holds(m, cursor, Entries(ms)) && Placed(m, ms, targets, cursor, |Entries(ms)|)
    ensures LoadFrom(m, cursor, targets) == Some(r) && LoadedExactly(m, r, ms, targets)
    decreases |ms|
  {
    if ms == [] {
      r := m;
      NothingLoaded(m, targets);
    } else {
      var next := LoadHead(m, cursor, ms, targets);
      r := LoadEntries(next, cursor + 4 + |ms[0]|, ms[1..], targets[1..]);
      LoadRest(m, next, r, cursor, ms, targets);
    }
  }

  lemma LoadHead(m: Bytes, cursor: nat, ms: seq<Bytes>, targets: seq<nat>) returns (next: Bytes)
    requires ms != [] && SizesFit(ms) && Holds(m, cursor, Entries(ms)) && Placed(m, ms, targets, cursor, |Entries(ms)|)
    ensures Within(m, targets[0], |ms[0]|) && Within(m, cursor + 4, |ms[0]|) && PairwiseClear(ms, targets)
    ensures next == Copied(m, targets[0], cursor + 4, |ms[0]|) && Holds(next, targets[0], ms[0])
    ensures Field(m, cursor) == |ms[0]| && Clear(targets[0], |ms[0]|, cursor + 4, |ms[0]|)
    ensures Holds(next, cursor + 4 + |ms[0]|, Entries(ms[1..]))
    ensures Placed(next, ms[1..], targets[1..], cursor + 4 + |ms[0]|, |Entries(ms[1..])|)
  {
    EntryHeld(m, cursor, ms);
    next := LoadFirst(m, cursor, ms, targets, Entries(ms[1..]));
  }

  lemma LoadRest(m: Bytes, next: Bytes, r: Bytes, cursor: nat, ms: seq<Bytes>, targets: seq<nat>)
    requires ms != [] && |targets| == |ms| && PairwiseClear(ms, targets)
    requires Within(m, targets[0], |ms[0]|) && Within(m, cursor + 4, |ms[0]|)
    requires Field(m, cursor) == |ms[0]| && Clear(targets[0], |ms[0]|, cursor + 4, |ms[0]|)
    requires next == Copied(m, targets[0], cursor + 4, |ms[0]|) && Holds(next, targets[0], ms[0])
    requires LoadFrom(next, cursor + 4 + |ms[0]|, targets[1..]) == Some(r)
    requires LoadedExactly(next, r, ms[1..], targets[1..])
    ensures LoadFrom(m, cursor, targets) == Some(r) && LoadedExactly(m, r, ms, targets)
  {
    LoadFromStep(m, cursor, targets, |ms[0]|, r);
    FirstStays(m, next, r, cursor, ms, targets);
  }

  lemma NothingLoaded(m: Bytes, targets: seq<nat>)
    requires targets == []
    ensures LoadedExactly(m, m, [], targets)
  {
  }

  lemma LoadFromStep(m: Bytes, cursor: nat, targets: seq<nat>, size: nat, r: Bytes)
    requires targets != [] && Within(m, cursor, 4) && Field(m, cursor) == size && Within(m, cursor + 4, size)
    requires Within(m, targets[0], size) && Clear(targets[0], size, cursor + 4, size)
    requires LoadFrom(Copied(m, targets[0], cursor + 4, size), cursor + 4 + size, targets[1..]) == Some(r)
    ensures LoadFrom(m, cursor, targets) == Some(r)
  {
  }

  /** Loading the first module copies it and leaves the entries after it as they were. */
  lemma LoadFirst(m: Bytes, cursor: nat, ms: seq<Bytes>, targets: seq<nat>, tail: Bytes) returns (next: Bytes)
    requires ms != [] && Within(m, cursor, 4) && Field(m, cursor) == |ms[0]| && Holds(m, cursor + 4, ms[0])
    requires Holds(m, cursor + 4 + |ms[0]|, tail) && Placed(m, ms, targets, cursor, 4 + |ms[0]| + |tail|)
    ensures next == Copied(m, targets[0], cursor + 4, |ms[0]|)
    ensures Within(m, targets[0], |ms[0]|) && PairwiseClear(ms, targets)
    ensures Holds(next, targets[0], ms[0]) && Holds(next, cursor + 4 + |ms[0]|, tail)
    ensures Placed(next, ms[1..], targets[1..], cursor + 4 + |ms[0]|, |tail|)
  {
    var size := |ms[0]|;
    next := Copied(m, targets[0], cursor + 4, size);
    CopyPuts(m, targets[0], cursor + 4, ms[0]);
    CopyKeeps(m, targets[0], cursor + 4, size, cursor + 4 + size, tail);
    LaterPlaced(m, next, ms, targets, cursor, |tail|);
  }

  lemma LaterPlaced(m: Bytes, next: Bytes, ms: seq<Bytes>, targets: seq<nat>, cursor: nat, tail: nat)
    requires ms != [] && |next| == |m| && Placed(m, ms, targets, cursor, 4 + |ms[0]| + tail)
    ensures Placed(next, ms[1..], targets[1..], cursor + 4 + |ms[0]|, tail)
  {
    var size := |ms[0]|;
    forall i | 0 <= i < |ms[1..]|
      ensures Within(next, targets[1..][i], |ms[1..][i]|)
      ensures Clear(targets[1..][i], |ms[1..][i]|, cursor + 4 + size, tail)
    {
      assert Within(m, targets[i + 1], |ms[i + 1]|);
      assert Clear(targets[i + 1], |ms[i + 1]|, cursor, 4 + size + tail);
    }
    forall i, j | 0 <= i < j < |ms[1..]|
      ensures Clear(targets[1..][i], |ms[1..][i]|, targets[1..][j], |ms[1..][j]|)
    {
      assert Clear(targets[i + 1], |ms[i + 1]|, targets[j + 1], |ms[j + 1]|);
    }
  }

  lemma FirstHeld(m: Bytes, next: Bytes, r: Bytes, ms: seq<Bytes>, targets: seq<nat>)
    requires ms != [] && |targets| == |ms| && PairwiseClear(ms, targets)
    requires |next| == |m| && Holds(next, targets[0], ms[0])
    requires LoadedExactly(next, r, ms[1..], targets[1..])
    ensures Holds(r, targets[0], ms[0])
  {
    var b := ms[0];
    forall a | targets[0] <= a < targets[0] + |b|
      ensures r[a] == next[a]
    {
      forall i | 0 <= i < |ms[1..]|
        ensures Clear(targets[1..][i], |ms[1..][i]|, a, 1)
      {
        assert Clear(targets[0], |ms[0]|, targets[i + 1], |ms[i + 1]|);
      }
      assert Outside(a, ms[1..], targets[1..]);
    }
    assert r[targets[0]..targets[0] + |b|] == next[targets[0]..targets[0] + |b|] == b;
  }

  /** Loading the later modules leaves the first one in place. */
  lemma FirstStays(m: Bytes, next: Bytes, r: Bytes, cursor: nat, ms: seq<Bytes>, targets: seq<nat>)
    requires ms != [] && |targets| == |ms| && PairwiseClear(ms, targets)
    requires Within(m, targets[0], |ms[0]|) && Within(m, cursor + 4, |ms[0]|)
    requires next == Copied(m, targets[0], cursor + 4, |ms[0]|) && Holds(next, targets[0], ms[0])
    requires LoadedExactly(next, r, ms[1..], targets[1..])
    ensures LoadedExactly(m, r, ms, targets)
  {
    FirstHeld(m, next, r, ms, targets);
    forall i | 0 <= i < |ms|
      ensures Holds(r, targets[i], ms[i])
    {
      if i > 0 { assert Holds(r, targets[1..][i - 1], ms[1..][i - 1]); }
    }
    forall a: nat | a < |m| && Outside(a, ms, targets)
      ensures r[a] == m[a]
    {
      forall i | 0 <= i < |ms[1..]|
        ensures Clear(targets[1..][i], |ms[1..][i]|, a, 1)
      {
        assert Clear(targets[i + 1], |ms[i + 1]|, a, 1);
      }
      assert Outside(a, ms[1..], targets[1..]) && Clear(targets[0], |ms[0]|, a, 1);
    }
  }

  /** The loader puts what memory parses to at the targets: each module's exact bytes, nothing
      else changed, for targets clear of each other and of the payload. */
  lemma LoadPlacesWhatParses(m: Bytes, payload: nat, ms: seq<Bytes>, table: seq<nat>)
    requires payload <= |m| && Unpack(m[payload..]) == Some(ms)
    requires |ms| < INT_LIMIT && |ms| <= |table|
    requires Placed(m, ms, table[..|ms|], payload, |Payload(ms)|)
    ensures Load(m, payload, table).Some?
    ensures LoadedExactly(m, Load(m, payload, table).value, ms, table[..|ms|])
  {
    var targets := table[..|ms|];
    UnpackExactly(m[payload..], ms);
    assert Holds(m, payload, Payload(ms));
    HoldsSplit(m, payload, Le32(|ms|), Entries(ms));
    forall i | 0 <= i < |ms|
      ensures Clear(targets[i], |ms[i]|, payload + 4, |Entries(ms)|)
    {
      assert Clear(targets[i], |ms[i]|, payload, |Payload(ms)|);
    }
    var r := LoadEntries(m, payload + 4, ms, targets);
  }

  /** Pack then load: with the image in memory at `base`, every size below 2^32 and targets
      clear of each other and of the payload, loading restores each module at its target. */
  lemma PackThenLoad(m: Bytes, base: nat, kernel: Bytes, ms: seq<Bytes>, table: seq<nat>)
    requires Holds(m, base, Image(kernel, ms))
    requires SizesFit(ms) && |ms| < INT_LIMIT && |ms| <= |table|
    requires Placed(m, ms, table[..|ms|], base + |kernel|, |Payload(ms)|)
    ensures Load(m, base + |kernel|, table).Some?
    ensures LoadedExactly(m, Load(m, base + |kernel|, table).value, ms, table[..|ms|])
  {
    var image, at := Image(kernel, ms), base + |kernel|;
    var h := m[base..base + |image|];
    assert m[at..at + |Payload(ms)|] == h[|kernel|..] == Payload(ms);
    assert m[at..] == Payload(ms) + m[at + |Payload(ms)|..];
    PackedParsesBackExactly(ms, m[at + |Payload(ms)|..]);
    LoadPlacesWhatParses(m, at, ms, table);
  }
}
