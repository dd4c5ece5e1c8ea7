// The pipe at the granularity the code really has (Kernel/utils/pipes.c:129-182).
//
// runScheduler enables interrupts (Kernel/asm/libasm.asm:72-74), so what a woken call does next can
// be pre-empted after every byte, and between leaving its loop and waking the other end.  Fresh calls
// run with interrupts off up to their end or their block and stay single steps.
module PipeInterleaving {
  import Calls = PipeSpec
  import opened PipeSpec

  /** A woken writer stores its first byte without looking; `Leaving` is past the loop and before the
      wake. */
  datatype WriterAt = Ready | Asleep(rest: Bytes) | Roused(rest: Bytes) | Looping(rest: Bytes) | Leaving

  datatype ReaderAt = Free | Blocked(single: bool) | Taking(single: bool) | Parting

  datatype Scene = Scene(
    content: Bytes,
    slot: Slot,
    readOpen: bool,
    writeOpen: bool,
    writer: WriterAt,
    reader: ReaderAt,
    sent: Bytes,
    got: Bytes)

  const START: Scene := Scene([], NoOne, true, true, Ready, Free, [], [])

  datatype Move =
    | Call(s: Calls.Step) // a fresh call, or the closing of an end
    | StoreByte
    | BlockAgain
    | LeaveWrite
    | WakeByWriter
    | TakeByte
    | LeaveRead
    | WakeByReader

  predicate Enabled(w: Scene, m: Move) {
    match m
    case Call(Write(_)) => w.writer.Ready? && w.writeOpen
    case Call(Read(_)) => w.reader.Free? && w.readOpen
    case Call(CloseWriter) => w.writer.Ready? && w.writeOpen
    case Call(CloseReader) => w.reader.Free? && w.readOpen
    case Call(_) => false
    case StoreByte => (w.writer.Roused? || (w.writer.Looping? && |w.content| != PIPE_SIZE)) && w.writer.rest != []
    case BlockAgain => w.writer.Looping? && w.writer.rest != [] && |w.content| == PIPE_SIZE
    case LeaveWrite => w.writer == Looping([])
    case WakeByWriter => w.writer.Leaving?
    case TakeByte => w.reader.Taking? && w.content != []
    case LeaveRead => w.reader.Taking? && w.content == []
    case WakeByReader => w.reader.Parting?
  }

  function Rouse(w: Scene): Scene {
    match w.slot
    case NoOne => w
    case WriterWaits => w.(slot := NoOne, writer := if w.writer.Asleep? then Roused(w.writer.rest) else w.writer)
    case ReaderWaits => w.(slot := NoOne, reader := if w.reader.Blocked? then Taking(w.reader.single) else w.reader)
  }

  function AfterCall(w: Scene, s: Calls.Step): Scene {
    match s
    case Write(b) =>
      if !w.readOpen && |w.content| == PIPE_SIZE then w
      else
        var k := Room(w.content, b, false);
        var v := w.(sent := w.sent + b, content := w.content + b[..k]);
        if k < |b| then v.(slot := WriterWaits, writer := Asleep(b[k..])) else Rouse(v)
    case Read(single) =>
      if w.content == [] then
        if !w.writeOpen then w else w.(slot := ReaderWaits, reader := Blocked(single))
      else
        var k := if single then 1 else |w.content|;
        Rouse(w.(content := w.content[k..], got := w.got + w.content[..k]))
    case CloseWriter => Rouse(w.(writeOpen := false))
    case CloseReader => Rouse(w.(readOpen := false))
    case _ => w
  }

  function Next(w: Scene, m: Move): Scene
    requires Enabled(w, m)
  {
    match m
    case Call(s) => AfterCall(w, s)
    case StoreByte => w.(content := w.content + [w.writer.rest[0]], writer := Looping(w.writer.rest[1..]))
    case BlockAgain => w.(slot := WriterWaits, writer := Asleep(w.writer.rest))
    case LeaveWrite => w.(writer := Leaving)
    case WakeByWriter => Rouse(w.(writer := Ready))
    case TakeByte =>
      w.(content := w.content[1..], got := w.got + [w.content[0]], reader := if w.reader.single then Parting else w.reader)
    case LeaveRead => w.(reader := Parting)
    case WakeByReader => Rouse(w.(reader := Free))
  }

  predicate AllEnabled(w: Scene, moves: seq<Move>)
    decreases |moves|
  {
    moves == [] || (Enabled(w, moves[0]) && AllEnabled(Next(w, moves[0]), moves[1..]))
  }

  function Run(w: Scene, moves: seq<Move>): Scene
    requires AllEnabled(w, moves)
    decreases |moves|
  {
    if moves == [] then w else Run(Next(w, moves[0]), moves[1..])
  }

  // ---------------------------------------------------------------- order

  function Rest(w: WriterAt): Bytes {
    if w.Ready? || w.Leaving? then [] else w.rest
  }

  predicate InOrder(w: Scene) {
    && w.sent == w.got + w.content + Rest(w.writer)
    && (w.writer.Asleep? || w.writer.Roused? ==> w.writer.rest != [])
  }

  lemma OrderKept(w: Scene, m: Move)
    requires InOrder(w) && Enabled(w, m)
    ensures InOrder(Next(w, m))
  {
    match m
    case Call(s) => CallKeepsOrder(w, s);
    case StoreByte => StoreOrder(w.got, w.content, w.writer.rest);
    case TakeByte => TakeOrder(w.got, w.content, Rest(w.writer));
    case _ =>
  }

  lemma CallKeepsOrder(w: Scene, s: Calls.Step)
    requires InOrder(w) && Enabled(w, Call(s))
    ensures InOrder(AfterCall(w, s))
  {
    match s
    case Write(b) => FillOrder(w.got, w.content, b, Room(w.content, b, false));
    case Read(single) =>
      if w.content != [] { DrainOrder(w.got, w.content, Rest(w.writer), if single then 1 else |w.content|); }
    case _ =>
  }

  lemma StoreOrder(got: Bytes, content: Bytes, rest: Bytes)
    requires rest != []
    ensures got + content + rest == got + (content + [rest[0]]) + rest[1..]
  {
    assert rest == [rest[0]] + rest[1..];
  }

  lemma TakeOrder(got: Bytes, content: Bytes, rest: Bytes)
    requires content != []
    ensures got + content + rest == (got + [content[0]]) + content[1..] + rest
  {
    assert content == [content[0]] + content[1..];
  }

  lemma FillOrder(got: Bytes, content: Bytes, b: Bytes, k: nat)
    requires k <= |b|
    ensures (got + content + []) + b == got + (content + b[..k]) + b[k..]
    ensures k == |b| ==> (got + content + []) + b == got + (content + b[..k]) + []
  {
    assert b == b[..k] + b[k..];
  }

  lemma DrainOrder(got: Bytes, content: Bytes, rest: Bytes, k: nat)
    requires k <= |content|
    ensures got + content + rest == (got + content[..k]) + content[k..] + rest
  {
    assert content == content[..k] + content[k..];
  }

  lemma {:induction false} OrderAlongRun(w: Scene, moves: seq<Move>)
    requires InOrder(w) && AllEnabled(w, moves)
    ensures InOrder(Run(w, moves))
    decreases |moves|
  {
    if moves == [] {
    } else {
      OrderKept(w, moves[0]);
      OrderAlongRun(Next(w, moves[0]), moves[1..]);
    }
  }

  /** However the continuations are interrupted, the bytes read are a prefix of the bytes written, and
      what is stored and what the writer still holds is exactly the rest. */
  lemma FifoByteByByte(moves: seq<Move>)
    requires AllEnabled(START, moves)
    ensures var w := Run(START, moves); w.got <= w.sent && w.sent == w.got + w.content + Rest(w.writer)
  {
    OrderAlongRun(START, moves);
    var w := Run(START, moves);
    assert w.sent == w.got + (w.content + Rest(w.writer));
  }

  // ---------------------------------------------------------------- overflow

  /** The ring is within its bounds, and a roused writer, which does not look, finds room. */
  predicate RingSafe(w: Scene) {
    |w.content| <= PIPE_SIZE && (w.writer.Roused? ==> |w.content| < PIPE_SIZE)
  }

  /** A sleeping writer is roused although the ring is full: by a reader that left its loop before the
      writer fell asleep, or by one that closes. */
  predicate RousesOntoFull(w: Scene, m: Move) {
    && (m.WakeByReader? || m == Call(CloseReader))
    && w.slot.WriterWaits? && w.writer.Asleep? && |w.content| == PIPE_SIZE
  }

  lemma SafeStepExactly(w: Scene, m: Move)
    requires RingSafe(w) && Enabled(w, m)
    ensures RingSafe(Next(w, m)) <==> !RousesOntoFull(w, m)
  {
  }

  predicate AlwaysRingSafe(w: Scene, moves: seq<Move>)
    requires AllEnabled(w, moves)
    decreases |moves|
  {
    RingSafe(w) && (moves == [] || AlwaysRingSafe(Next(w, moves[0]), moves[1..]))
  }

  predicate SomeRousesOntoFull(w: Scene, moves: seq<Move>)
    requires AllEnabled(w, moves)
    decreases |moves|
  {
    moves != [] && (RousesOntoFull(w, moves[0]) || SomeRousesOntoFull(Next(w, moves[0]), moves[1..]))
  }

  lemma {:induction false} SafeAlongRun(w: Scene, moves: seq<Move>)
    requires RingSafe(w) && AllEnabled(w, moves)
    ensures AlwaysRingSafe(w, moves) <==> !SomeRousesOntoFull(w, moves)
    decreases |moves|
  {
    if moves == [] {
    } else {
      var v := Next(w, moves[0]);
      SafeStepExactly(w, moves[0]);
      if RingSafe(v) {
        SafeAlongRun(v, moves[1..]);
      } else {
        assert !AlwaysRingSafe(v, moves[1..]);
      }
    }
  }

  /** On any run the ring stays within its bounds throughout exactly when no sleeping writer is
      roused while the ring is full. */
  lemma RingSafeExactly(moves: seq<Move>)
    requires AllEnabled(START, moves)
    ensures AlwaysRingSafe(START, moves) <==> !SomeRousesOntoFull(START, moves)
  {
    SafeAlongRun(START, moves);
  }

  /** The writer falls asleep while the reader is between leaving its loop and waking. */
  predicate SleepsBesideParting(w: Scene, m: Move)
    requires Enabled(w, m)
  {
    w.reader.Parting? && !w.writer.Asleep? && Next(w, m).writer.Asleep?
  }

  predicate NoSleepBetween(w: Scene, moves: seq<Move>)
    requires AllEnabled(w, moves)
    decreases |moves|
  {
    || moves == []
    || (&& !SleepsBesideParting(w, moves[0]) && !(moves[0] == Call(CloseReader) && w.writer.Asleep?)
        && NoSleepBetween(Next(w, moves[0]), moves[1..]))
  }

  lemma {:induction false} UndisturbedAlongRun(w: Scene, moves: seq<Move>)
    requires RingSafe(w) && (w.reader.Parting? && w.writer.Asleep? ==> |w.content| < PIPE_SIZE)
    requires AllEnabled(w, moves) && NoSleepBetween(w, moves)
    ensures AlwaysRingSafe(w, moves)
    decreases |moves|
  {
    if moves == [] {
    } else {
      SafeStepExactly(w, moves[0]);
      UndisturbedAlongRun(Next(w, moves[0]), moves[1..]);
    }
  }

  /** In particular when no writer falls asleep between a reader's last look and its wake, and no
      reader closes on a sleeping writer. */
  lemma UndisturbedRingSafe(moves: seq<Move>)
    requires AllEnabled(START, moves) && NoSleepBetween(START, moves)
    ensures AlwaysRingSafe(START, moves)
  {
    UndisturbedAlongRun(START, moves);
  }

  // ---------------------------------------------------------------- the single waiting slot

  /** Whoever is recorded as waiting sleeps, and a writer that sleeps beside an idle or a blocked
      reader left the ring full. */
  predicate SlotInv(w: Scene) {
    && (w.slot.ReaderWaits? ==> w.reader.Blocked?)
    && (w.slot.WriterWaits? <==> w.writer.Asleep?)
    && (w.writer.Asleep? && (w.reader.Free? || w.reader.Blocked?) ==> w.content != [])
  }

  predicate Stranded(w: Scene) {
    w.reader.Blocked? && !w.slot.ReaderWaits?
  }

  /** The writer falls asleep while the reader is the one recorded as waiting. */
  predicate TakesReadersSlot(w: Scene, m: Move)
    requires Enabled(w, m)
  {
    w.slot.ReaderWaits? && !w.writer.Asleep? && Next(w, m).writer.Asleep?
  }

  lemma SlotStepExactly(w: Scene, m: Move)
    requires SlotInv(w) && !Stranded(w) && Enabled(w, m)
    ensures SlotInv(Next(w, m)) && (Stranded(Next(w, m)) <==> TakesReadersSlot(w, m))
    ensures Stranded(Next(w, m)) ==> Next(w, m).writer.Asleep?
  {
  }

  lemma StrandedIsDeadlock(w: Scene, m: Move)
    requires Stranded(w) && w.writer.Asleep?
    ensures !Enabled(w, m)
  {
  }

  predicate SlotTakenIn(w: Scene, moves: seq<Move>)
    requires AllEnabled(w, moves)
    decreases |moves|
  {
    moves != [] && (TakesReadersSlot(w, moves[0]) || SlotTakenIn(Next(w, moves[0]), moves[1..]))
  }

  lemma {:induction false} StrandedAlongRun(w: Scene, moves: seq<Move>)
    requires SlotInv(w) && !Stranded(w) && AllEnabled(w, moves)
    ensures Stranded(Run(w, moves)) <==> SlotTakenIn(w, moves)
    ensures Stranded(Run(w, moves)) ==> Run(w, moves).writer.Asleep?
    decreases |moves|
  {
    if moves == [] {
    } else {
      var v := Next(w, moves[0]);
      SlotStepExactly(w, moves[0]);
      if Stranded(v) {
        if moves[1..] != [] { StrandedIsDeadlock(v, moves[1..][0]); }
        assert Run(v, []) == v;
      } else {
        StrandedAlongRun(v, moves[1..]);
      }
    }
  }

  /** A run ends with both ends waiting for each other, no move possible, exactly when in it the writer
      falls asleep while the reader is the one recorded as waiting. */
  lemma StrandedExactly(moves: seq<Move>)
    requires AllEnabled(START, moves)
    ensures Stranded(Run(START, moves)) <==> SlotTakenIn(START, moves)
    ensures Stranded(Run(START, moves)) ==> forall m: Move :: !Enabled(Run(START, moves), m)
  {
    StrandedAlongRun(START, moves);
    if Stranded(Run(START, moves)) {
      forall m: Move
        ensures !Enabled(Run(START, moves), m)
      {
        StrandedIsDeadlock(Run(START, moves), m);
      }
    }
  }

  /** Taking one move first. */
  lemma Chain(w: Scene, m: Move, rest: seq<Move>)
    requires Enabled(w, m)
    ensures AllEnabled(w, [m] + rest) <==> AllEnabled(Next(w, m), rest)
    ensures AllEnabled(Next(w, m), rest) ==> Run(w, [m] + rest) == Run(Next(w, m), rest)
  {
    assert ([m] + rest)[1..] == rest;
  }

  function LateWake(b: Bytes): seq<Move> {
    [Call(Read(false)), Call(Write("a")), TakeByte, LeaveRead] + [Call(Write(b)), WakeByReader, StoreByte]
  }

  /** A woken reader takes the only byte and finds no other; before its wake the writer fills the ring
      and falls asleep, and the wake sends it on: the open pipe holds one byte more than fits. */
  lemma LateWakeExample(b: Bytes)
    requires |b| > PIPE_SIZE
    ensures AllEnabled(START, LateWake(b))
    ensures var w := Run(START, LateWake(b)); w.readOpen && |w.content| == PIPE_SIZE + 1
  {
    var w4 := Scene([], NoOne, true, true, Ready, Parting, "a", "a");
    LastByteTaken([Call(Write(b)), WakeByReader, StoreByte]);
    var w5 := Next(w4, Call(Write(b)));
    assert w5.content == b[..PIPE_SIZE] && w5.writer == Asleep(b[PIPE_SIZE..]) && w5.slot == WriterWaits;
    var w6 := Next(w5, WakeByReader);
    assert w6.content == b[..PIPE_SIZE] && w6.writer == Roused(b[PIPE_SIZE..]);
    Chain(w6, StoreByte, []);
    Chain(w5, WakeByReader, [StoreByte] + []);
    Chain(w4, Call(Write(b)), [WakeByReader] + ([StoreByte] + []));
    assert [Call(Write(b))] + ([WakeByReader] + ([StoreByte] + [])) == [Call(Write(b)), WakeByReader, StoreByte];
  }

  lemma LastByteTaken(rest: seq<Move>)
    ensures var w := Scene([], NoOne, true, true, Ready, Parting, "a", "a");
            var moves := [Call(Read(false)), Call(Write("a")), TakeByte, LeaveRead] + rest;
            AllEnabled(w, rest) ==> AllEnabled(START, moves) && Run(START, moves) == Run(w, rest)
  {
    var w1 := Next(START, Call(Read(false)));
    var w2 := Next(w1, Call(Write("a")));
    assert w2 == Scene("a", NoOne, true, true, Ready, Taking(false), "a", []);
    var w3 := Next(w2, TakeByte);
    assert w3 == Scene([], NoOne, true, true, Ready, Taking(false), "a", "a");
    var s3 := [LeaveRead] + rest;
    var s2 := [TakeByte] + s3;
    var s1 := [Call(Write("a"))] + s2;
    if AllEnabled(Next(w3, LeaveRead), rest) {
      Chain(w3, LeaveRead, rest);
      Chain(w2, TakeByte, s3);
      Chain(w1, Call(Write("a")), s2);
      Chain(START, Call(Read(false)), s1);
      assert [Call(Read(false))] + s1 == [Call(Read(false)), Call(Write("a")), TakeByte, LeaveRead] + rest;
    }
  }

  // ---------------------------------------------------------------- whole continuations as a special case

  /** The world of whole continuations, with nobody half way through one. */
  function Embed(c: Calls.World): Scene {
    Scene(c.content, c.slot, c.readOpen, c.writeOpen,
          match c.writer case WriterIdle => Ready case WriterBlocked(r) => Asleep(r) case WriterWoken(r) => Roused(r),
          match c.reader case ReaderIdle => Free case ReaderBlocked(b) => Blocked(b) case ReaderWoken(b) => Taking(b),
          c.sent, c.got)
  }

  /** A whole step is its moves with nothing in between. */
  function Expand(c: Calls.World, s: Calls.Step): seq<Move>
    requires Calls.Enabled(c, s)
  {
    match s
    case WriteResume =>
      var k := Room(c.content, c.writer.rest, true);
      seq(k, _ => StoreByte) + (if k < |c.writer.rest| then [BlockAgain] else [LeaveWrite, WakeByWriter])
    case ReadResume =>
      if c.reader.single && c.content != [] then [TakeByte, WakeByReader]
      else seq(|c.content|, _ => TakeByte) + [LeaveRead, WakeByReader]
    case _ => [Call(s)]
  }

  lemma {:induction false} RunAppend(w: Scene, a: seq<Move>, b: seq<Move>)
    requires AllEnabled(w, a) && AllEnabled(Run(w, a), b)
    ensures AllEnabled(w, a + b) && Run(w, a + b) == Run(Run(w, a), b)
    decreases |a|
  {
    if a == [] {
      assert a + b == b;
    } else {
      assert (a + b)[1..] == a[1..] + b;
      RunAppend(Next(w, a[0]), a[1..], b);
    }
  }

  /** The loop of a writer that is on its way, `k` bytes long. */
  lemma {:induction false} StoresMany(w: Scene, k: nat)
    requires (w.writer.Looping? || (w.writer.Roused? && w.writer.rest != [])) && k <= |w.writer.rest|
    requires k <= Room(w.content, w.writer.rest, w.writer.Roused?)
    ensures AllEnabled(w, seq(k, _ => StoreByte))
    ensures k > 0 ==>
              Run(w, seq(k, _ => StoreByte)) ==
              w.(content := w.content + w.writer.rest[..k], writer := Looping(w.writer.rest[k..]))
    decreases k
  {
    if k == 0 {
    } else {
      var v := Next(w, StoreByte);
      StoresMany(v, k - 1);
      OneMoreByte(w.content, w.writer.rest, k);
      assert [StoreByte] + seq(k - 1, _ => StoreByte) == seq(k, _ => StoreByte);
      Chain(w, StoreByte, seq(k - 1, _ => StoreByte));
      if k == 1 { assert Run(v, seq(0, _ => StoreByte)) == v; }
    }
  }

  lemma OneMoreByte(content: Bytes, r: Bytes, k: nat)
    requires 1 <= k <= |r|
    ensures (content + [r[0]]) + r[1..][..k - 1] == content + r[..k] && r[1..][k - 1..] == r[k..]
    ensures k == 1 ==> content + [r[0]] == content + r[..k]
  {
  }

  lemma {:induction false} TakesAll(w: Scene)
    requires w.reader == Taking(false)
    ensures AllEnabled(w, seq(|w.content|, _ => TakeByte))
    ensures Run(w, seq(|w.content|, _ => TakeByte)) == w.(content := [], got := w.got + w.content)
    decreases |w.content|
  {
    var n := |w.content|;
    if n == 0 {
      assert w.got + w.content == w.got;
    } else {
      var v := Next(w, TakeByte);
      assert seq(n, _ => TakeByte)[1..] == seq(n - 1, _ => TakeByte);
      TakesAll(v);
      assert (w.got + [w.content[0]]) + w.content[1..] == w.got + w.content;
    }
  }

  lemma FillEmbeds(c: Calls.World, k: nat)
    requires c.writer.WriterWoken? && k == Room(c.content, c.writer.rest, true) <= |c.writer.rest|
    ensures var w, rest := Embed(c).(content := c.content + c.writer.rest[..k]), c.writer.rest[k..];
            Embed(Calls.Next(c, WriteResume)) ==
            if rest != [] then w.(slot := WriterWaits, writer := Asleep(rest)) else Rouse(w.(writer := Ready))
  {
  }

  lemma WriteRefines(c: Calls.World)
    requires Calls.Enabled(c, WriteResume) && c.writer.rest != []
    ensures AllEnabled(Embed(c), Expand(c, WriteResume))
    ensures Run(Embed(c), Expand(c, WriteResume)) == Embed(Calls.Next(c, WriteResume))
  {
    var w, rest := Embed(c), c.writer.rest;
    var k := Room(c.content, rest, true);
    StoresMany(w, k);
    var v := Run(w, seq(k, _ => StoreByte));
    FillEmbeds(c, k);
    if k < |rest| {
      Chain(v, BlockAgain, []);
      assert [BlockAgain] + [] == [BlockAgain];
      RunAppend(w, seq(k, _ => StoreByte), [BlockAgain]);
    } else {
      assert rest[k..] == [];
      WriterLeaves(v);
      RunAppend(w, seq(k, _ => StoreByte), [LeaveWrite, WakeByWriter]);
    }
  }

  lemma ReadRefines(c: Calls.World)
    requires Calls.Enabled(c, ReadResume)
    ensures AllEnabled(Embed(c), Expand(c, ReadResume))
    ensures Run(Embed(c), Expand(c, ReadResume)) == Embed(Calls.Next(c, ReadResume))
  {
    var single := c.reader.single;
    if single && c.content != [] {
      SingleTaken(Embed(c));
      assert c.content[..1] == [c.content[0]];
      DrainEmbeds(c, 1);
    } else {
      AllTaken(Embed(c));
      assert c.content[..|c.content|] == c.content && c.content[|c.content|..] == [];
      DrainEmbeds(c, |c.content|);
    }
  }

  lemma DrainEmbeds(c: Calls.World, k: nat)
    requires c.reader.ReaderWoken? && k == if c.reader.single then Min(1, |c.content|) else |c.content|
    ensures Embed(Calls.Next(c, ReadResume)) ==
            Rouse(Embed(c).(content := c.content[k..], got := c.got + c.content[..k], reader := Free))
  {
  }

  lemma AllTaken(w: Scene)
    requires w.reader.Taking? && (w.reader.single ==> w.content == [])
    ensures var moves := seq(|w.content|, _ => TakeByte) + [LeaveRead, WakeByReader];
            && AllEnabled(w, moves)
            && Run(w, moves) == Rouse(w.(content := [], got := w.got + w.content, reader := Free))
  {
    var takes := seq(|w.content|, _ => TakeByte);
    if w.reader.single {
      assert takes == [] && w.got + [] == w.got;
      assert Run(w, takes) == w;
    } else {
      TakesAll(w);
    }
    ReaderParts(Run(w, takes));
    RunAppend(w, takes, [LeaveRead, WakeByReader]);
  }

  lemma SingleTaken(w: Scene)
    requires w.reader == Taking(true) && w.content != []
    ensures AllEnabled(w, [TakeByte, WakeByReader])
    ensures Run(w, [TakeByte, WakeByReader]) ==
            Rouse(w.(content := w.content[1..], got := w.got + [w.content[0]], reader := Free))
  {
    Chain(Next(w, TakeByte), WakeByReader, []);
    Chain(w, TakeByte, [WakeByReader] + []);
    assert [TakeByte] + ([WakeByReader] + []) == [TakeByte, WakeByReader];
  }

  lemma ReaderParts(w: Scene)
    requires w.reader.Taking? && w.content == []
    ensures AllEnabled(w, [LeaveRead, WakeByReader]) && Run(w, [LeaveRead, WakeByReader]) == Rouse(w.(reader := Free))
  {
    Chain(Next(w, LeaveRead), WakeByReader, []);
    Chain(w, LeaveRead, [WakeByReader] + []);
    assert [LeaveRead] + ([WakeByReader] + []) == [LeaveRead, WakeByReader];
  }

  lemma WriterLeaves(w: Scene)
    requires w.writer == Looping([])
    ensures AllEnabled(w, [LeaveWrite, WakeByWriter]) && Run(w, [LeaveWrite, WakeByWriter]) == Rouse(w.(writer := Ready))
  {
    Chain(Next(w, LeaveWrite), WakeByWriter, []);
    Chain(w, LeaveWrite, [WakeByWriter] + []);
    assert [LeaveWrite] + ([WakeByWriter] + []) == [LeaveWrite, WakeByWriter];
  }

  lemma StepRefines(c: Calls.World, s: Calls.Step)
    requires Calls.Inv(c) && Calls.Enabled(c, s)
    ensures AllEnabled(Embed(c), Expand(c, s)) && Run(Embed(c), Expand(c, s)) == Embed(Calls.Next(c, s))
  {
    match s
    case WriteResume => WriteRefines(c);
    case ReadResume => ReadRefines(c);
    case _ =>
      assert [Call(s)] + [] == [Call(s)];
      Chain(Embed(c), Call(s), []);
  }

  function ExpandAll(c: Calls.World, steps: seq<Calls.Step>): seq<Move>
    requires Calls.AllEnabled(c, steps)
    decreases |steps|
  {
    if steps == [] then [] else Expand(c, steps[0]) + ExpandAll(Calls.Next(c, steps[0]), steps[1..])
  }

  /** Every run of whole continuations is a run of these moves, the one on which none is interrupted. */
  lemma {:induction false} WholeCallsAreARun(c: Calls.World, steps: seq<Calls.Step>)
    requires Calls.Inv(c) && Calls.AllEnabled(c, steps)
    ensures AllEnabled(Embed(c), ExpandAll(c, steps))
    ensures Run(Embed(c), ExpandAll(c, steps)) == Embed(Calls.Run(c, steps))
    decreases |steps|
  {
    if steps == [] {
    } else {
      var d := Calls.Next(c, steps[0]);
      StepRefines(c, steps[0]);
      Calls.NextKeeps(c, steps[0]);
      WholeCallsAreARun(d, steps[1..]);
      RunAppend(Embed(c), Expand(c, steps[0]), ExpandAll(d, steps[1..]));
    }
  }
}
