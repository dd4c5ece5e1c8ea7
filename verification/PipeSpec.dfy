// One pipe between one writer and one reader, as a protocol over blocking calls
// (Kernel/utils/pipes.c:24-44, 101-182).  Pipe.dfy ties the ring buffer to `content`.
module PipeSpec {
  const PIPE_SIZE: nat := 512

  type Bytes = seq<char>

  /** The single `waitingProcess` field. */
  datatype Slot = NoOne | WriterWaits | ReaderWaits

  /** A blocked call keeps what it still has to do; a woken one continues when scheduled. */
  datatype Writer = WriterIdle | WriterBlocked(rest: Bytes) | WriterWoken(rest: Bytes)
  datatype Reader = ReaderIdle | ReaderBlocked(single: bool) | ReaderWoken(single: bool)

  /** `sent` and `got` are history: everything accepted from writers and delivered to readers.
      `content` is what was stored and not yet read; past PIPE_SIZE bytes, which only happens once
      the reader has closed, the ring itself has overwritten some of it. */
  datatype World = World(
    content: Bytes,
    slot: Slot,
    readOpen: bool,
    writeOpen: bool,
    writer: Writer,
    reader: Reader,
    sent: Bytes,
    got: Bytes)

  const CREATED: World := World([], NoOne, true, true, WriterIdle, ReaderIdle, [], [])

  datatype Step =
    | Write(s: Bytes)
    | WriteResume
    | Read(single: bool) // `single` is the call with limit 1
    | ReadResume
    | CloseWriter
    | CloseReader

  predicate Enabled(w: World, s: Step) {
    match s
    case Write(_) => w.writer.WriterIdle? && w.writeOpen
    case WriteResume => w.writer.WriterWoken?
    case Read(_) => w.reader.ReaderIdle? && w.readOpen
    case ReadResume => w.reader.ReaderWoken?
    case CloseWriter => w.writer.WriterIdle? && w.writeOpen
    case CloseReader => w.reader.ReaderIdle? && w.readOpen
  }

  function Min(a: nat, b: nat): nat {
    if a < b then a else b
  }

  /** How many bytes of `s` the write loop stores before it blocks.  It blocks only on a fill level
      of exactly PIPE_SIZE, and a woken call does not look before its first byte: past that level
      nothing stops it. */
  function Room(content: Bytes, s: Bytes, woken: bool): (k: nat)
    ensures k <= |s|
  {
    if |content| > PIPE_SIZE || (woken && |content| == PIPE_SIZE) then |s| else Min(|s|, PIPE_SIZE - |content|)
  }

  /** Make whoever is in the slot ready again and clear it. */
  function Wake(w: World): World {
    match w.slot
    case NoOne => w
    case WriterWaits =>
      w.(slot := NoOne, writer := if w.writer.WriterBlocked? then WriterWoken(w.writer.rest) else w.writer)
    case ReaderWaits =>
      w.(slot := NoOne, reader := if w.reader.ReaderBlocked? then ReaderWoken(w.reader.single) else w.reader)
  }

  /** The write loop with `s` still to go: fill, then block on a full ring or finish and wake. */
  function Fill(w: World, s: Bytes, woken: bool): World {
    var k := Room(w.content, s, woken);
    var v := w.(content := w.content + s[..k]);
    if k < |s| then v.(slot := WriterWaits, writer := WriterBlocked(s[k..]))
    else Wake(v.(writer := WriterIdle))
  }

  /** The read loop: one byte for a single read, otherwise all there is, then wake. */
  function Drain(w: World, single: bool): World {
    var k := if single then Min(1, |w.content|) else |w.content|;
    Wake(w.(content := w.content[k..], got := w.got + w.content[..k], reader := ReaderIdle))
  }

  function Next(w: World, s: Step): World {
    match s
    case Write(b) =>
      if !w.readOpen && |w.content| == PIPE_SIZE then w else Fill(w.(sent := w.sent + b), b, false)
    case WriteResume => if w.writer.WriterWoken? then Fill(w, w.writer.rest, true) else w
    case Read(single) =>
      if w.content == [] then
        if !w.writeOpen then w else w.(slot := ReaderWaits, reader := ReaderBlocked(single))
      else Drain(w, single)
    case ReadResume => if w.reader.ReaderWoken? then Drain(w, w.reader.single) else w
    case CloseWriter => Wake(w.(writeOpen := false))
    case CloseReader => Wake(w.(readOpen := false))
  }

  predicate AllEnabled(w: World, steps: seq<Step>)
    decreases |steps|
  {
    steps == [] || (Enabled(w, steps[0]) && AllEnabled(Next(w, steps[0]), steps[1..]))
  }

  function Run(w: World, steps: seq<Step>): World
    decreases |steps|
  {
    if steps == [] then w else Run(Next(w, steps[0]), steps[1..])
  }

  // ---------------------------------------------------------------- order

  function Rest(w: Writer): Bytes {
    if w.WriterIdle? then [] else w.rest
  }

  /** The ring never overflows: a woken writer, which does not look again, always finds room. */
  predicate RingSafe(w: World) {
    && |w.content| <= PIPE_SIZE
    && (w.writer.WriterWoken? ==> |w.content| < PIPE_SIZE)
  }

  predicate Inv(w: World) {
    // bytes are delivered once each, in order, and none is lost
    && w.sent == w.got + w.content + Rest(w.writer)
    && (w.readOpen ==> RingSafe(w))
    && (!w.readOpen ==> w.reader.ReaderIdle?)
    && (!w.writer.WriterIdle? ==> w.writer.rest != [])
    && (w.writer.WriterBlocked? ==> w.slot.WriterWaits? && |w.content| == PIPE_SIZE)
    && (w.slot.WriterWaits? ==> w.writer.WriterBlocked?)
    && (w.slot.ReaderWaits? ==> w.reader.ReaderBlocked? && w.content == [])
  }

  lemma FillKeeps(w: World, s: Bytes, woken: bool)
    requires !w.slot.WriterWaits? && (w.slot.ReaderWaits? ==> w.reader.ReaderBlocked? && w.content == [])
    requires w.readOpen ==> |w.content| <= PIPE_SIZE && !(woken && |w.content| == PIPE_SIZE)
    requires !w.readOpen ==> w.reader.ReaderIdle?
    requires w.sent == w.got + w.content + s
    ensures Inv(Fill(w, s, woken))
  {
    var k := Room(w.content, s, woken);
    assert s == s[..k] + s[k..];
    assert w.got + w.content + s == w.got + (w.content + s[..k]) + s[k..];
  }

  lemma DrainKeeps(w: World, single: bool)
    requires w.readOpen && Inv(w.(reader := ReaderIdle)) && !w.slot.ReaderWaits?
    ensures Inv(Drain(w, single))
  {
    var k := if single then Min(1, |w.content|) else |w.content|;
    assert w.content == w.content[..k] + w.content[k..];
    assert w.got + w.content + Rest(w.writer) == (w.got + w.content[..k]) + w.content[k..] + Rest(w.writer);
  }

  lemma NextKeeps(w: World, s: Step)
    requires Inv(w) && Enabled(w, s)
    ensures Inv(Next(w, s))
  {
    match s
    case Write(b) => WriteKeeps(w, b);
    case WriteResume => FillKeeps(w, w.writer.rest, true);
    case Read(single) => if w.content != [] { DrainKeeps(w, single); }
    case ReadResume => DrainKeeps(w, w.reader.single);
    case CloseWriter =>
    case CloseReader =>
  }

  lemma WriteKeeps(w: World, b: Bytes)
    requires Inv(w) && Enabled(w, Write(b))
    ensures Inv(Next(w, Write(b)))
  {
    assert (w.got + w.content + []) + b == w.got + w.content + b;
    if w.readOpen || |w.content| != PIPE_SIZE { FillKeeps(w.(sent := w.sent + b), b, false); }
  }

  lemma {:induction false} InvAlongRun(w: World, steps: seq<Step>)
    requires Inv(w) && AllEnabled(w, steps)
    ensures Inv(Run(w, steps))
    decreases |steps|
  {
    if steps == [] {
    } else {
      NextKeeps(w, steps[0]);
      InvAlongRun(Next(w, steps[0]), steps[1..]);
    }
  }

  /** Over every interleaving of one writer and one reader: the bytes read are a prefix of the
      bytes written, what is stored and what the blocked writer still holds is exactly the rest,
      and while the reader is open the ring never holds more than PIPE_SIZE bytes, not even when a
      blocked writer goes on without looking. */
  lemma PipeIsFifo(steps: seq<Step>)
    requires AllEnabled(CREATED, steps)
    ensures var w := Run(CREATED, steps);
            && w.got <= w.sent
            && w.sent == w.got + w.content + Rest(w.writer)
            && (w.readOpen ==> |w.content| <= PIPE_SIZE && (w.writer.WriterWoken? ==> |w.content| < PIPE_SIZE))
  {
    InvAlongRun(CREATED, steps);
    var w := Run(CREATED, steps);
    assert w.sent == w.got + (w.content + Rest(w.writer));
  }

  // ---------------------------------------------------------------- what each call does

  /** The writer after a wake, and the reader after one. */
  function Stirred(w: Writer): Writer {
    if w.WriterBlocked? then WriterWoken(w.rest) else w
  }

  function StirredReader(r: Reader): Reader {
    if r.ReaderBlocked? then ReaderWoken(r.single) else r
  }

  /** A read takes the first byte, or everything for a call without limit 1, and wakes a blocked
      writer.  On an empty pipe it waits while the write end is open, and otherwise reports the end. */
  lemma ReadExactly(w: World, single: bool)
    requires Inv(w) && Enabled(w, Read(single))
    ensures var v, c := Next(w, Read(single)), w.content;
            if c == [] then v == if w.writeOpen then w.(slot := ReaderWaits, reader := ReaderBlocked(single)) else w
            else
              var k := if single then 1 else |c|;
              v == w.(content := c[k..], got := w.got + c[..k], slot := NoOne, writer := Stirred(w.writer))
  {
  }

  /** What a writer with `s` to go makes of a ring that holds `c`: it stores what fits in 512 bytes and
      waits for the rest, or stores it all and wakes a waiting reader.  On a ring past its bounds it
      stores everything. */
  predicate Writes(w: World, v: World, c: Bytes, s: Bytes) {
    var k := if |c| > 512 then |s| else 512 - |c|;
    if |s| <= k then
      && v.content == c + s && v.writer.WriterIdle? && v.slot.NoOne?
      && v.reader == if w.slot.ReaderWaits? then StirredReader(w.reader) else w.reader
    else
      && v.content == c + s[..k] && v.writer == WriterBlocked(s[k..]) && v.slot.WriterWaits? && v.reader == w.reader
  }

  predicate SameEnds(w: World, v: World) {
    v.readOpen == w.readOpen && v.writeOpen == w.writeOpen && v.got == w.got
  }

  /** A write to a closed reader is refused exactly when the ring is full; every other one is accepted
      with all its bytes. */
  lemma WriteExactly(w: World, b: Bytes)
    requires Inv(w) && Enabled(w, Write(b))
    ensures var v := Next(w, Write(b));
            if !w.readOpen && |w.content| == 512 then v == w
            else Writes(w, v, w.content, b) && v.sent == w.sent + b && SameEnds(w, v)
  {
  }

  /** A woken writer does the same with what it still has, except that a ring that is exactly full, as
      a closing reader leaves it, does not stop it either. */
  lemma WriteResumesExactly(w: World)
    requires Inv(w) && Enabled(w, WriteResume)
    ensures var v, s := Next(w, WriteResume), w.writer.rest;
            && v.sent == w.sent && SameEnds(w, v)
            && if |w.content| != 512 then Writes(w, v, w.content, s)
               else v.content == w.content + s && v.writer.WriterIdle? && v.slot.NoOne?
  {
  }

  /** A woken reader takes what is there, which may be nothing, without waiting again. */
  lemma ReadResumesExactly(w: World)
    requires Inv(w) && Enabled(w, ReadResume)
    ensures var v, c := Next(w, ReadResume), w.content;
            var k := if w.reader.single && c != [] then 1 else |c|;
            v == w.(content := c[k..], got := w.got + c[..k], slot := NoOne, writer := Stirred(w.writer),
                    reader := ReaderIdle)
  {
  }

  /** Closing an end shuts it, wakes whoever waits for it, and does nothing else. */
  lemma ClosesExactly(w: World)
    requires Inv(w)
    ensures Enabled(w, CloseWriter) ==>
              var r := if w.slot.ReaderWaits? then StirredReader(w.reader) else w.reader;
              Next(w, CloseWriter) == w.(writeOpen := false, slot := NoOne, reader := r)
    ensures Enabled(w, CloseReader) ==>
              Next(w, CloseReader) == w.(readOpen := false, slot := NoOne, writer := Stirred(w.writer))
  {
  }

  // ---------------------------------------------------------------- end of file

  /** A writer that has closed has nothing left; a blocked reader is the one recorded, unless a writer
      that blocked later took its place. */
  predicate Ending(w: World) {
    && (!w.writeOpen ==> w.writer.WriterIdle? && !w.slot.ReaderWaits?)
    && (w.reader.ReaderBlocked? ==> w.slot.ReaderWaits? || w.writer.WriterBlocked?)
  }

  lemma {:induction false} EndingAlongRun(w: World, steps: seq<Step>)
    requires Inv(w) && Ending(w) && AllEnabled(w, steps)
    ensures Inv(Run(w, steps)) && Ending(Run(w, steps))
    decreases |steps|
  {
    if steps == [] {
    } else {
      NextKeeps(w, steps[0]);
      EndingKept(w, steps[0]);
      EndingAlongRun(Next(w, steps[0]), steps[1..]);
    }
  }

  lemma EndingKept(w: World, s: Step)
    requires Inv(w) && Ending(w) && Enabled(w, s)
    ensures Ending(Next(w, s))
  {
  }

  /** On any run, once the write end is closed no reader waits any more, one read gets everything that
      was ever written, and an empty pipe means that this has happened. */
  lemma EndOfFile(steps: seq<Step>)
    requires AllEnabled(CREATED, steps) && !Run(CREATED, steps).writeOpen
    ensures var w := Run(CREATED, steps);
            && !w.reader.ReaderBlocked? && (w.content == [] ==> w.got == w.sent)
            && (Enabled(w, Read(false)) ==> Next(w, Read(false)).got == w.sent)
            && (Enabled(w, ReadResume) && !w.reader.single ==> Next(w, ReadResume).got == w.sent)
  {
    EndingAlongRun(CREATED, steps);
    var w := Run(CREATED, steps);
    assert w.got + w.content + [] == w.got + w.content;
    assert w.content == [] ==> w.got + [] == w.got;
    assert w.content[..|w.content|] == w.content;
  }

  // ---------------------------------------------------------------- overflow

  /** Closing the read end is safe for the ring exactly when no writer is blocked: otherwise the
      writer is woken onto a ring that is still full, and stores all it has. */
  lemma CloseReaderSafeExactly(w: World)
    requires Inv(w) && Enabled(w, CloseReader)
    ensures RingSafe(Next(w, CloseReader)) <==> !w.writer.WriterBlocked?
    ensures w.writer.WriterBlocked? ==>
              var v := Next(w, CloseReader);
              && Enabled(v, WriteResume)
              && |Next(v, WriteResume).content| == PIPE_SIZE + |w.writer.rest| > PIPE_SIZE
  {
  }

  /** A write longer than the ring blocks, the reader closes, and the writer puts all the rest into
      the full ring. */
  lemma ClosedReaderOverrunsExample(b: Bytes)
    requires |b| > PIPE_SIZE
    ensures var steps := [Write(b), CloseReader, WriteResume];
            AllEnabled(CREATED, steps) && |Run(CREATED, steps).content| == |b| > PIPE_SIZE
  {
    var s2, s1 := [WriteResume], [CloseReader, WriteResume];
    var steps := [Write(b), CloseReader, WriteResume];
    assert s2[1..] == [] && s1[1..] == s2 && steps[1..] == s1;
    var w1 := Next(CREATED, Write(b));
    var w2 := Next(w1, CloseReader);
    var w3 := Next(w2, WriteResume);
    assert w1.content == b[..PIPE_SIZE] && w1.writer == WriterBlocked(b[PIPE_SIZE..]);
    assert w2.content == w1.content && w2.writer == WriterWoken(b[PIPE_SIZE..]);
    assert AllEnabled(w3, []) && Run(w3, []) == w3;
    assert AllEnabled(w2, s2) && Run(w2, s2) == w3;
    assert AllEnabled(w1, s1) && Run(w1, s1) == w3;
  }

  /** No reader ever closes on a blocked writer. */
  predicate Orderly(w: World, steps: seq<Step>)
    decreases |steps|
  {
    steps == [] ||
    (!(steps[0].CloseReader? && w.writer.WriterBlocked?) && Orderly(Next(w, steps[0]), steps[1..]))
  }

  predicate AlwaysRingSafe(w: World, steps: seq<Step>)
    decreases |steps|
  {
    RingSafe(w) && (steps == [] || AlwaysRingSafe(Next(w, steps[0]), steps[1..]))
  }

  lemma RingStepExactly(w: World, s: Step)
    requires Inv(w) && Enabled(w, s) && RingSafe(w)
    ensures RingSafe(Next(w, s)) <==> !(s.CloseReader? && w.writer.WriterBlocked?)
  {
    NextKeeps(w, s);
  }

  lemma {:induction false} RingSafeAlongRun(w: World, steps: seq<Step>)
    requires Inv(w) && RingSafe(w) && AllEnabled(w, steps)
    ensures AlwaysRingSafe(w, steps) <==> Orderly(w, steps)
    decreases |steps|
  {
    if steps == [] {
    } else {
      var v := Next(w, steps[0]);
      RingStepExactly(w, steps[0]);
      NextKeeps(w, steps[0]);
      if RingSafe(v) {
        RingSafeAlongRun(v, steps[1..]);
      } else {
        assert !AlwaysRingSafe(v, steps[1..]);
      }
    }
  }

  /** On a run from creation the ring stays within its bounds throughout exactly when no reader
      closes on a blocked writer. */
  lemma RingSafeExactly(steps: seq<Step>)
    requires AllEnabled(CREATED, steps)
    ensures AlwaysRingSafe(CREATED, steps) <==> Orderly(CREATED, steps)
  {
    RingSafeAlongRun(CREATED, steps);
  }

  // ---------------------------------------------------------------- the single waiting slot

  /** A reader is stranded when it is blocked but no longer recorded as waiting. */
  predicate Stranded(w: World) {
    w.reader.ReaderBlocked? && !w.slot.ReaderWaits?
  }

  /** A write, or the continuation of one, with more to go than the ring holds while the reader
      waits: the writer blocks too and takes the slot. */
  predicate TakesReadersSlot(w: World, s: Step) {
    && w.slot.ReaderWaits?
    && match s
       case Write(b) => |b| > PIPE_SIZE
       case WriteResume => |Rest(w.writer)| > PIPE_SIZE
       case _ => false
  }

  /** One step strands the reader exactly when it is such a write. */
  lemma StepStrandsExactly(w: World, s: Step)
    requires Inv(w) && Enabled(w, s) && !Stranded(w)
    ensures Stranded(Next(w, s)) <==> TakesReadersSlot(w, s)
    ensures TakesReadersSlot(w, s) ==> Next(w, s).writer.WriterBlocked?
  {
  }

  /** Then both ends wait for each other: no step is possible any more. */
  lemma StrandedMeansDeadlock(w: World, s: Step)
    requires Stranded(w) && w.writer.WriterBlocked?
    ensures !Enabled(w, s)
  {
  }

  predicate SlotTakenIn(w: World, steps: seq<Step>)
    decreases |steps|
  {
    steps != [] && (TakesReadersSlot(w, steps[0]) || SlotTakenIn(Next(w, steps[0]), steps[1..]))
  }

  lemma {:induction false} StrandedAlongRun(w: World, steps: seq<Step>)
    requires Inv(w) && !Stranded(w) && AllEnabled(w, steps)
    ensures Stranded(Run(w, steps)) <==> SlotTakenIn(w, steps)
    ensures Stranded(Run(w, steps)) ==> Run(w, steps).writer.WriterBlocked?
    decreases |steps|
  {
    if steps == [] {
    } else {
      var v := Next(w, steps[0]);
      StepStrandsExactly(w, steps[0]);
      NextKeeps(w, steps[0]);
      if Stranded(v) {
        if steps[1..] != [] { StrandedMeansDeadlock(v, steps[1..][0]); }
        assert Run(v, []) == v;
      } else {
        StrandedAlongRun(v, steps[1..]);
      }
    }
  }

  /** A run from creation ends in that deadlock exactly when in it a write, or the continuation of
      one, with more than PIPE_SIZE bytes to go happens while the reader waits. */
  lemma StrandedExactly(steps: seq<Step>)
    requires AllEnabled(CREATED, steps)
    ensures Stranded(Run(CREATED, steps)) <==> SlotTakenIn(CREATED, steps)
    ensures Stranded(Run(CREATED, steps)) ==> forall s: Step :: !Enabled(Run(CREATED, steps), s)
  {
    StrandedAlongRun(CREATED, steps);
    if Stranded(Run(CREATED, steps)) {
      forall s: Step
        ensures !Enabled(Run(CREATED, steps), s)
      {
        StrandedMeansDeadlock(Run(CREATED, steps), s);
      }
    }
  }

  /** A reader that waits before a write longer than the ring starts is stranded. */
  lemma LongWriteStrands(b: Bytes)
    requires |b| > PIPE_SIZE
    ensures var steps := [Read(false), Write(b)];
            AllEnabled(CREATED, steps) && Orderly(CREATED, steps) && Stranded(Run(CREATED, steps))
  {
    var steps := [Read(false), Write(b)];
    var w1 := Next(CREATED, Read(false));
    var w2 := Next(w1, Write(b));
    assert steps[1..] == [Write(b)] && [Write(b)][1..] == [];
    assert AllEnabled(w2, []) && Orderly(w2, []) && Run(w2, []) == w2;
    assert AllEnabled(w1, [Write(b)]) && Orderly(w1, [Write(b)]) && Run(w1, [Write(b)]) == w2;
  }

  /** So is one that starts to wait between two rounds of a write of more than two rings. */
  lemma LongResumptionStrands(b: Bytes)
    requires |b| > 2 * PIPE_SIZE
    ensures var steps := [Write(b), Read(false), Read(false), WriteResume];
            AllEnabled(CREATED, steps) && Orderly(CREATED, steps) && Stranded(Run(CREATED, steps))
  {
    var s3 := [WriteResume];
    var s2, s1 := [Read(false)] + s3, [Read(false), Read(false)] + s3;
    var steps := [Write(b)] + s1;
    assert s3[1..] == [] && s2[1..] == s3 && s1[1..] == s2 && steps[1..] == s1;
    assert steps == [Write(b), Read(false), Read(false), WriteResume];
    var w1 := Next(CREATED, Write(b));
    assert w1.content == b[..PIPE_SIZE] && w1.writer == WriterBlocked(b[PIPE_SIZE..]);
    var w2 := Next(w1, Read(false));
    assert w2.content == [] && w2.writer == WriterWoken(b[PIPE_SIZE..]) && w2.slot == NoOne;
    var w3 := Next(w2, Read(false));
    var w4 := Next(w3, WriteResume);
    assert AllEnabled(w4, []) && Orderly(w4, []) && Run(w4, []) == w4;
    assert AllEnabled(w3, s3) && Orderly(w3, s3) && Run(w3, s3) == w4;
    assert AllEnabled(w2, s2) && Orderly(w2, s2) && Run(w2, s2) == w4;
    assert AllEnabled(w1, s1) && Orderly(w1, s1) && Run(w1, s1) == w4;
  }

  predicate ShortWrites(steps: seq<Step>) {
    forall i | 0 <= i < |steps| :: steps[i].Write? ==> |steps[i].s| <= PIPE_SIZE
  }

  lemma {:induction false} ShortWritesKeepSlot(w: World, steps: seq<Step>)
    requires Inv(w) && AllEnabled(w, steps) && ShortWrites(steps) && |Rest(w.writer)| <= PIPE_SIZE
    ensures !SlotTakenIn(w, steps)
    decreases |steps|
  {
    if steps == [] {
    } else {
      NextKeeps(w, steps[0]);
      assert ShortWrites(steps[1..]);
      ShortWritesKeepSlot(Next(w, steps[0]), steps[1..]);
    }
  }

  /** In particular when no single write is longer than the ring, no wakeup is ever lost: a
      blocked reader is in the slot and the ring is empty, a blocked writer is in the slot and the
      ring is full, so the two are never blocked together. */
  lemma ShortWritesNeverStrand(steps: seq<Step>)
    requires AllEnabled(CREATED, steps) && ShortWrites(steps)
    ensures var w := Run(CREATED, steps);
            && (w.reader.ReaderBlocked? ==> w.slot.ReaderWaits? && w.content == [])
            && (w.writer.WriterBlocked? ==> w.slot.WriterWaits? && |w.content| == PIPE_SIZE)
            && !(w.reader.ReaderBlocked? && w.writer.WriterBlocked?)
  {
    ShortWritesKeepSlot(CREATED, steps);
    StrandedExactly(steps);
    InvAlongRun(CREATED, steps);
  }
}
