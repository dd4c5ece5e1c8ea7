// The pipe's ring buffer in place (Kernel/utils/pipes.c:9-18, 129-182).
module PipeCode {
  import opened PipeSpec

  /** Index of the `i`-th byte after `readPos`. */
  function Cell(readPos: nat, i: nat): (r: nat)
    ensures r < PIPE_SIZE
  {
    (readPos + i) % PIPE_SIZE
  }

  /** `count` bytes of the ring from `readPos` on. */
  function Ring(data: seq<char>, readPos: nat, count: nat): (r: Bytes)
    requires |data| == PIPE_SIZE
    ensures |r| == count
  {
    seq(count, i requires 0 <= i < count => data[Cell(readPos, i)])
  }

  lemma RingPut(data: seq<char>, readPos: nat, count: nat, c: char)
    requires |data| == PIPE_SIZE && count < PIPE_SIZE && readPos <= PIPE_SIZE
    ensures Ring(data[Cell(readPos, count) := c], readPos, count + 1) == Ring(data, readPos, count) + [c]
  {
    forall i: nat | i < count
      ensures Cell(readPos, i) != Cell(readPos, count)
    {
    }
  }

  lemma RingGet(data: seq<char>, readPos: nat, count: nat)
    requires |data| == PIPE_SIZE && 0 < count && readPos <= PIPE_SIZE
    ensures Ring(data, readPos, count)[0] == data[readPos % PIPE_SIZE]
    ensures Ring(data, readPos % PIPE_SIZE + 1, count - 1) == Ring(data, readPos, count)[1..]
  {
    var next := readPos % PIPE_SIZE + 1;
    forall i: nat | i < count - 1
      ensures Cell(next, i) == Cell(readPos, i + 1)
    {
    }
  }

  class Pipe {
    const data: array<char>
    var readPos: nat      // wraps when the next byte is read
    var writePos: nat     // wraps as soon as it reaches the end
    var bytesToRead: nat
    var readOpen: bool
    var writeOpen: bool
    var waiting: Slot

    ghost predicate Shape()
      reads this
    {
      data.Length == PIPE_SIZE && readPos <= PIPE_SIZE && writePos < PIPE_SIZE
    }

    ghost predicate Valid()
      reads this
    {
      Shape() && bytesToRead <= PIPE_SIZE && writePos == Cell(readPos, bytesToRead)
    }

    ghost function Contents(): (r: Bytes)
      requires Valid()
      reads this, data
      ensures |r| == bytesToRead
    {
      Ring(data[..], readPos, bytesToRead)
    }

    /** The ring as the protocol sees it.  Past PIPE_SIZE bytes only their number is meaningful. */
    ghost predicate Shows(w: World)
      reads this, data
    {
      && Shape() && bytesToRead == |w.content|
      && (bytesToRead <= PIPE_SIZE ==> Valid() && Contents() == w.content)
      && waiting == w.slot && readOpen == w.readOpen && writeOpen == w.writeOpen
    }

    constructor ()
      ensures Shows(CREATED) && Valid() && fresh(data)
    {
      data := new char[PIPE_SIZE];
      readPos, writePos, bytesToRead := 0, 0, 0;
      readOpen, writeOpen := true, true;
      waiting := NoOne;
    }

    /** Lines 140-143. */
    method Put(c: char)
      requires Shape()
      modifies this`writePos, this`bytesToRead, data
      ensures Shape() && bytesToRead == old(bytesToRead) + 1
      ensures old(Valid() && bytesToRead < PIPE_SIZE) ==> Valid() && Contents() == old(Contents()) + [c]
    {
      ghost var before, room := data[..], Valid() && bytesToRead < PIPE_SIZE;
      if room {
        WriteIndex(readPos, bytesToRead);
        RingPut(before, readPos, bytesToRead, c);
      }
      data[writePos] := c;
      assert data[..] == before[writePos := c];
      writePos := writePos + 1;
      if writePos == PIPE_SIZE {
        writePos := 0;
      }
      bytesToRead := bytesToRead + 1;
    }

    /** Lines 166-174. */
    method Get() returns (c: char)
      requires Valid() && bytesToRead > 0
      modifies this`readPos, this`bytesToRead
      ensures Valid() && [c] + Contents() == old(Contents())
    {
      RingGet(data[..], readPos, bytesToRead);
      ReadIndex(readPos, bytesToRead);
      bytesToRead := bytesToRead - 1;
      if readPos == PIPE_SIZE {
        readPos := 0;
      }
      c := data[readPos];
      readPos := readPos + 1;
    }

    /** The write loop from byte `i` on.  A call that has just been woken stores its first byte
        without looking at the fill level again. */
    method WriteLoop(s: Bytes, i: nat, woken: bool, ghost w: World) returns (j: nat, woke: Slot)
      requires Shows(w) && i <= |s| && (woken ==> i < |s|)
      modifies this, data
      ensures Shows(Fill(w, s[i..], woken)) && j == i + Room(w.content, s[i..], woken)
      ensures woke == if j < |s| then NoOne else w.slot
    {
      j := Store(s, i, woken, w.content);
      assert s[i..j] == s[i..][..j - i];
      if j < |s| {
        woke := NoOne;
        waiting := WriterWaits;
      } else {
        woke := waiting;
        waiting := NoOne;
      }
    }

    method Store(s: Bytes, i: nat, woken: bool, ghost content: Bytes) returns (j: nat)
      requires Shape() && i <= |s| && (woken ==> i < |s|) && bytesToRead == |content|
      requires bytesToRead <= PIPE_SIZE ==> Valid() && Contents() == content
      modifies this`writePos, this`bytesToRead, data
      ensures i <= j <= |s| && j == i + Room(content, s[i..], woken)
      ensures Shape() && bytesToRead == |content| + (j - i)
      ensures bytesToRead <= PIPE_SIZE ==> Valid() && Contents() == content + s[i..j]
    {
      ghost var free := bytesToRead < PIPE_SIZE || (bytesToRead == PIPE_SIZE && !woken);
      j := i;
      var resumed := woken;
      while j < |s|
        invariant i <= j <= |s| && Shape() && bytesToRead == |content| + (j - i)
        invariant free ==> Valid() && Contents() == content + s[i..j]
        invariant free && resumed ==> bytesToRead < PIPE_SIZE
        invariant !free ==> bytesToRead > PIPE_SIZE || resumed
      {
        if !resumed && bytesToRead == PIPE_SIZE {
          return j;
        }
        resumed := false;
        Put(s[j]);
        assert s[i..j + 1] == s[i..j] + [s[j]];
        j := j + 1;
      }
    }

    /** The read loop: `single` delivers one byte, otherwise everything in the ring. */
    method ReadLoop(single: bool, ghost w: World) returns (got: Bytes, woke: Slot)
      requires Valid() && Shows(w)
      modifies this
      ensures Valid() && Shows(Drain(w, single)) && Drain(w, single).got == w.got + got && woke == w.slot
    {
      got := Fetch(single);
      assert got == w.content[..|got|] && Contents() == w.content[|got|..];
      woke := waiting;
      waiting := NoOne;
    }

    method Fetch(single: bool) returns (got: Bytes)
      requires Valid()
      modifies this`readPos, this`bytesToRead
      ensures Valid() && old(Contents()) == got + Contents()
      ensures |got| == if single then Min(1, |old(Contents())|) else |old(Contents())|
    {
      got := [];
      while bytesToRead > 0
        invariant Valid() && old(Contents()) == got + Contents()
        invariant single ==> got == []
      {
        var c := Get();
        Regroup(got, c, Contents());
        got := got + [c];
        if single {
          break;
        }
      }
    }

    /** pipeWrite up to its end or its block; `accepted` is false for the -1 return. */
    method Write(s: Bytes, ghost w: World) returns (accepted: bool, j: nat, woke: Slot)
      requires Shows(w) && Enabled(w, PipeSpec.Write(s))
      modifies this, data
      ensures Shows(Next(w, PipeSpec.Write(s)))
      ensures accepted <==> w.readOpen || |w.content| != PIPE_SIZE
      ensures accepted && j < |s| ==> Next(w, PipeSpec.Write(s)).writer == WriterBlocked(s[j..])
      ensures accepted && j >= |s| ==> j == |s| && Next(w, PipeSpec.Write(s)).writer == WriterIdle && woke == w.slot
    {
      if !readOpen && bytesToRead == PIPE_SIZE {
        return false, 0, NoOne;
      }
      accepted := true;
      assert s[0..] == s;
      j, woke := WriteLoop(s, 0, false, w.(sent := w.sent + s));
    }

    /** pipeWrite after its block, from byte `i` on. */
    method ResumeWrite(s: Bytes, i: nat, ghost w: World) returns (j: nat, woke: Slot)
      requires Shows(w) && i < |s| && w.writer == WriterWoken(s[i..])
      modifies this, data
      ensures Shows(Next(w, WriteResume)) && i <= j <= |s|
      ensures Next(w, WriteResume).writer == if j < |s| then WriterBlocked(s[j..]) else WriterIdle
    {
      j, woke := WriteLoop(s, i, true, w);
      assert s[i..][j - i..] == s[j..];
    }

    /** pipeRead up to its end or its block. */
    method Read(single: bool, ghost w: World) returns (got: Bytes, blocked: bool, woke: Slot)
      requires Valid() && Shows(w) && Enabled(w, PipeSpec.Read(single))
      modifies this
      ensures Valid() && Shows(Next(w, PipeSpec.Read(single)))
      ensures Next(w, PipeSpec.Read(single)).got == w.got + got
      ensures blocked <==> Next(w, PipeSpec.Read(single)).reader.ReaderBlocked?
    {
      if bytesToRead == 0 {
        if !writeOpen {
          return [], false, NoOne;
        }
        waiting := ReaderWaits;
        return [], true, NoOne;
      }
      blocked := false;
      got, woke := ReadLoop(single, w);
    }

    /** pipeRead after its block. */
    method ResumeRead(single: bool, ghost w: World) returns (got: Bytes, woke: Slot)
      requires Valid() && Shows(w) && w.reader == ReaderWoken(single)
      modifies this
      ensures Valid() && Shows(Next(w, ReadResume)) && Next(w, ReadResume).got == w.got + got
    {
      got, woke := ReadLoop(single, w);
    }

    /** closeFdPipe while the other end is open. */
    method CloseFd(reader: bool, ghost w: World) returns (woke: Slot)
      requires Shows(w) && Enabled(w, if reader then CloseReader else CloseWriter)
      modifies this
      ensures Shows(Next(w, if reader then CloseReader else CloseWriter)) && woke == w.slot
    {
      if reader {
        readOpen := false;
      } else {
        writeOpen := false;
      }
      woke := waiting;
      waiting := NoOne;
    }
  }

  lemma Regroup(a: Bytes, c: char, b: Bytes)
    ensures a + ([c] + b) == (a + [c]) + b
  {
  }

  lemma WriteIndex(readPos: nat, count: nat)
    requires readPos <= PIPE_SIZE && count < PIPE_SIZE
    ensures var w := Cell(readPos, count); Cell(readPos, count + 1) == if w + 1 == PIPE_SIZE then 0 else w + 1
  {
  }

  lemma ReadIndex(readPos: nat, count: nat)
    requires readPos <= PIPE_SIZE && 0 < count <= PIPE_SIZE
    ensures var r := if readPos == PIPE_SIZE then 0 else readPos;
            && Cell(r + 1, count - 1) == Cell(readPos, count)
            && readPos % PIPE_SIZE == r
  {
  }
}
