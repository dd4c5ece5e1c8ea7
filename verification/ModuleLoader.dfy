// The packer and the loader as loops: the packer appends chunks to an output stream, the loader
// moves a cursor through memory and copies (Toolchain/ModulePacker/main.c:54-121,
// Kernel/moduleLoader.c:11-31, Kernel/lib.c:16-52).
module ModuleLoader {
  import opened Options
  import opened ModuleImage

  const BUFFER_SIZE: nat := 128

  class Source {
    const data: Bytes
    var pos: nat
    var eof: bool // set by a read that asks for more than is left

    ghost predicate Valid()
      reads this
    {
      pos <= |data| && (eof ==> pos == |data|)
    }

    constructor (data: Bytes)
      ensures Valid() && pos == 0 && !eof && this.data == data
    {
      this.data := data;
      pos := 0;
      eof := false;
    }

    method Fread(n: nat) returns (chunk: Bytes)
      requires Valid()
      modifies this
      ensures Valid() && pos == (if old(pos) + n <= |data| then old(pos) + n else |data|)
      ensures chunk == data[old(pos)..pos]
      ensures eof <==> old(eof) || old(pos) + n > |data|
    {
      var end := if pos + n <= |data| then pos + n else |data|;
      chunk := data[pos..end];
      eof := eof || pos + n > |data|;
      pos := end;
    }
  }

  class Target {
    var written: Bytes

    constructor ()
      ensures written == []
    {
      written := [];
    }

    method Fwrite(chunk: Bytes)
      modifies this
      ensures written == old(written) + chunk
    {
      written := written + chunk;
    }

    /** An integer stored as the four bytes of a 32-bit field. */
    method WriteWord(n: nat)
      modifies this
      ensures written == old(written) + Le32(n)
    {
      WordBytes(n);
      Fwrite(Digits(n, 4));
    }

    /** Every byte of the file from its start, through a buffer of BUFFER_SIZE bytes. */
    method WriteFile(source: Source)
      requires source.Valid() && source.pos == 0 && !source.eof
      modifies this, source
      ensures written == old(written) + source.data
    {
      ghost var before := written;
      while !source.eof
        invariant source.Valid() && written == before + source.data[..source.pos]
        decreases |source.data| - source.pos, !source.eof
      {
        ghost var p := source.pos;
        var chunk := source.Fread(BUFFER_SIZE);
        Fwrite(chunk);
        assert source.data[..source.pos] == source.data[..p] + chunk;
      }
      assert source.data[..source.pos] == source.data;
    }

    method WriteModule(file: Bytes)
      modifies this
      ensures written == old(written) + (Le32(|file|) + file)
    {
      var source := new Source(file);
      WriteWord(|file|);
      WriteFile(source);
      assert old(written) + Le32(|file|) + file == old(written) + (Le32(|file|) + file);
    }
  }

  /** `files` holds the kernel and then the modules. */
  method BuildImage(files: seq<Bytes>) returns (image: Bytes)
    requires |files| >= 1
    ensures image == Image(files[0], files[1..])
  {
    var target := new Target();
    var kernel := new Source(files[0]);
    target.WriteFile(kernel);
    target.WriteWord(|files| - 1);
    ghost var head := target.written;
    for i := 1 to |files|
      invariant target.written == head + Entries(files[1..i])
    {
      target.WriteModule(files[i]);
      EntriesSnoc(files[1..i], files[i]);
      assert files[1..i] + [files[i]] == files[1..i + 1];
    }
    assert files[1..|files|] == files[1..];
    image := target.written;
  }

  lemma WordBytes(n: nat)
    ensures Digits(n, 4) == Le32(n)
  {
    assert Power(4) == WORD;
    SameField(Digits(n, 4), Le32(n));
  }

  lemma {:induction false} EntriesSnoc(ms: seq<Bytes>, m: Bytes)
    ensures Entries(ms + [m]) == Entries(ms) + (Le32(|m|) + m)
  {
    if ms == [] {
      assert [m][1..] == [] && [] + [m] == [m];
    } else {
      assert (ms + [m])[1..] == ms[1..] + [m];
      EntriesSnoc(ms[1..], m);
    }
  }

  // ---------------------------------------------------------------- the loader

  /** Copies of disjoint ranges; whole words when addresses and length allow it. */
  method Memcpy(ram: array<Byte>, dst: nat, src: nat, length: nat)
    requires dst + length <= ram.Length && src + length <= ram.Length && Clear(dst, length, src, length)
    modifies ram
    ensures ram[..] == Copied(old(ram[..]), dst, src, length)
  {
    if dst % 4 == 0 && src % 4 == 0 && length % 4 == 0 {
      CopyWords(ram, dst, src, length / 4);
    } else {
      CopyBytes(ram, dst, src, length);
    }
  }

  method CopyBytes(ram: array<Byte>, dst: nat, src: nat, length: nat)
    requires dst + length <= ram.Length && src + length <= ram.Length && Clear(dst, length, src, length)
    modifies ram
    ensures ram[..] == Copied(old(ram[..]), dst, src, length)
  {
    for i := 0 to length
      invariant forall a | 0 <= a < ram.Length ::
                  ram[a] == if dst <= a < dst + i then old(ram[src + a - dst]) else old(ram[a])
    {
      ram[dst + i] := ram[src + i];
    }
  }

  method CopyWords(ram: array<Byte>, dst: nat, src: nat, words: nat)
    requires dst + 4 * words <= ram.Length && src + 4 * words <= ram.Length && Clear(dst, 4 * words, src, 4 * words)
    modifies ram
    ensures ram[..] == Copied(old(ram[..]), dst, src, 4 * words)
  {
    for i := 0 to words
      invariant forall a | 0 <= a < ram.Length ::
                  ram[a] == if dst <= a < dst + 4 * i then old(ram[src + a - dst]) else old(ram[a])
    {
      var d, s := dst + 4 * i, src + 4 * i;
      ram[d], ram[d + 1], ram[d + 2], ram[d + 3] := ram[s], ram[s + 1], ram[s + 2], ram[s + 3];
    }
  }

  method ReadUint32(ram: array<Byte>, address: nat) returns (result: nat, next: nat)
    requires Within(ram[..], address, 4)
    ensures result == Field(ram[..], address) && next == address + 4
  {
    result := FromLe32(ram[address..address + 4]);
    next := address + 4;
  }

  /** Copies one module to its target and moves the cursor past it. */
  method LoadModule(ram: array<Byte>, cursor: nat, target: nat) returns (next: nat)
    requires LoadFrom(ram[..], cursor, [target]).Some?
    modifies ram
    ensures var size := Field(old(ram[..]), cursor);
            && next == cursor + 4 + size
            && ram[..] == Copied(old(ram[..]), target, cursor + 4, size)
  {
    var size, start := ReadUint32(ram, cursor);
    Memcpy(ram, target, start, size);
    next := start + size;
  }

  method LoadModules(ram: array<Byte>, payloadStart: nat, targetModuleAddress: seq<nat>)
    requires Load(ram[..], payloadStart, targetModuleAddress).Some?
    modifies ram
    ensures Load(old(ram[..]), payloadStart, targetModuleAddress) == Some(ram[..])
  {
    ghost var m := ram[..];
    var moduleCount, currentModule := ReadUint32(ram, payloadStart);
    ghost var targets := targetModuleAddress[..moduleCount];
    for i := 0 to moduleCount
      invariant LoadFrom(ram[..], currentModule, targets[i..]) == LoadFrom(m, payloadStart + 4, targets)
    {
      assert targets[i..][1..] == targets[i + 1..];
      currentModule := LoadModule(ram, currentModule, targetModuleAddress[i]);
    }
  }
}
