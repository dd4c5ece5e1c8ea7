// Printing fills a buffer backwards and reverses it in place; parsing runs over the text once
// (Userland/SampleCodeModule/libc.c:29-54, 91-121).
module RadixCode {
  import opened Arithmetic
  import opened Radix

  function Reversed(s: string): (r: string)
    ensures |r| == |s| && forall i | 0 <= i < |s| :: r[i] == s[|s| - 1 - i]
  {
    seq(|s|, i requires 0 <= i < |s| => s[|s| - 1 - i])
  }

  lemma ReversedSnoc(s: string, c: char)
    ensures Reversed(s + [c]) == [c] + Reversed(s)
  {
  }

  /** Text and terminator go to the start of the buffer; the number of digits is returned. */
  method UintToBase(value: nat, buffer: array<char>, base: nat) returns (digits: nat)
    requires 2 <= base <= 36 && |Digits(value, base)| < buffer.Length
    modifies buffer
    ensures digits == |Digits(value, base)| && buffer[..digits] == Digits(value, base)
    ensures buffer[digits] == '\0'
    ensures buffer[digits + 1..] == old(buffer[digits + 1..])
  {
    digits := WriteBackwards(value, buffer, base);
    buffer[digits] := '\0';
    ghost var text := buffer[..digits];
    ReverseInPlace(buffer, digits);
    assert Reversed(text) == Digits(value, base);
  }

  /** The remainders, least significant first. */
  method WriteBackwards(value: nat, buffer: array<char>, base: nat) returns (digits: nat)
    requires 2 <= base <= 36 && |Digits(value, base)| < buffer.Length
    modifies buffer
    ensures digits == |Digits(value, base)| && Reversed(buffer[..digits]) == Digits(value, base)
    ensures buffer[digits..] == old(buffer[digits..])
  {
    ghost var all := Digits(value, base);
    var v: nat := value;
    digits := 0;
    NothingWritten(value, base, buffer[..0]);
    while v >= base
      invariant digits < |all| && Split(v, base, buffer[..digits], all)
      invariant buffer[digits..] == old(buffer[digits..])
      decreases v
    {
      v := PutDigit(v, base, buffer, digits, all);
      digits := digits + 1;
    }
    v := PutDigit(v, base, buffer, digits, all);
    digits := digits + 1;
    assert |Reversed(buffer[..digits])| == digits;
  }

  /** The digits still to come and those already written, which stand in reverse. */
  ghost predicate Split(v: nat, base: nat, text: string, all: string)
    requires 2 <= base <= 36
  {
    |text| < |all| && Digits(v, base) + Reversed(text) == all
  }

  lemma NothingWritten(value: nat, base: nat, text: string)
    requires 2 <= base <= 36 && text == []
    ensures Split(value, base, text, Digits(value, base))
  {
    assert Reversed(text) == [];
  }

  /** One round: the remainder is written and divided away. */
  method PutDigit(v: nat, base: nat, buffer: array<char>, digits: nat, ghost all: string) returns (rest: nat)
    requires 2 <= base <= 36 && digits < buffer.Length && Split(v, base, buffer[..digits], all)
    modifies buffer
    ensures v >= base ==> rest < v && Split(rest, base, buffer[..digits + 1], all)
    ensures v < base ==> Reversed(buffer[..digits + 1]) == all
    ensures buffer[digits + 1..] == old(buffer[digits + 1..])
  {
    SplitStep(v, base, buffer[..digits], all);
    ghost var text := buffer[..digits];
    var c := DigitChar(v % base);
    buffer[digits] := c;
    assert buffer[..digits + 1] == text + [c];
    rest := v / base;
  }

  lemma SplitStep(v: nat, base: nat, text: string, all: string)
    requires 2 <= base <= 36 && Split(v, base, text, all)
    ensures v >= base ==> v / base < v && Split(v / base, base, text + [DigitChar(v % base)], all)
    ensures v < base ==> Reversed(text + [DigitChar(v % base)]) == all
  {
    ghost var c := DigitChar(v % base);
    ReversedSnoc(text, c);
    if v >= base {
      QuotientShrinks(v, base);
      LastDigit(v, base);
      Regroup(Digits(v / base, base), c, Reversed(text));
      LongerThan(Digits(v / base, base), c, Reversed(text));
    } else {
      assert Digits(v, base) == [c];
    }
  }

  lemma LastDigit(v: nat, base: nat)
    requires 2 <= base <= 36 && v >= base
    ensures Digits(v, base) == Digits(v / base, base) + [DigitChar(v % base)]
  {
  }

  lemma LongerThan(a: string, c: char, b: string)
    requires a != []
    ensures |b + [c]| < |(a + [c]) + b|
  {
  }

  lemma Regroup(a: string, c: char, b: string)
    ensures (a + [c]) + b == a + ([c] + b)
  {
  }

  method ReverseInPlace(buffer: array<char>, n: nat)
    requires n <= buffer.Length
    modifies buffer
    ensures buffer[..n] == Reversed(old(buffer[..n])) && buffer[n..] == old(buffer[n..])
  {
    var i, j := 0, n;
    while i + 1 < j
      invariant 0 <= i <= n && j == n - i && i <= j + 1
      invariant forall k | 0 <= k < i :: buffer[k] == old(buffer[n - 1 - k]) && buffer[n - 1 - k] == old(buffer[k])
      invariant forall k | i <= k < j :: buffer[k] == old(buffer[k])
      invariant forall k | n <= k < buffer.Length :: buffer[k] == old(buffer[k])
    {
      buffer[i], buffer[j - 1] := buffer[j - 1], buffer[i];
      i := i + 1;
      j := j - 1;
    }
  }

  /** `ok` is only ever lowered. */
  method Hex2Int(hex: string, ok: bool) returns (val: nat, stillOk: bool)
    ensures stillOk == (ok && IsNumeral(hex, 16))
    ensures val == if IsNumeral(hex, 16) then Value(Upper(hex), 16) % 0x1_0000_0000_0000_0000 else 0
  {
    val := 0;
    for i := 0 to |hex|
      invariant IsNumeral(hex[..i], 16) && val == Value(hex[..i], 16) % WORD64
    {
      var c := hex[i];
      if !('0' <= c <= '9') && !('a' <= c <= 'f') && !('A' <= c <= 'F') {
        return 0, false;
      }
      var d := if c <= '9' then c as nat - 48 else if c >= 'a' then c as nat - 87 else c as nat - 55;
      Next(hex, i, 16);
      val := (val * 16 + d) % WORD64;
    }
    assert hex[..|hex|] == hex;
    SmallLettersCount(hex);
    stillOk := ok;
  }

  method Atoi(str: string, ok: bool) returns (num: nat, stillOk: bool)
    ensures stillOk == (ok && IsNumeral(str, 10))
    ensures num == if IsNumeral(str, 10) then Value(str, 10) % 0x1_0000_0000_0000_0000 else 0
  {
    num := 0;
    for i := 0 to |str|
      invariant IsNumeral(str[..i], 10) && num == Value(str[..i], 10) % WORD64
    {
      if str[i] < '0' || str[i] > '9' {
        return 0, false;
      }
      Next(str, i, 10);
      num := (num * 10 + (str[i] as nat - 48)) % WORD64;
    }
    assert str[..|str|] == str;
    stillOk := ok;
  }

  lemma Next(s: string, i: nat, base: nat)
    requires i < |s|
    ensures Value(s[..i + 1], base) % WORD64 == (Value(s[..i], base) % WORD64 * base + CharDigit(s[i])) % WORD64
  {
    assert s[..i + 1][..i] == s[..i];
    ModStep(Value(s[..i], base), base, CharDigit(s[i]), WORD64);
  }
}
