// Numbers as text in a base, printed and read back (Userland/SampleCodeModule/libc.c:29-54, 91-121).
module Radix {
  import opened Arithmetic

  const WORD64: nat := 0x1_0000_0000_0000_0000

  /** '0' to '9', then 'A' on. */
  function DigitChar(d: nat): char
    requires d < 36
  {
    if d < 10 then (d + 48) as char else (d + 55) as char
  }

  function CharDigit(c: char): nat {
    if c <= '9' then (if '0' <= c then c as nat - 48 else 99)
    else if 'a' <= c then c as nat - 87
    else if 'A' <= c then c as nat - 55
    else 99
  }

  /** What the parser for this base accepts: decimal digits, or hexadecimal ones of either case. */
  predicate IsDigit(c: char, base: nat) {
    '0' <= c <= '9' || (base == 16 && ('a' <= c <= 'f' || 'A' <= c <= 'F'))
  }

  predicate IsNumeral(s: string, base: nat) {
    forall i | 0 <= i < |s| :: IsDigit(s[i], base)
  }

  /** The digits of a number, most significant first. */
  function Digits(value: nat, base: nat): (s: string)
    requires 2 <= base <= 36
    ensures |s| >= 1
    decreases value
  {
    if value < base then [DigitChar(value)]
    else
      QuotientShrinks(value, base);
      Digits(value / base, base) + [DigitChar(value % base)]
  }

  function Value(s: string, base: nat): nat {
    if s == [] then 0 else Value(s[..|s| - 1], base) * base + CharDigit(s[|s| - 1])
  }

  function Power(base: nat, k: nat): nat {
    if k == 0 then 1 else base * Power(base, k - 1)
  }

  /** What is printed reads back as the same number. */
  lemma {:induction false} PrintThenParse(value: nat, base: nat)
    requires base == 10 || base == 16
    ensures IsNumeral(Digits(value, base), base) && Value(Digits(value, base), base) == value
    decreases value
  {
    var s := Digits(value, base);
    DigitFacts(value % base);
    if value < base {
      DigitFacts(value);
      assert s[..0] == [];
    } else {
      PrintThenParse(value / base, base);
      assert s[..|s| - 1] == Digits(value / base, base);
    }
  }

  lemma DigitFacts(d: nat)
    requires d < 16
    ensures CharDigit(DigitChar(d)) == d && IsDigit(DigitChar(d), 16)
    ensures d < 10 ==> IsDigit(DigitChar(d), 10)
    ensures !('a' <= DigitChar(d) <= 'f') && (DigitChar(d) == '0' <==> d == 0)
  {
  }

  /** No needless leading zero, and capital letters only. */
  predicate Canonical(s: string) {
    (|s| == 1 || (|s| > 1 && s[0] != '0')) && forall i | 0 <= i < |s| :: !('a' <= s[i] <= 'f')
  }

  lemma {:induction false} DigitsCanonical(value: nat, base: nat)
    requires base == 10 || base == 16
    ensures Canonical(Digits(value, base)) && (value > 0 ==> Digits(value, base)[0] != '0')
    decreases value
  {
    var s := Digits(value, base);
    if value < base {
      DigitFacts(value);
    } else {
      DigitsCanonical(value / base, base);
      DigitFacts(value % base);
      CanonicalSnoc(Digits(value / base, base), DigitChar(value % base));
      QuotientShrinks(value, base);
    }
  }

  lemma CanonicalSnoc(s: string, c: char)
    requires Canonical(s) && s[0] != '0' && !('a' <= c <= 'f')
    ensures Canonical(s + [c])
  {
  }

  lemma {:induction false} ValuePositive(s: string, base: nat)
    requires base >= 1 && s != [] && s[0] != '0' && IsNumeral(s, base)
    ensures Value(s, base) > 0
  {
    var init := s[..|s| - 1];
    if init == [] {
      assert Value(init, base) == 0;
    } else {
      ValuePositive(init, base);
      Multiples(Value(init, base), base);
    }
  }

  /** What is read prints back as the same text exactly when the text is canonical. */
  lemma {:induction false} ParseThenPrintExactly(s: string, base: nat)
    requires (base == 10 || base == 16) && s != [] && IsNumeral(s, base)
    ensures Digits(Value(s, base), base) == s <==> Canonical(s)
  {
    DigitsCanonical(Value(s, base), base);
    if Canonical(s) {
      CanonicalPrints(s, base);
    }
  }

  lemma {:induction false} CanonicalPrints(s: string, base: nat)
    requires (base == 10 || base == 16) && s != [] && IsNumeral(s, base) && Canonical(s)
    ensures Digits(Value(s, base), base) == s
  {
    var init, last := s[..|s| - 1], s[|s| - 1];
    CharFacts(last, base);
    assert s == init + [last];
    if init == [] {
      SingleDigit(last, base);
    } else {
      CanonicalInit(s, base);
      ValuePositive(init, base);
      CanonicalPrints(init, base);
      PrintsSnoc(init, last, base);
    }
  }

  lemma PrintsSnoc(init: string, last: char, base: nat)
    requires 2 <= base <= 36 && Value(init, base) > 0 && Digits(Value(init, base), base) == init
    requires CharDigit(last) < base && DigitChar(CharDigit(last)) == last
    ensures Digits(Value(init + [last], base), base) == init + [last]
  {
    assert (init + [last])[..|init|] == init;
    PrintsOneMore(Value(init, base), CharDigit(last), base);
  }

  lemma SingleDigit(c: char, base: nat)
    requires 2 <= base <= 36 && CharDigit(c) < base
    ensures Value([c], base) == CharDigit(c) && Digits(CharDigit(c), base) == [DigitChar(CharDigit(c))]
  {
    assert [c][..0] == [];
  }

  lemma CanonicalInit(s: string, base: nat)
    requires |s| > 1 && Canonical(s) && IsNumeral(s, base)
    ensures var init := s[..|s| - 1]; Canonical(init) && IsNumeral(init, base) && init[0] != '0'
  {
  }

  lemma CharFacts(c: char, base: nat)
    requires (base == 10 || base == 16) && IsDigit(c, base) && !('a' <= c <= 'f')
    ensures CharDigit(c) < base && DigitChar(CharDigit(c)) == c
  {
  }

  lemma PrintsOneMore(v: nat, d: nat, base: nat)
    requires 2 <= base <= 36 && v > 0 && d < base
    ensures Digits(v * base + d, base) == Digits(v, base) + [DigitChar(d)]
  {
    DivModUnique(v * base + d, base, v, d);
    Multiples(v, base);
  }

  // ---------------------------------------------------------------- small letters

  /** A hexadecimal small letter as its capital. */
  function Capital(c: char): char {
    if 'a' <= c <= 'f' then (c as nat - 32) as char else c
  }

  function Upper(s: string): (u: string)
    ensures |u| == |s| && forall i | 0 <= i < |s| :: u[i] == Capital(s[i])
  {
    seq(|s|, i requires 0 <= i < |s| => Capital(s[i]))
  }

  /** What the parsers accept: in base 10 the ten digits, in base 16 the sixteen, small letters
      counting as their capitals. */
  lemma AcceptedExactly(s: string)
    ensures IsNumeral(s, 10) <==> forall i | 0 <= i < |s| :: Spelled(s[i], 10)
    ensures IsNumeral(s, 16) <==> forall i | 0 <= i < |s| :: Spelled(Upper(s)[i], 16)
  {
    forall i | 0 <= i < |s|
      ensures IsDigit(s[i], 10) <==> Spelled(s[i], 10)
      ensures IsDigit(s[i], 16) <==> Spelled(Upper(s)[i], 16)
    {
      DigitExactly(s[i], 10);
      DigitExactly(s[i], 16);
    }
  }

  /** The character prints a digit of the base. */
  ghost predicate Spelled(c: char, base: nat)
    requires base <= 36
  {
    exists d: nat :: d < base && c == DigitChar(d)
  }

  lemma DigitExactly(c: char, base: nat)
    requires base == 10 || base == 16
    ensures IsDigit(c, base) <==> Spelled(if base == 16 then Capital(c) else c, base)
  {
    var u := if base == 16 then Capital(c) else c;
    if IsDigit(c, base) {
      CharFacts(u, base);
      assert u == DigitChar(CharDigit(u));
    }
  }

  /** Small letters are worth what their capitals are. */
  lemma {:induction false} SmallLettersCount(s: string)
    requires IsNumeral(s, 16)
    ensures IsNumeral(Upper(s), 16) && Value(s, 16) == Value(Upper(s), 16)
    decreases |s|
  {
    if s == [] {
    } else {
      var init, last := s[..|s| - 1], s[|s| - 1];
      SmallLettersCount(init);
      SameWorth(last);
      assert Upper(s)[..|s| - 1] == Upper(init);
    }
  }

  lemma SameWorth(c: char)
    requires IsDigit(c, 16)
    ensures IsDigit(Capital(c), 16) && CharDigit(Capital(c)) == CharDigit(c)
  {
  }

  /** So hexadecimal text prints back capitalised exactly when it has no needless leading zero. */
  lemma PrintsCapitalsExactly(s: string)
    requires s != [] && IsNumeral(s, 16)
    ensures Digits(Value(s, 16), 16) == Upper(s) <==> |s| == 1 || s[0] != '0'
  {
    SmallLettersCount(s);
    UpperCanonical(s);
    ParseThenPrintExactly(Upper(s), 16);
  }

  lemma UpperCanonical(s: string)
    requires s != []
    ensures Canonical(Upper(s)) <==> |s| == 1 || s[0] != '0'
  {
    var u := Upper(s);
    assert u[0] == Capital(s[0]);
  }

  // ---------------------------------------------------------------- order

  /** The digits are the characters '0' to '9' and then 'A' to 'Z', in their order. */
  lemma DigitsInOrder(d: nat, e: nat)
    requires d < 36 && e < 36
    ensures d < e <==> DigitChar(d) < DigitChar(e)
    ensures DigitChar(0) == '0' && DigitChar(9) == '9' && DigitChar(10) == 'A' && DigitChar(35) == 'Z'
  {
  }

  /** At the first place where two texts differ, `s` has the smaller character. */
  ghost predicate Less(s: string, t: string) {
    exists k: nat :: k < |s| && k < |t| && s[..k] == t[..k] && s[k] < t[k]
  }

  lemma LessSnoc(s: string, t: string, c: char, d: char)
    requires |s| == |t|
    ensures Less(s + [c], t + [d]) <==> Less(s, t) || (s == t && c < d)
  {
    var x, y := s + [c], t + [d];
    if Less(s, t) {
      var k: nat :| k < |s| && k < |t| && s[..k] == t[..k] && s[k] < t[k];
      assert x[..k] == s[..k] && y[..k] == t[..k];
    }
    if s == t && c < d {
      assert x[..|s|] == s && y[..|s|] == t;
    }
    if Less(x, y) {
      var k: nat :| k < |x| && k < |y| && x[..k] == y[..k] && x[k] < y[k];
      if k < |s| {
        assert x[..k] == s[..k] && y[..k] == t[..k];
      } else {
        assert x[..k] == s && y[..k] == t;
      }
    }
  }

  /** Of two printed numbers the smaller is the shorter text, or of two texts of one length the one
      with the smaller character where they first differ. */
  lemma {:induction false} PrintedOrderExactly(a: nat, b: nat, base: nat)
    requires 2 <= base <= 36
    ensures var s, t := Digits(a, base), Digits(b, base);
            a < b <==> |s| < |t| || (|s| == |t| && Less(s, t))
    decreases a + b
  {
    if a < base && b < base {
      LessSnoc([], [], DigitChar(a), DigitChar(b));
      assert [] + [DigitChar(a)] == [DigitChar(a)] && [] + [DigitChar(b)] == [DigitChar(b)];
      DigitsInOrder(a, b);
    } else if a >= base && b >= base {
      var p, q := a / base, b / base;
      QuotientShrinks(a, base);
      QuotientShrinks(b, base);
      PrintedOrderExactly(p, q, base);
      PrintedOrderExactly(q, p, base);
      DigitsInOrder(a % base, b % base);
      ByQuotient(a, b, base);
      NotLessThanItself(Digits(p, base));
      if |Digits(p, base)| == |Digits(q, base)| {
        LessSnoc(Digits(p, base), Digits(q, base), DigitChar(a % base), DigitChar(b % base));
      }
    }
  }

  lemma NotLessThanItself(s: string)
    ensures !Less(s, s)
  {
  }

  lemma ByQuotient(a: nat, b: nat, d: nat)
    requires d >= 1
    ensures a < b <==> a / d < b / d || (a / d == b / d && a % d < b % d)
  {
    assert a == a / d * d + a % d && b == b / d * d + b % d;
    Multiples(b / d - a / d, d);
    assert b / d * d - a / d * d == (b / d - a / d) * d;
  }

  // ---------------------------------------------------------------- width

  /** The width of what is printed. */
  lemma {:induction false} PrintedWidthExactly(value: nat, base: nat, k: nat)
    requires 2 <= base <= 36 && k >= 1
    ensures |Digits(value, base)| <= k <==> value < Power(base, k)
    decreases k
  {
    if value < base {
      PowerAtLeast(base, k);
    } else if k == 1 {
      assert Power(base, 1) == base * Power(base, 0) == base;
    } else {
      PrintedWidthExactly(value / base, base, k - 1);
      Quotient(value, base, Power(base, k - 1));
    }
  }

  lemma PowerAtLeast(base: nat, k: nat)
    requires base >= 1 && k >= 1
    ensures Power(base, k) >= base
  {
    PowerPositive(base, k - 1);
    Multiples(Power(base, k - 1), base);
  }

  lemma {:induction false} PowerPositive(base: nat, k: nat)
    requires base >= 1
    ensures Power(base, k) >= 1
  {
    if k == 0 {
    } else {
      PowerPositive(base, k - 1);
      Multiples(Power(base, k - 1), base);
    }
  }

  lemma Quotient(n: nat, d: nat, p: nat)
    requires d >= 1
    ensures n / d < p <==> n < d * p
  {
    var q, r := n / d, n % d;
    assert n == q * d + r;
    assert n - d * p == (q - p) * d + r;
    Multiples(q - p, d);
  }
}
