/** Decimal integers: parsing with overflow detection, against the value a string denotes. */
module Numbers {
  import opened Bounds

  const I32: Range := Range(-0x8000_0000, 0x7FFF_FFFF)
  const I64: Range := Range(-0x8000_0000_0000_0000, 0x7FFF_FFFF_FFFF_FFFF)

  datatype Parsed = Success(value: int) | Overflow

  predicate IsNum(c: char) {
    '0' <= c <= '9'
  }

  function Digit(c: char): (d: nat)
    requires IsNum(c)
    ensures d <= 9
  {
    c as int - '0' as int
  }

  ghost predicate Digits(s: string) {
    forall i :: 0 <= i < |s| ==> IsNum(s[i])
  }

  predicate Sign(c: char) {
    c == '+' || c == '-'
  }

  /** The strings the parsers may be given: digits, after at most one sign. */
  ghost predicate Number(s: string) {
    s != [] && if Sign(s[0]) then |s| > 1 && Digits(s[1..]) else Digits(s)
  }

  /** The number a string of digits denotes. */
  ghost function Magnitude(s: string): nat
    requires Digits(s)
  {
    if s == [] then 0 else 10 * Magnitude(s[..|s| - 1]) + Digit(s[|s| - 1])
  }

  ghost function Value(s: string): int
    requires Number(s)
  {
    if s[0] == '-' then 0 - Magnitude(s[1..]) else if s[0] == '+' then Magnitude(s[1..]) else Magnitude(s)
  }

  /** Digits behind digits only make the number larger. */
  lemma {:induction false} PrefixSmaller(s: string, n: nat)
    requires Digits(s) && n <= |s|
    ensures Magnitude(s[..n]) <= Magnitude(s)
    decreases |s|
  {
    if n == |s| {
      assert s[..n] == s;
    } else {
      var t := s[..|s| - 1];
      PrefixSmaller(t, n);
      assert t[..n] == s[..n];
    }
  }

  lemma NextDigit(s: string, n: nat)
    requires Digits(s) && n < |s|
    ensures Magnitude(s[..n + 1]) == 10 * Magnitude(s[..n]) + Digit(s[n])
  {
    assert s[..n + 1][..n] == s[..n];
  }

  /** Parsing succeeds exactly when the number denoted fits, however long the string is.
      The digits are collected as a negative number, as its range reaches one further. */
  method Parse(data: string, t: Range) returns (r: Parsed)
    requires t.Signed() && t.max >= 10 && Number(data)
    ensures r == if t.Has(Value(data)) then Success(Value(data)) else Overflow
  {
    hide Magnitude, Digits;
    var i, neg := 0, false;
    if data[i] == '+' || data[i] == '-' {
      neg := data[i] == '-';
      i := i + 1;
    }
    ghost var s, from := data[i..], i;
    WholeSlice(data, from);
    var acc, ok := 0, true;
    NoDigits(s);
    while i < |data|
      invariant from <= i <= |data| && acc == 0 - Magnitude(s[..i - from]) && t.Has(acc)
    {
      DigitAt(s, i - from);
      var digit := Digit(data[i]);
      NextDigit(s, i - from);
      PrefixSmaller(s, i - from + 1);
      ok, acc := SafeMul(acc, acc, 10, t);
      if !ok {
        return Overflow;
      }
      ok, acc := SafeSub(acc, acc, digit, t);
      if !ok {
        return Overflow;
      }
      i := i + 1;
    }
    assert s[..i - from] == s;
    if !neg {
      if acc == t.min {
        return Overflow;
      }
      acc := -acc;
    }
    r := Success(acc);
  }

  lemma WholeSlice(data: string, from: nat)
    requires Number(data) && from == if Sign(data[0]) then 1 else 0
    ensures Digits(data[from..])
    ensures Value(data) == if data[0] == '-' then 0 - Magnitude(data[from..]) else Magnitude(data[from..])
  {
    assert data[0..] == data;
  }

  lemma NoDigits(s: string)
    requires Digits(s)
    ensures Digits(s[..0]) && Magnitude(s[..0]) == 0
    ensures forall n :: 0 <= n <= |s| ==> Digits(s[..n])
  {
  }

  lemma DigitAt(s: string, n: nat)
    requires Digits(s) && n < |s|
    ensures IsNum(s[n]) && Digits(s[..n]) && Digits(s[..n + 1])
  {
  }

  /** The decimal digits of a number, without leading zeros. */
  function PrintNat(n: nat): (s: string)
    ensures |s| > 0 && Digits(s) && Magnitude(s) == n
  {
    var last := ['0' + (n % 10) as char];
    if n < 10 then
      assert last[..0] == [];
      last
    else
      var front := PrintNat(n / 10);
      assert (front + last)[..|front|] == front;
      front + last
  }

  function Print(v: int): string {
    if v < 0 then "-" + PrintNat(-v) else PrintNat(v)
  }

  /** A printed number denotes itself, so that parsing it gives it back exactly when it
      fits the type. */
  lemma PrintDenotes(v: int)
    ensures Number(Print(v)) && Value(Print(v)) == v
  {
    var s := Print(v);
    if v < 0 {
      assert s[1..] == PrintNat(-v);
    } else {
      assert IsNum(s[0]);
    }
  }

  method RoundTrip(v: int, t: Range) returns (r: Parsed)
    requires t.Signed() && t.max >= 10
    ensures r == if t.Has(v) then Success(v) else Overflow
  {
    PrintDenotes(v);
    r := Parse(Print(v), t);
  }

  /** The numbers of 32 bits are those from -2^31 to 2^31 - 1. */
  method ParseI32(data: string) returns (r: Parsed)
    requires Number(data)
    ensures r == if -2147483648 <= Value(data) <= 2147483647 then Success(Value(data)) else Overflow
  {
    r := Parse(data, I32);
  }

  /** The numbers of 64 bits are those from -2^63 to 2^63 - 1. */
  method ParseI64(data: string) returns (r: Parsed)
    requires Number(data)
    ensures r == if -9223372036854775808 <= Value(data) <= 9223372036854775807 then Success(Value(data)) else Overflow
  {
    r := Parse(data, I64);
  }

  // ------------------------------------------- what strings of digits denote

  /** The ten digits and what they are worth. */
  lemma DigitValues()
    ensures Digit('0') == 0 && Digit('1') == 1 && Digit('2') == 2 && Digit('3') == 3 && Digit('4') == 4
    ensures Digit('5') == 5 && Digit('6') == 6 && Digit('7') == 7 && Digit('8') == 8 && Digit('9') == 9
  {
  }

  ghost function Power(n: nat): nat {
    if n == 0 then 1 else 10 * Power(n - 1)
  }

  /** Each digit in front counts ten times as much. */
  lemma {:induction false} Positional(a: string, b: string)
    requires Digits(a) && Digits(b)
    ensures Digits(a + b) && Magnitude(a + b) == Magnitude(a) * Power(|b|) + Magnitude(b)
    decreases |b|
  {
    if b == [] {
      assert a + b == a;
    } else {
      var front := b[..|b| - 1];
      assert (a + b)[..|a + b| - 1] == a + front;
      Positional(a, front);
      MagnitudeLast(b);
      MagnitudeLast(a + b);
      hide Magnitude;
      TimesTen(Magnitude(a), Power(|front|), Magnitude(front), Digit(b[|b| - 1]));
    }
  }

  lemma MagnitudeLast(s: string)
    requires s != [] && Digits(s)
    ensures Magnitude(s) == 10 * Magnitude(s[..|s| - 1]) + Digit(s[|s| - 1])
  {
  }

  lemma TimesTen(m: nat, p: nat, f: nat, d: nat)
    ensures 10 * (m * p + f) + d == m * (10 * p) + (10 * f + d)
  {
  }

  /** Zeros in front change nothing. */
  lemma LeadingZero(s: string)
    requires Digits(s)
    ensures Digits("0" + s) && Magnitude("0" + s) == Magnitude(s)
  {
    Positional("0", s);
    assert "0"[..0] == [];
  }

  /** Strings of equal length denote numbers in the order of their characters. */
  lemma {:induction false} Ordered(a: string, b: string, i: nat)
    requires Digits(a) && Digits(b) && |a| == |b| && i < |a| && a[..i] == b[..i] && a[i] < b[i]
    ensures Magnitude(a) < Magnitude(b)
    decreases |a|
  {
    var n := |a| - 1;
    if i == n {
      assert a[..n] == b[..n];
    } else {
      assert a[..n][..i] == a[..i] && b[..n][..i] == b[..i];
      Ordered(a[..n], b[..n], i);
    }
  }

  /** n nines are one less than ten to the n. */
  lemma {:induction false} Nines(n: nat)
    ensures var s := seq(n, _ => '9'); Digits(s) && Magnitude(s) == Power(n) - 1
  {
    if n > 0 {
      Nines(n - 1);
      var s: string := seq(n, _ => '9');
      assert s[..n - 1] == seq(n - 1, _ => '9');
    }
  }

  /** Digits may stand alone or behind a sign, which tells whether they are taken off zero. */
  lemma Signs(s: string)
    requires s != [] && Digits(s)
    ensures Number(s) && Number("+" + s) && Number("-" + s)
    ensures Value(s) == Magnitude(s) == Value("+" + s) && Value("-" + s) == 0 - Magnitude(s)
  {
    assert IsNum(s[0]);
    assert ("+" + s)[1..] == s && ("-" + s)[1..] == s;
  }
}
