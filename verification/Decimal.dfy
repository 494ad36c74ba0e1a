/**
Printing numbers: the digit loop with its in-place reversal, and the hh:mm:ss
text of the resource monitor. Source: int_to_ascii and display_resource_usage of
drivers/keyboard.c.
*/
module Decimal {
  import opened CStrings
  import opened Terminal
  import opened Console

  predicate IsDigit(c: char) {
    '0' <= c <= '9'
  }

  function Digit(d: nat): char
    requires d < 10
  {
    (d + '0' as int) as char
  }

  /** The number a digit string stands for. */
  function Value(s: string): nat
    requires forall k :: 0 <= k < |s| ==> IsDigit(s[k])
  {
    if s == "" then 0
    else assert IsDigit(s[|s| - 1]); 10 * Value(s[..|s| - 1]) + (s[|s| - 1] as int - '0' as int)
  }

  predicate AllDigits(s: string) {
    forall k :: 0 <= k < |s| ==> IsDigit(s[k])
  }

  /** s is the decimal numeral of n: digits only, the right value, no leading zero. */
  predicate IsNumeral(s: string, n: nat) {
    && AllDigits(s) && s != "" && Value(s) == n
    && (s[0] == '0' ==> s == "0")
  }

  function Pow10(k: nat): nat {
    if k == 0 then 1 else 10 * Pow10(k - 1)
  }

  /** A numeral of k digits stands for less than 10^k, and for at least 10^(k-1) unless it is "0". */
  lemma {:induction false} ValueBounds(s: string)
    requires AllDigits(s) && s != ""
    ensures Value(s) < Pow10(|s|)
    ensures s[0] != '0' ==> Pow10(|s| - 1) <= Value(s)
    decreases |s|
  {
    if |s| > 1 {
      ValueBounds(s[..|s| - 1]);
    } else {
      assert s[..0] == "" && Pow10(1) == 10;
    }
  }

  lemma {:induction false} Pow10Grows(i: nat, j: nat)
    requires i <= j
    ensures 1 <= Pow10(i) <= Pow10(j)
    decreases j
  {
    if i < j { Pow10Grows(i, j - 1); } else if i > 0 { Pow10Grows(i - 1, j - 1); }
  }

  /** A longer numeral is a larger number. */
  lemma LongerIsLarger(s: string, t: string)
    requires AllDigits(s) && AllDigits(t) && t != "" && |t| < |s| && s[0] != '0'
    ensures Value(t) < Value(s)
  {
    ValueBounds(s);
    ValueBounds(t);
    Pow10Grows(|t|, |s| - 1);
  }

  lemma NotZero(s: string)
    requires AllDigits(s) && s != "" && s[0] != '0'
    ensures Value(s) > 0 == Value("0")
  {
    ValueBounds(s);
    Pow10Grows(0, |s| - 1);
    assert "0"[..0] == "";
  }

  lemma {:induction false} SameDigits(s: string, t: string)
    requires AllDigits(s) && AllDigits(t) && |s| == |t| && Value(s) == Value(t)
    ensures s == t
    decreases |s|
  {
    if s != "" {
      SameDigits(s[..|s| - 1], t[..|t| - 1]);
      assert s == s[..|s| - 1] + [s[|s| - 1]] && t == t[..|t| - 1] + [t[|t| - 1]];
    }
  }

  /** There is only one numeral for a number. */
  lemma NumeralUnique(s: string, t: string, n: nat)
    requires IsNumeral(s, n) && IsNumeral(t, n)
    ensures s == t
  {
    if s[0] != '0' { NotZero(s); }
    if t[0] != '0' { NotZero(t); }
    if s[0] != '0' && t[0] != '0' {
      if |s| < |t| {
        LongerIsLarger(t, s);
      } else if |t| < |s| {
        LongerIsLarger(s, t);
      } else {
        SameDigits(s, t);
      }
    }
  }

  lemma TenDigits()
    ensures Pow10(10) == 10000000000
  {
    assert Pow10(3) == 1000;
    assert Pow10(6) == 1000000;
    assert Pow10(8) == 100000000;
  }

  /** At most ten digits for a 31-bit number. */
  lemma NumeralShort(s: string, n: nat)
    requires IsNumeral(s, n) && n < 0x8000_0000
    ensures |s| <= 10
  {
    ValueBounds(s);
    TenDigits();
    if |s| > 10 {
      Pow10Grows(10, |s| - 1);
    }
  }

  /** The value of digits written lowest first. */
  function ReverseValue(s: string): nat
    requires AllDigits(s)
  {
    if s == "" then 0 else (s[0] as int - '0' as int) + 10 * ReverseValue(s[1..])
  }

  function Reversed(s: string): (r: string)
    ensures |r| == |s| && forall k :: 0 <= k < |s| ==> r[k] == s[|s| - 1 - k]
  {
    seq(|s|, k requires 0 <= k < |s| => s[|s| - 1 - k])
  }

  lemma {:induction false} ReversedValue(s: string)
    requires AllDigits(s)
    ensures AllDigits(Reversed(s)) && Value(Reversed(s)) == ReverseValue(s)
    decreases |s|
  {
    if s != "" {
      ReversedValue(s[1..]);
      assert Reversed(s)[..|s| - 1] == Reversed(s[1..]);
    }
  }

  /** One more high digit adds its place value. */
  lemma {:induction false} ReverseValueAppend(s: string, c: char)
    requires AllDigits(s) && IsDigit(c)
    ensures AllDigits(s + [c]) && ReverseValue(s + [c]) == ReverseValue(s) + (c as int - '0' as int) * Pow10(|s|)
    decreases |s|
  {
    if s == "" {
      assert (s + [c])[1..] == "";
    } else {
      assert (s + [c])[1..] == s[1..] + [c];
      ReverseValueAppend(s[1..], c);
      var d := c as int - '0' as int;
      assert d * Pow10(|s|) == 10 * (d * Pow10(|s| - 1));
    }
  }

  /** The two-pointer reversal of the first n characters. */
  method ReverseInPlace(str: array<char>, n: nat)
    requires n <= str.Length
    modifies str
    ensures str[..n] == Reversed(old(str[..n]))
    ensures forall k :: n <= k < str.Length ==> str[k] == old(str[k])
  {
    var j, k := 0, n - 1;
    while j < k
      invariant 0 <= j && j + k == n - 1 && j <= k + 1
      invariant forall m :: 0 <= m < j || k < m < n ==> str[m] == old(str[n - 1 - m])
      invariant forall m :: j <= m <= k || n <= m < str.Length ==> str[m] == old(str[m])
    {
      str[j], str[k] := str[k], str[j];
      j, k := j + 1, k - 1;
    }
  }

  lemma MulAtLeast(n: nat, m: nat)
    requires n > 0
    ensures n * m >= m
  {
  }

  /** Ten digits are enough: with ten written, nothing is left of a 31-bit number. */
  lemma DigitsLeft(n: nat, i: nat, number: nat)
    requires 0 < n && n * Pow10(i) <= number < 0x8000_0000
    ensures i < 10
  {
    TenDigits();
    if i >= 10 {
      Pow10Grows(10, i);
      MulAtLeast(n, Pow10(i));
    }
  }

  lemma DigitSplit(n: nat, m: nat)
    ensures n * m == (n / 10) * (10 * m) + (n % 10) * m
  {
    assert n == 10 * (n / 10) + n % 10;
  }

  /** The digit loop: the digits of a positive number, lowest first. */
  method WriteDigits(number: int, str: array<char>) returns (i: nat)
    requires number < 0x8000_0000 && 12 <= str.Length
    modifies str
    ensures i <= 10 && AllDigits(str[..i])
    ensures if number > 0 then i > 0 && str[i - 1] != '0' && ReverseValue(str[..i]) == number else i == 0
  {
    i := 0;
    var n := number;
    while n > 0
      invariant i <= 10 && AllDigits(str[..i]) && (number <= 0 ==> i == 0 && n == number)
      invariant number > 0 ==> 0 <= n && number == ReverseValue(str[..i]) + n * Pow10(i)
      invariant number > 0 && n == 0 ==> i > 0 && str[i - 1] != '0'
    {
      DigitSplit(n, Pow10(i));
      DigitsLeft(n, i, number);
      ReverseValueAppend(str[..i], Digit(n % 10));
      str[i] := (n % 10 + '0' as int) as char;
      assert str[..i + 1] == str[..i] + [Digit(n % 10)];
      i := i + 1;
      n := n / 10;
    }
  }

  lemma ReversedNumeral(digits: string, number: nat)
    requires AllDigits(digits) && digits != "" && digits[|digits| - 1] != '0'
    requires ReverseValue(digits) == number < 0x8000_0000
    ensures var s := Reversed(digits); IsNumeral(s, number) && |s| <= 10 && '\0' !in s
  {
    ReversedValue(digits);
    var s := Reversed(digits);
    assert s[0] == digits[|digits| - 1];
    hide Reversed;
    hide Value;
    hide ReverseValue;
    NumeralShort(s, number);
  }

  lemma ZeroValue()
    ensures Value("0") == 0 && IsNumeral("0", 0)
  {
    assert "0"[..0] == "";
  }

  /** int_to_ascii: the numeral of a number that is not negative; a lone minus sign for one that is. */
  method IntToAscii(number: int, str: array<char>)
    requires -0x8000_0000 <= number < 0x8000_0000 && 12 <= str.Length
    modifies str
    ensures Terminated(str)
    ensures if number >= 0 then IsNumeral(CStr(str), number) && |CStr(str)| <= 10 else CStr(str) == "-"
  {
    hide ReverseValue;
    hide Value;
    hide Reversed;
    hide AllDigits;
    if number == 0 {
      str[0], str[1] := '0', '\0';
      ZeroValue();
      CStrIs(str, "0");
      return;
    }
    var i := WriteDigits(number, str);
    ghost var digits := str[..i];
    if number < 0 {
      str[i] := '-';
      i := i + 1;
    }
    str[i] := '\0';
    ReverseInPlace(str, i);
    if number > 0 {
      ReversedNumeral(digits, number);
      CStrIs(str, Reversed(digits));
    } else {
      CStrIs(str, "-");
    }
  }

  // ---- the clock of the resource monitor ----

  function Numeral(n: nat): (s: string)
    ensures IsNumeral(s, n)
  {
    if n < 10 then
      assert [Digit(n)][..0] == "";
      [Digit(n)]
    else
      var s := Numeral(n / 10) + [Digit(n % 10)];
      assert s[..|s| - 1] == Numeral(n / 10);
      ZeroValue();
      s
  }

  /** Two digits at least. */
  function Padded(n: nat): string {
    (if n < 10 then "0" else "") + Numeral(n)
  }

  function ClockText(seconds: nat): string {
    Padded(seconds / 3600) + ":" + Padded(seconds % 3600 / 60) + ":" + Padded(seconds % 60)
  }

  /** Hours, minutes and seconds, told apart by the first two colons. */
  function Fields(s: string): (string, string, string) {
    var h := UpTo(s, ':');
    var rest := if |h| < |s| then s[|h| + 1..] else "";
    var m := UpTo(rest, ':');
    (h, m, if |m| < |rest| then rest[|m| + 1..] else "")
  }

  predicate IsClock(s: string) {
    AllDigits(Fields(s).0) && AllDigits(Fields(s).1) && AllDigits(Fields(s).2)
  }

  function ReadClock(s: string): nat
    requires IsClock(s)
  {
    3600 * Value(Fields(s).0) + 60 * Value(Fields(s).1) + Value(Fields(s).2)
  }

  lemma PaddedValue(n: nat)
    ensures AllDigits(Padded(n)) && Value(Padded(n)) == n && |Padded(n)| >= 2 && ':' !in Padded(n)
  {
    var s := Padded(n);
    if n < 10 {
      assert s[..|s| - 1] == "0" && "0"[..0] == "";
    } else {
      assert s == Numeral(n);
    }
  }

  lemma FieldsOf(h: string, m: string, s: string)
    requires ':' !in h && ':' !in m
    ensures Fields(h + ":" + m + ":" + s) == (h, m, s)
  {
    var text := h + ":" + m + ":" + s;
    assert text[..|h|] == h;
    UpToUnique(text, ':', |h|);
    var rest := text[|h| + 1..];
    assert rest == m + ":" + s && rest[..|m|] == m;
    UpToUnique(rest, ':', |m|);
    assert rest[|m| + 1..] == s;
  }

  /** Fewer than a hundred takes two digits. */
  lemma PaddedTwo(n: nat)
    requires n < 100
    ensures |Padded(n)| == 2
  {
    if n >= 10 { assert |Numeral(n / 10)| == 1; }
  }

  /**
  The text of the clock reads back as exactly the number of seconds, with two digits
  for minutes and seconds below sixty and at least two for hours.
  */
  lemma ClockReadsBack(seconds: nat)
    ensures IsClock(ClockText(seconds)) && ReadClock(ClockText(seconds)) == seconds
    ensures var (h, m, s) := Fields(ClockText(seconds));
            |h| >= 2 && |m| == |s| == 2 && Value(m) < 60 && Value(s) < 60
  {
    PaddedTwo(seconds % 3600 / 60);
    PaddedTwo(seconds % 60);
    hide Fields;
    hide Padded;
    hide Value;
    PaddedValue(seconds / 3600);
    PaddedValue(seconds % 3600 / 60);
    PaddedValue(seconds % 60);
    FieldsOf(Padded(seconds / 3600), Padded(seconds % 3600 / 60), Padded(seconds % 60));
  }

  /** A leading zero below ten, then the number. */
  method PrintPadded(console: Console, n: nat)
    requires console.Valid() && n < 0x8000_0000
    modifies console, console.vidmem
    ensures console.Valid() && console.term == Puts(old(console.term), Padded(n))
  {
    var buffer := new char[32];
    if n < 10 {
      console.Kprint("0");
    }
    IntToAscii(n, buffer);
    NumeralUnique(CStr(buffer), Numeral(n), n);
    PutsAppend(old(console.term), if n < 10 then "0" else "", Numeral(n));
    console.Kprint(CStr(buffer));
  }

  /** The clock of the resource monitor, for any 32-bit uptime. */
  method PrintClock(console: Console, uptime: nat)
    requires console.Valid() && uptime < 0x1_0000_0000
    modifies console, console.vidmem
    ensures console.Valid() && console.term == Puts(old(console.term), ClockText(uptime))
  {
    ghost var t := console.term;
    ghost var h, m, s := Padded(uptime / 3600), Padded(uptime % 3600 / 60), Padded(uptime % 60);
    PrintPadded(console, uptime / 3600);
    console.Kprint(":");
    PrintPadded(console, uptime % 3600 / 60);
    console.Kprint(":");
    PrintPadded(console, uptime % 60);
    PutsAppend(t, h, ":");
    PutsAppend(t, h + ":", m);
    PutsAppend(t, h + ":" + m, ":");
    PutsAppend(t, h + ":" + m + ":", s);
  }
}
