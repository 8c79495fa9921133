/** Character classes and numerals shared by the colour converter and the
    pull-request helper: ASCII digits and letters, Rust's `char::to_digit`,
    and the renderings `format!("{}", n)` and `format!("{:02X}", b)`. */
module Text {

  predicate IsDigit(c: char) { '0' <= c <= '9' }

  /** The class `[a-fA-F0-9]`. */
  predicate IsHexDigit(c: char) { '0' <= c <= '9' || 'a' <= c <= 'f' || 'A' <= c <= 'F' }

  /** The class `[A-Za-z]`. */
  predicate IsAsciiLetter(c: char) { 'a' <= c <= 'z' || 'A' <= c <= 'Z' }

  predicate IsAsciiUpper(c: char) { 'A' <= c <= 'Z' }

  predicate AllDigits(s: string) { forall i :: 0 <= i < |s| ==> IsDigit(s[i]) }

  predicate AllHexDigits(s: string) { forall i :: 0 <= i < |s| ==> IsHexDigit(s[i]) }

  /** Rust's `char::to_digit(36)`: the value of an ASCII alphanumeric, and 36
      (a digit of no radix) for every other character. */
  function ToDigit(c: char): (d: nat)
    ensures d <= 36
    ensures d < 10 <==> IsDigit(c)
    ensures d < 16 <==> IsHexDigit(c)
  {
    if '0' <= c <= '9' then c as int - '0' as int
    else if 'a' <= c <= 'z' then c as int - 'a' as int + 10
    else if 'A' <= c <= 'Z' then c as int - 'A' as int + 10
    else 36
  }

  predicate AllRadixDigits(s: string, radix: nat) { forall i :: 0 <= i < |s| ==> ToDigit(s[i]) < radix }

  /** Positional value of a decimal digit string, most significant digit first. */
  function DecimalValue(s: string): nat
  {
    if |s| == 0 then 0 else DecimalValue(s[..|s| - 1]) * 10 + ToDigit(s[|s| - 1])
  }

  /** Positional value of a hexadecimal digit string, most significant digit first. */
  function HexValue(s: string): nat
  {
    if |s| == 0 then 0 else HexValue(s[..|s| - 1]) * 16 + ToDigit(s[|s| - 1])
  }

  /** Length of the run of decimal digits that starts `s`. */
  function DigitRun(s: string): (n: nat)
    ensures n <= |s| && forall i :: 0 <= i < n ==> IsDigit(s[i])
    ensures n < |s| ==> !IsDigit(s[n])
  {
    if |s| == 0 || !IsDigit(s[0]) then 0 else DigitRun(s[1..]) + 1
  }

  lemma {:induction false} DigitRunOfDigits(d: string, rest: string)
    requires AllDigits(d) && (rest == [] || !IsDigit(rest[0]))
    ensures DigitRun(d + rest) == |d|
  {
    if |d| > 0 {
      assert (d + rest)[0] == d[0];
      assert (d + rest)[1..] == d[1..] + rest;
      DigitRunOfDigits(d[1..], rest);
    } else {
      assert d + rest == rest;
    }
  }

  lemma DecimalValueOfOne(p: string)
    requires |p| == 1
    ensures DecimalValue(p) == ToDigit(p[0])
  {
    assert p[..0] == [];
  }

  lemma HexValueOfOne(p: string)
    requires |p| == 1
    ensures HexValue(p) == ToDigit(p[0])
  {
    assert p[..0] == [];
  }

  function DigitChar(d: nat): (c: char)
    requires d < 10
    ensures IsDigit(c) && ToDigit(c) == d
  {
    ('0' as int + d) as char
  }

  function UpperHexChar(d: nat): (c: char)
    requires d < 16
    ensures IsHexDigit(c) && !('a' <= c <= 'z') && ToDigit(c) == d
  {
    if d < 10 then DigitChar(d) else ('A' as int + d - 10) as char
  }

  /** `format!("{}", n)`: decimal digits, no leading zero. */
  function Decimal(n: nat): (s: string)
    ensures 1 <= |s| && AllDigits(s) && DecimalValue(s) == n
    ensures |s| == 1 <==> n < 10
    ensures |s| > 1 ==> s[0] != '0'
  {
    if n < 10 then [DigitChar(n)]
    else
      var s := Decimal(n / 10) + [DigitChar(n % 10)];
      assert s[..|s| - 1] == Decimal(n / 10);
      s
  }

  lemma {:induction false} DecimalLength(n: nat)
    ensures n < 100 ==> |Decimal(n)| <= 2
    ensures n < 1000 ==> |Decimal(n)| <= 3
  {
    if n >= 10 {
      DecimalLength(n / 10);
    }
  }

  /** `format!("{:02X}", v)` for a byte: exactly two upper-case hexadecimal digits. */
  function UpperHexByte(v: nat): (s: string)
    requires v < 256
    ensures |s| == 2 && AllHexDigits(s) && HexValue(s) == v
    ensures forall i :: 0 <= i < |s| ==> !('a' <= s[i] <= 'z')
  {
    var s := [UpperHexChar(v / 16), UpperHexChar(v % 16)];
    HexValueOfPair(s);
    s
  }

  lemma DecimalValueOfPair(p: string)
    requires |p| == 2
    ensures DecimalValue(p) == ToDigit(p[0]) * 10 + ToDigit(p[1])
  {
    var q := p[..1];
    DecimalValueOfOne(q);
    assert DecimalValue(p) == DecimalValue(q) * 10 + ToDigit(p[1]);
  }

  lemma DecimalValueOfTriple(p: string)
    requires |p| == 3
    ensures DecimalValue(p) == (ToDigit(p[0]) * 10 + ToDigit(p[1])) * 10 + ToDigit(p[2])
  {
    var q := p[..2];
    DecimalValueOfPair(q);
    assert DecimalValue(p) == DecimalValue(q) * 10 + ToDigit(p[2]);
  }

  lemma HexValueOfPair(p: string)
    requires |p| == 2
    ensures HexValue(p) == ToDigit(p[0]) * 16 + ToDigit(p[1])
  {
    var q := p[..1];
    HexValueOfOne(q);
    assert HexValue(p) == HexValue(q) * 16 + ToDigit(p[1]);
  }

  /** ASCII upper-casing of one character; other characters are kept. */
  function AsciiUpper(c: char): (u: char)
    ensures IsAsciiLetter(c) ==> IsAsciiUpper(u)
    ensures IsHexDigit(c) ==> IsHexDigit(u) && ToDigit(u) == ToDigit(c)
    ensures !IsAsciiLetter(c) ==> u == c
  {
    if 'a' <= c <= 'z' then (c as int - 32) as char else c
  }

  function AsciiUppercase(s: string): (r: string)
    ensures |r| == |s| && forall i :: 0 <= i < |s| ==> r[i] == AsciiUpper(s[i])
  {
    seq(|s|, i requires 0 <= i < |s| => AsciiUpper(s[i]))
  }

  /** Text without lower-case ASCII letters is left as it is. */
  lemma AsciiUppercaseKeeps(s: string)
    requires forall i :: 0 <= i < |s| ==> !('a' <= s[i] <= 'z')
    ensures AsciiUppercase(s) == s
  {
  }

  /** Upper-casing a hex digit gives the digit `format!("{:X}")` writes for its value. */
  lemma UpperHexOfDigit(c: char)
    requires IsHexDigit(c)
    ensures UpperHexChar(ToDigit(c)) == AsciiUpper(c)
  {
  }

  /** A two-digit hex string, re-rendered with `{:02X}`, comes back upper-cased. */
  lemma UpperHexByteOfPair(p: string)
    requires |p| == 2 && AllHexDigits(p)
    ensures HexValue(p) < 256 && UpperHexByte(HexValue(p)) == AsciiUppercase(p)
  {
    HexValueOfPair(p);
    var v := HexValue(p);
    assert v / 16 == ToDigit(p[0]) && v % 16 == ToDigit(p[1]);
    UpperHexOfDigit(p[0]);
    UpperHexOfDigit(p[1]);
  }
}
