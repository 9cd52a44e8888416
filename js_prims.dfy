/**
 * The few JavaScript built-ins the tools lean on, with the engine's own
 * semantics spelled out: the truncating `%` operator, `toString(16)`,
 * `padStart`, `String.prototype.trim`, `startsWith`, `parseInt` and `Number`
 * on decimal text.
 */
module JsPrims {
  import opened Wrappers

  function Abs(x: int): nat {
    if x < 0 then -x else x
  }

  /** Math.min and Math.max on integers. */
  function Min(a: int, b: int): int { if a <= b then a else b }
  function Max(a: int, b: int): int { if a >= b then a else b }

  /**
   * JavaScript's `a % b` on integers: the remainder of the division truncated
   * toward zero, which carries the sign of a (Dafny's own `%` is Euclidean).
   */
  function JsRem(a: int, b: int): (r: int)
    requires b != 0
    ensures a >= 0 ==> 0 <= r < Abs(b)
    ensures a < 0 ==> 0 - Abs(b) < r <= 0
  {
    if a >= 0 then a % Abs(b) else -((-a) % Abs(b))
  }

  /** On a non-negative dividend and a positive divisor the truncating remainder is the Euclidean one. */
  lemma JsRemOfNatural(a: int, b: int)
    requires a >= 0 && b > 0
    ensures JsRem(a, b) == a % b
  {
  }

  /** The digits `Number.prototype.toString(16)` uses: 0-9, then lowercase a-f. */
  predicate IsHexDigit(c: char) {
    '0' <= c <= '9' || 'a' <= c <= 'f'
  }

  /** The digit of value d. */
  function HexDigit(d: nat): (c: char)
    requires d < 16
    ensures IsHexDigit(c)
  {
    if d < 10 then ('0' as int + d) as char else ('a' as int + d - 10) as char
  }

  /** The value of a lowercase hexadecimal digit, the inverse of HexDigit. */
  function HexValue(c: char): (d: nat)
    ensures d < 16
    ensures IsHexDigit(c) ==> HexDigit(d) == c
  {
    if '0' <= c <= '9' then c as nat - '0' as nat
    else if 'a' <= c <= 'f' then c as nat - 'a' as nat + 10
    else 0
  }

  lemma HexValueOfDigit(d: nat)
    requires d < 16
    ensures HexValue(HexDigit(d)) == d
  {
  }

  /** `n.toString(16)` for a non-negative integer: lowercase digits, most significant first, no leading zeros. */
  function ToHex(n: nat): (s: string)
    ensures |s| >= 1
    decreases n
  {
    if n < 16 then [HexDigit(n)] else ToHex(n / 16) + [HexDigit(n % 16)]
  }

  /** The value of a string of lowercase hexadecimal digits, most significant first. */
  function HexNumber(s: string): nat
  {
    if |s| == 0 then 0 else 16 * HexNumber(s[..|s| - 1]) + HexValue(s[|s| - 1])
  }

  /** Reading back what toString(16) printed gives the number; only digits are printed and the first is not a zero unless n is. */
  lemma {:induction false} ToHexRoundTrip(n: nat)
    ensures HexNumber(ToHex(n)) == n
    ensures forall i :: 0 <= i < |ToHex(n)| ==> IsHexDigit(ToHex(n)[i])
    ensures n > 0 ==> ToHex(n)[0] != '0'
    decreases n
  {
    var s := ToHex(n);
    if n < 16 {
      HexValueOfDigit(n);
      assert s[..|s| - 1] == [];
    } else {
      ToHexRoundTrip(n / 16);
      assert s[..|s| - 1] == ToHex(n / 16);
      HexValueOfDigit(n % 16);
    }
  }

  /** `s.padStart(len, fill)` for a one-character fill string. */
  function PadStart(s: string, len: nat, fill: char): (r: string)
    ensures |r| == if |s| >= len then |s| else len
    ensures r[|r| - |s|..] == s
    ensures forall i :: 0 <= i < |r| - |s| ==> r[i] == fill
  {
    if |s| >= len then s else seq(len - |s|, _ => fill) + s
  }

  /** A byte as `b.toString(16).padStart(2, '0')` prints it: exactly its two hex digits, high first. */
  lemma TwoHexDigits(n: nat)
    requires n < 256
    ensures PadStart(ToHex(n), 2, '0') == [HexDigit(n / 16), HexDigit(n % 16)]
  {
    if n >= 16 {
      assert ToHex(n / 16) == [HexDigit(n / 16)];
    }
  }

  /** `parts.join('')`. */
  function Join(parts: seq<string>): string {
    if |parts| == 0 then "" else parts[0] + Join(parts[1..])
  }

  /** Every part is two characters long. */
  predicate AllPairs(parts: seq<string>) {
    forall i :: 0 <= i < |parts| ==> |parts[i]| == 2
  }

  /** Joining two-character parts puts part i at characters 2i and 2i + 1. */
  lemma {:induction false} JoinPairs(parts: seq<string>)
    requires AllPairs(parts)
    ensures |Join(parts)| == 2 * |parts|
    ensures forall i :: 0 <= i < |parts| ==> Join(parts)[2 * i] == parts[i][0] && Join(parts)[2 * i + 1] == parts[i][1]
  {
    if |parts| > 0 {
      var rest := parts[1..];
      JoinPairs(rest);
      var s := Join(parts);
      var t := Join(rest);
      assert s == parts[0] + t;
      forall i | 0 <= i < |parts|
        ensures s[2 * i] == parts[i][0] && s[2 * i + 1] == parts[i][1]
      {
        if i > 0 {
          var k := i - 1;
          assert rest[k] == parts[i];
          assert s[2 * k + 2] == t[2 * k] && s[2 * k + 3] == t[2 * k + 1];
        }
      }
    }
  }

  // ---------------------------------------------------------------------
  // Decimal text
  // ---------------------------------------------------------------------

  predicate IsDecimalDigit(c: char) {
    '0' <= c <= '9'
  }

  predicate AllDecimal(s: string) {
    forall i :: 0 <= i < |s| ==> IsDecimalDigit(s[i])
  }

  function DecimalDigit(d: nat): (c: char)
    requires d < 10
    ensures IsDecimalDigit(c)
  {
    ('0' as int + d) as char
  }

  function DigitValue(c: char): nat
    requires IsDecimalDigit(c)
  {
    c as nat - '0' as nat
  }

  /** The value of a string of decimal digits, most significant first. */
  function DecimalValue(s: string): nat
    requires AllDecimal(s)
  {
    if |s| == 0 then 0 else 10 * DecimalValue(s[..|s| - 1]) + DigitValue(s[|s| - 1])
  }

  function Pow10(k: nat): (p: nat)
    ensures p >= 1
  {
    if k == 0 then 1 else 10 * Pow10(k - 1)
  }

  /** The plain decimal digits of a non-negative integer, what `n.toString()` prints below 10^21. */
  function ToDecimal(n: nat): (s: string)
    ensures |s| >= 1 && IsDecimalDigit(s[0])
    decreases n
  {
    if n < 10 then [DecimalDigit(n)] else ToDecimal(n / 10) + [DecimalDigit(n % 10)]
  }

  /**
   * Reading back what toString() printed gives the number; it prints only
   * digits, the first is not a zero unless n is, and a k-digit result means
   * 10^(k-1) <= n < 10^k.
   */
  lemma {:induction false} ToDecimalRoundTrip(n: nat)
    ensures AllDecimal(ToDecimal(n)) && DecimalValue(ToDecimal(n)) == n
    ensures n > 0 ==> ToDecimal(n)[0] != '0'
    ensures n < Pow10(|ToDecimal(n)|)
    ensures |ToDecimal(n)| > 1 ==> Pow10(|ToDecimal(n)| - 1) <= n
    decreases n
  {
    var s := ToDecimal(n);
    if n < 10 {
      assert s[..|s| - 1] == [];
    } else {
      ToDecimalRoundTrip(n / 10);
      assert s[..|s| - 1] == ToDecimal(n / 10);
    }
  }

  /** The length of `n.toString()` pins n between two powers of ten. */
  lemma DecimalLength(n: nat, k: nat)
    requires k >= 1
    ensures |ToDecimal(n)| == k <==> (if k == 1 then n < 10 else Pow10(k - 1) <= n < Pow10(k))
  {
    ToDecimalRoundTrip(n);
    var m := |ToDecimal(n)|;
    if m < k {
      Pow10Monotone(m, k - 1);
    } else if m > k {
      Pow10Monotone(k, m - 1);
    }
  }

  lemma {:induction false} Pow10Monotone(a: nat, b: nat)
    requires a <= b
    ensures Pow10(a) <= Pow10(b)
    decreases b - a
  {
    if a < b {
      Pow10Monotone(a, b - 1);
    }
  }

  /** Leading zeros do not change the value of a digit string. */
  lemma {:induction false} DecimalValueLeadingZeros(z: nat, s: string)
    requires AllDecimal(s)
    ensures AllDecimal(seq(z, _ => '0') + s)
    ensures DecimalValue(seq(z, _ => '0') + s) == DecimalValue(s)
    decreases |s|
  {
    var t := seq(z, _ => '0') + s;
    if |s| == 0 {
      assert t == seq(z, _ => '0');
      ZerosValue(z);
    } else {
      DecimalValueLeadingZeros(z, s[..|s| - 1]);
      assert t[..|t| - 1] == seq(z, _ => '0') + s[..|s| - 1];
    }
  }

  lemma {:induction false} ZerosValue(z: nat)
    ensures AllDecimal(seq(z, _ => '0')) && DecimalValue(seq(z, _ => '0')) == 0
  {
    if z > 0 {
      ZerosValue(z - 1);
      assert seq(z, _ => '0')[..z - 1] == seq(z - 1, _ => '0');
    }
  }

  /** A number below 10^w has at most w decimal digits. */
  lemma {:induction false} DecimalLengthAtMost(n: nat, w: nat)
    requires w >= 1 && n < Pow10(w)
    ensures |ToDecimal(n)| <= w
    decreases n
  {
    if n >= 10 {
      DecimalLengthAtMost(n / 10, w - 1);
    }
  }

  /** `String(n).padStart(width, '0')` reads back as n and has exactly `width` digits when n fits. */
  lemma PaddedDecimal(n: nat, width: nat)
    requires n < Pow10(width)
    ensures var s := PadStart(ToDecimal(n), width, '0');
      |s| == (if width == 0 then 1 else width) && AllDecimal(s) && DecimalValue(s) == n
  {
    ToDecimalRoundTrip(n);
    var d := ToDecimal(n);
    if width >= 1 {
      DecimalLengthAtMost(n, width);
    }
    if |d| < width {
      assert PadStart(d, width, '0') == seq(width - |d|, _ => '0') + d;
      DecimalValueLeadingZeros(width - |d|, d);
    }
  }

  // ---------------------------------------------------------------------
  // Strings
  // ---------------------------------------------------------------------

  /** `s.startsWith(prefix)`. */
  predicate StartsWith(s: string, prefix: string) {
    |prefix| <= |s| && s[..|prefix|] == prefix
  }

  /**
   * The characters `trim()` and `parseInt` skip: the WhiteSpace and
   * LineTerminator productions of ECMAScript (section 12.2 and 12.3 of
   * ECMA-262), the Unicode space separators included.
   */
  predicate IsJsWhiteSpace(c: char) {
    c == '\t' || c == '\n' || c == '\U{000B}' || c == '\U{000C}' || c == '\r' || c == ' '
    || c == '\U{00A0}' || c == '\U{1680}' || ('\U{2000}' <= c <= '\U{200A}')
    || c == '\U{2028}' || c == '\U{2029}' || c == '\U{202F}' || c == '\U{205F}'
    || c == '\U{3000}' || c == '\U{FEFF}'
  }

  /** `s.trimStart()`. */
  function TrimStart(s: string): (r: string)
    ensures |r| <= |s| && r == s[|s| - |r|..]
    ensures |r| > 0 ==> !IsJsWhiteSpace(r[0])
    ensures forall i :: 0 <= i < |s| - |r| ==> IsJsWhiteSpace(s[i])
  {
    if |s| > 0 && IsJsWhiteSpace(s[0]) then TrimStart(s[1..]) else s
  }

  /** `s.trimEnd()`. */
  function TrimEnd(s: string): (r: string)
    ensures |r| <= |s| && r == s[..|r|]
    ensures |r| > 0 ==> !IsJsWhiteSpace(r[|r| - 1])
    ensures forall i :: |r| <= i < |s| ==> IsJsWhiteSpace(s[i])
  {
    if |s| > 0 && IsJsWhiteSpace(s[|s| - 1]) then TrimEnd(s[..|s| - 1]) else s
  }

  /** `s.trim()`. */
  function Trim(s: string): string {
    TrimEnd(TrimStart(s))
  }

  /** `s.split(sep)` for a one-character separator: the pieces between separators, possibly empty. */
  function Split(s: string, sep: char): (parts: seq<string>)
    ensures |parts| >= 1
  {
    if |s| == 0 then [""]
    else if s[0] == sep then [""] + Split(s[1..], sep)
    else
      var rest := Split(s[1..], sep);
      [[s[0]] + rest[0]] + rest[1..]
  }

  /** A piece without the separator, followed by a separator and more text, splits off first. */
  lemma {:induction false} SplitAt(a: string, sep: char, b: string)
    requires sep !in a
    ensures Split(a + [sep] + b, sep) == [a] + Split(b, sep)
    decreases |a|
  {
    if |a| == 0 {
      assert a + [sep] + b == [sep] + b;
      assert ([sep] + b)[1..] == b;
    } else {
      SplitAt(a[1..], sep, b);
      assert (a + [sep] + b)[1..] == a[1..] + [sep] + b;
      assert [a[0]] + a[1..] == a;
    }
  }

  /** Text without the separator is one piece. */
  lemma {:induction false} SplitNone(a: string, sep: char)
    requires sep !in a
    ensures Split(a, sep) == [a]
    decreases |a|
  {
    if |a| > 0 {
      SplitNone(a[1..], sep);
      assert [a[0]] + a[1..] == a;
    }
  }

  // ---------------------------------------------------------------------
  // Number(s) and parseInt(s)
  // ---------------------------------------------------------------------

  /**
   * `Number(s)` for a string, on the integer forms: after trimming, the
   * empty string is 0 and an optionally signed run of decimal digits is its
   * value.  `None` stands for NaN.
   */
  function StringToNumber(s: string): Option<int> {
    var t := Trim(s);
    if |t| == 0 then Some(0)
    else if |t| >= 2 && (t[0] == '-' || t[0] == '+') && AllDecimal(t[1..]) then
      var v: int := DecimalValue(t[1..]);
      Some(if t[0] == '-' then -v else v)
    else if AllDecimal(t) then Some(DecimalValue(t))
    else None
  }

  /** Digit strings read as their value under `Number`. */
  lemma NumberOfDigits(s: string)
    requires |s| >= 1 && AllDecimal(s)
    ensures StringToNumber(s) == Some(DecimalValue(s))
  {
    TrimDigits(s);
  }

  /** Text that starts and ends with a digit is left alone by trim(). */
  lemma TrimDigits(s: string)
    requires |s| >= 1 && IsDecimalDigit(s[0]) && IsDecimalDigit(s[|s| - 1])
    ensures TrimStart(s) == s && Trim(s) == s
  {
    DigitIsNotWhiteSpace(s[0]);
    DigitIsNotWhiteSpace(s[|s| - 1]);
  }

  /** trimStart() leaves text starting with a digit or a minus sign alone. */
  lemma TrimStartOfSigned(s: string)
    requires |s| >= 1 && (IsDecimalDigit(s[0]) || s[0] == '-')
    ensures TrimStart(s) == s
  {
    DigitIsNotWhiteSpace(s[0]);
  }

  lemma DigitIsNotWhiteSpace(c: char)
    requires IsDecimalDigit(c) || c == '-'
    ensures !IsJsWhiteSpace(c)
  {
  }

  /** The value of a character as a digit in base `radix` (10 or 16, either case), if it is one. */
  function RadixDigit(c: char, radix: nat): Option<nat> {
    var d :=
      if '0' <= c <= '9' then c as int - '0' as int
      else if 'a' <= c <= 'z' then c as int - 'a' as int + 10
      else if 'A' <= c <= 'Z' then c as int - 'A' as int + 10
      else 36;
    if d < radix then Some(d) else None
  }

  /** Length of the longest prefix of `s` made of base-`radix` digits. */
  function DigitRun(s: string, radix: nat): (n: nat)
    ensures n <= |s|
    ensures forall i :: 0 <= i < n ==> RadixDigit(s[i], radix).Some?
    ensures n < |s| ==> RadixDigit(s[n], radix).None?
  {
    if |s| > 0 && RadixDigit(s[0], radix).Some? then 1 + DigitRun(s[1..], radix) else 0
  }

  /** a * b, as a natural number. */
  function NatProduct(a: nat, b: nat): (p: nat)
    ensures p == a * b
  {
    if a == 0 then 0 else b + NatProduct(a - 1, b)
  }

  /** The value of a run of base-`radix` digits, most significant first. */
  function RadixValue(s: string, radix: nat): nat
    requires forall i :: 0 <= i < |s| ==> RadixDigit(s[i], radix).Some?
  {
    if |s| == 0 then 0
    else
      var init := s[..|s| - 1];
      assert forall i :: 0 <= i < |init| ==> init[i] == s[i];
      var high := RadixValue(init, radix);
      var scaled: nat := NatProduct(radix, high);
      scaled + RadixDigit(s[|s| - 1], radix).value
  }

  /**
   * `parseInt(s)` with no radix: skip leading white space, take an optional
   * sign, read hexadecimal after a `0x`/`0X` prefix and decimal otherwise,
   * and stop at the first character that is not a digit.  `None` is NaN.
   */
  function ParseInt(s: string): Option<int> {
    var t := TrimStart(s);
    var negative := |t| > 0 && t[0] == '-';
    var u := if |t| > 0 && (t[0] == '-' || t[0] == '+') then t[1..] else t;
    match ParseUnsigned(u)
    case None => None
    case Some(v) => Some(if negative then -(v as int) else v)
  }

  /** The digits after the sign: hexadecimal after a `0x`/`0X` prefix, decimal otherwise. */
  function ParseUnsigned(u: string): Option<nat> {
    var hex := |u| >= 2 && u[0] == '0' && (u[1] == 'x' || u[1] == 'X');
    var radix := if hex then 16 else 10;
    var digits := if hex then u[2..] else u;
    var n := DigitRun(digits, radix);
    if n == 0 then None else Some(PrefixValue(digits, n, radix))
  }

  /** The value of the first n characters of s, all of them digits of the radix. */
  function PrefixValue(s: string, n: nat, radix: nat): nat
    requires n <= |s| && forall i :: 0 <= i < n ==> RadixDigit(s[i], radix).Some?
  {
    var run := s[..n];
    assert forall i :: 0 <= i < |run| ==> run[i] == s[i];
    RadixValue(run, radix)
  }

  /** Decimal and radix-10 readings of a digit string agree. */
  lemma {:induction false} RadixTenIsDecimal(s: string)
    requires AllDecimal(s)
    ensures forall i :: 0 <= i < |s| ==> RadixDigit(s[i], 10).Some?
    ensures RadixValue(s, 10) == DecimalValue(s)
    decreases |s|
  {
    if |s| > 0 {
      RadixTenIsDecimal(s[..|s| - 1]);
    }
  }

  /** The digits of s up to its last digit other than '0'. */
  function TrimTrailingZeros(s: string): (r: string)
    ensures |r| <= |s| && r == s[..|r|]
    ensures forall i :: |r| <= i < |s| ==> s[i] == '0'
    ensures |r| > 0 ==> r[|r| - 1] != '0'
  {
    if |s| > 0 && s[|s| - 1] == '0' then TrimTrailingZeros(s[..|s| - 1]) else s
  }

  /** 10^21, from which on `toString()` writes numbers in exponent form. */
  const ExponentFrom: nat := 1000000000000000000000

  /**
   * `n.toString()` for a non-negative integer: the plain digits below
   * 10^21; from 10^21 on the exponent form, which is the first digit, a '.'
   * and the remaining significant digits if there are any, then "e+" and
   * the number of digits after the first.
   */
  function NaturalToString(n: nat): string {
    if n < ExponentFrom then ToDecimal(n) else ExponentForm(ToDecimal(n))
  }

  /** The exponent form of a digit string d: d[0], then '.' and d[1..] less its trailing zeros, then "e+" and |d| - 1. */
  function ExponentForm(d: string): string
    requires |d| >= 1
  {
    var fraction := TrimTrailingZeros(d[1..]);
    var mantissa := if fraction == "" then [d[0]] else [d[0]] + ("." + fraction);
    mantissa + ("e+" + ToDecimal(|d| - 1))
  }

  /** `String(n)`: a minus sign in front of a negative number's magnitude. */
  function NumberToString(n: int): string {
    if n < 0 then "-" + NaturalToString(-n) else NaturalToString(n)
  }

  /** parseInt reads back what `String(n)` printed when that is plain digits, which it is below 10^21. */
  lemma ParseIntOfNumberToString(n: int)
    requires Abs(n) < ExponentFrom
    ensures ParseInt(NumberToString(n)) == Some(n)
  {
    var d := ToDecimal(if n < 0 then -n else n);
    ToDecimalRoundTrip(if n < 0 then -n else n);
    var s := NumberToString(n);
    if n < 0 {
      assert s[0] == '-' && s[1..] == d;
      ParseIntOfNegatedDigits(s, d);
    } else {
      ParseIntOfDigits(d);
    }
  }

  /**
   * From 10^21 on `String(m)` is in exponent form, and parseInt stops at its
   * '.' or 'e': it reads back only the first digit.
   */
  lemma ParseIntOfExponentForm(m: nat)
    requires m >= ExponentFrom
    ensures ParseInt(NumberToString(m)) == Some(FirstDigit(m) as int)
  {
    ExponentTextLead(m);
    ParseIntOfLead(NaturalToString(m), FirstDigit(m));
  }

  /** The same for -m: parseInt reads back the first digit of m, negated. */
  lemma ParseIntOfNegativeExponentForm(m: nat)
    requires m >= ExponentFrom
    ensures ParseInt(NumberToString(-(m as int))) == Some(-(FirstDigit(m) as int))
  {
    ExponentTextLead(m);
    ParseIntOfNegatedText(m);
  }

  /** When the text of m > 0 starts with a digit and reads as its first digit, the text of -m reads as that digit negated. */
  lemma ParseIntOfNegatedText(m: nat)
    requires m > 0
    requires var t := NaturalToString(m); |t| >= 2 && IsDecimalDigit(t[0]) && ParseUnsigned(t) == Some(FirstDigit(m))
    ensures ParseInt(NumberToString(-(m as int))) == Some(-(FirstDigit(m) as int))
  {
    ParseIntOfNegatedLead(NaturalToString(m), FirstDigit(m));
    NegativeNumberToString(m);
  }

  /** A negative number prints as a minus sign before its magnitude. */
  lemma NegativeNumberToString(m: nat)
    requires m > 0
    ensures NumberToString(-(m as int)) == "-" + NaturalToString(m)
  {
  }

  /** The value of the leading digit of m. */
  function FirstDigit(m: nat): nat {
    DigitValue(ToDecimal(m)[0])
  }

  /** A minus sign and then text that starts with a digit and reads, unsigned, as v is read as -v. */
  lemma ParseIntOfNegatedLead(t: string, v: nat)
    requires |t| >= 1 && IsDecimalDigit(t[0]) && ParseUnsigned(t) == Some(v)
    ensures ParseInt("-" + t) == Some(-(v as int))
  {
    var s := "-" + t;
    assert s[0] == '-' && s[1..] == t;
    TrimStartOfSigned(s);
    ParseIntOfMinus(s, v);
  }

  /** The exponent text of m >= 10^21 starts with a digit and, unsigned, reads as its first digit. */
  lemma ExponentTextLead(m: nat)
    requires m >= ExponentFrom
    ensures var t := NaturalToString(m);
      |t| >= 2 && IsDecimalDigit(t[0])
      && ParseUnsigned(t) == Some(FirstDigit(m))
  {
    var d := ToDecimal(m);
    ToDecimalRoundTrip(m);
    var t := NaturalToString(m);
    assert t == ExponentForm(d);
    ExponentFormLead(d);
    assert IsDecimalDigit(t[0]) && t[0] != '0';
    NotDecimalRadixDigit(t[1]);
    ParseUnsignedOfLead(t, FirstDigit(m));
  }

  /** Text that starts with a digit and that parseInt reads as `first` without a sign. */
  lemma ParseIntOfLead(t: string, first: nat)
    requires |t| >= 1 && IsDecimalDigit(t[0]) && ParseUnsigned(t) == Some(first)
    ensures ParseInt(t) == Some(first)
  {
    TrimStartOfSigned(t);
  }

  /** The exponent form starts with the first digit, then a '.' or the 'e' of "e+". */
  lemma ExponentFormLead(d: string)
    requires |d| >= 1
    ensures var t := ExponentForm(d);
      |t| >= 2 && t[0] == d[0] && (t[1] == '.' || t[1] == 'e') && 'e' in t
  {
    var fraction := TrimTrailingZeros(d[1..]);
    var mantissa := if fraction == "" then [d[0]] else [d[0]] + ("." + fraction);
    var t := mantissa + ("e+" + ToDecimal(|d| - 1));
    assert t[|mantissa|] == 'e';
  }

  /**
   * y·10^k, for y not ending in 0, prints in exponent form as y's first
   * digit, a '.' and y's other digits if it has any, then "e+" and the
   * number of digits after the first.
   */
  lemma ExponentFormOfScaled(y: nat, k: nat)
    requires y % 10 != 0 && y * Pow10(k) >= ExponentFrom
    ensures var d := ToDecimal(y);
      NumberToString(y * Pow10(k))
        == (if |d| == 1 then [d[0]] else [d[0]] + ("." + d[1..])) + ("e+" + ToDecimal(|d| + k - 1))
  {
    var d := ToDecimal(y);
    var z := seq(k, _ => '0');
    ToDecimalScaled(y, k);
    assert ToDecimal(y * Pow10(k))[1..] == d[1..] + z;
    assert d[|d| - 1] != '0' by {
      LastDecimalDigit(y);
    }
    TrimZerosAfter(d[1..], k);
  }

  /** The last digit toString() prints is n % 10. */
  lemma LastDecimalDigit(n: nat)
    ensures var d := ToDecimal(n); d[|d| - 1] == DecimalDigit(n % 10)
  {
  }

  /** Appending a digit: the digits of 10·y + c are those of y followed by c. */
  lemma ToDecimalAppend(y: nat, c: nat)
    requires y >= 1 && c < 10
    ensures ToDecimal(10 * y + c) == ToDecimal(y) + [DecimalDigit(c)]
  {
    assert (10 * y + c) / 10 == y && (10 * y + c) % 10 == c;
  }

  /** The digits of y·10^k are those of y followed by k zeros. */
  lemma {:induction false} ToDecimalScaled(y: nat, k: nat)
    requires y >= 1
    ensures ToDecimal(y * Pow10(k)) == ToDecimal(y) + seq(k, _ => '0')
  {
    if k > 0 {
      ToDecimalScaled(y, k - 1);
      var z := y * Pow10(k - 1);
      assert y * Pow10(k) == 10 * z + 0 by {
        assert Pow10(k) == 10 * Pow10(k - 1);
        MulSwap(y, 10, Pow10(k - 1));
      }
      assert z >= 1 by {
        MulAtLeastOne(y, Pow10(k - 1));
      }
      ToDecimalAppend(z, 0);
      assert seq(k - 1, _ => '0') + [DecimalDigit(0)] == seq(k, _ => '0');
    }
  }

  lemma MulSwap(a: int, b: int, c: int)
    ensures a * (b * c) == b * (a * c)
  {
  }

  lemma MulAtLeastOne(a: nat, b: nat)
    requires a >= 1 && b >= 1
    ensures a * b >= 1
  {
  }

  /** Trailing zeros after a text that does not end in '0' are exactly what is trimmed. */
  lemma {:induction false} TrimZerosAfter(s: string, k: nat)
    requires |s| == 0 || s[|s| - 1] != '0'
    ensures TrimTrailingZeros(s + seq(k, _ => '0')) == s
  {
    if k == 0 {
      assert s + seq(k, _ => '0') == s;
    } else {
      assert (s + seq(k, _ => '0'))[..|s| + k - 1] == s + seq(k - 1, _ => '0');
      TrimZerosAfter(s, k - 1);
    }
  }

  /** 12345·10^17 has 22 digits, and its exponent form 1.2345e+21 has 10 characters. */
  lemma ExponentFormWitness(n: nat)
    requires n == 12345 * Pow10(17)
    ensures n >= ExponentFrom && |ToDecimal(n)| == 22
    ensures |NumberToString(n)| == 10
  {
    assert Pow10(4) == 10000 && Pow10(5) == 100000;
    DecimalLength(12345, 5);
    DecimalLength(21, 2);
    assert Pow10(13) == 10000000000000;
    assert Pow10(17) == 100000000000000000;
    ToDecimalScaled(12345, 17);
    ExponentFormOfScaled(12345, 17);
  }

  /** 10^21 as a power of ten. */
  lemma ExponentFromIsPow10()
    ensures Pow10(21) == ExponentFrom
  {
    assert Pow10(13) == 10000000000000;
    assert Pow10(17) == 100000000000000000;
  }

  lemma NotDecimalRadixDigit(c: char)
    requires c == '.' || c == 'e'
    ensures RadixDigit(c, 10).None?
  {
  }

  /** Text that starts with a non-zero digit and then a non-digit reads as that digit. */
  lemma ParseUnsignedOfLead(t: string, first: nat)
    requires |t| >= 2 && IsDecimalDigit(t[0]) && t[0] != '0' && first == DigitValue(t[0])
    requires RadixDigit(t[1], 10).None?
    ensures ParseUnsigned(t) == Some(first)
  {
    assert DigitRun(t, 10) == 1 by {
      assert DigitRun(t[1..], 10) == 0;
    }
    assert PrefixValue(t, 1, 10) == first by {
      var run := t[..1];
      assert run[..0] == [];
      assert RadixValue(run, 10) == NatProduct(10, 0) + first;
    }
  }

  /** parseInt of a digit string with no leading zero reads its decimal value. */
  lemma ParseIntOfDigits(d: string)
    requires AllDecimal(d) && |d| >= 1 && (|d| >= 2 ==> d[0] != '0')
    ensures ParseInt(d) == Some(DecimalValue(d))
  {
    TrimStartOfSigned(d);
    ParseUnsignedOfDigits(d);
  }

  /**
   * parseInt of a minus sign followed by a digit string with no leading
   * zero reads the negated value.
   */
  lemma ParseIntOfNegatedDigits(s: string, d: string)
    requires AllDecimal(d) && |d| >= 1 && (|d| >= 2 ==> d[0] != '0')
    requires |s| >= 1 && s[0] == '-' && s[1..] == d
    ensures ParseInt(s) == Some(-(DecimalValue(d) as int))
  {
    TrimStartOfSigned(s);
    ParseUnsignedOfDigits(d);
    ParseIntOfMinus(s, DecimalValue(d));
  }

  /** Text that trimStart() leaves alone and that starts with a minus sign reads as the negated value of the rest. */
  lemma ParseIntOfMinus(t: string, v: nat)
    requires |t| >= 1 && t[0] == '-' && TrimStart(t) == t && ParseUnsigned(t[1..]) == Some(v)
    ensures ParseInt(t) == Some(-(v as int))
  {
  }

  /** A digit string with no leading zero reads as its decimal value. */
  lemma ParseUnsignedOfDigits(d: string)
    requires AllDecimal(d) && |d| >= 1 && (|d| >= 2 ==> d[0] != '0')
    ensures ParseUnsigned(d) == Some(DecimalValue(d))
  {
    DigitRunOfDigits(d);
    assert d[..|d|] == d;
    RadixTenIsDecimal(d);
  }

  lemma {:induction false} DigitRunOfDigits(s: string)
    requires AllDecimal(s)
    ensures DigitRun(s, 10) == |s|
    decreases |s|
  {
    if |s| > 0 {
      DigitRunOfDigits(s[1..]);
    }
  }

  /** Text containing the separator splits into at least two pieces. */
  lemma {:induction false} SplitSeparated(s: string, sep: char)
    requires sep in s
    ensures |Split(s, sep)| >= 2
    decreases |s|
  {
    if s[0] != sep {
      SplitSeparated(s[1..], sep);
    }
  }

  /** `s.replace(c, d)` for one-character strings: only the first occurrence is replaced. */
  function ReplaceFirst(s: string, c: char, d: char): string {
    if |s| == 0 then s
    else if s[0] == c then [d] + s[1..]
    else [s[0]] + ReplaceFirst(s[1..], c, d)
  }

  lemma {:induction false} ReplaceFirstAt(a: string, c: char, d: char, b: string)
    requires c !in a
    ensures ReplaceFirst(a + [c] + b, c, d) == a + [d] + b
    decreases |a|
  {
    if |a| > 0 {
      ReplaceFirstAt(a[1..], c, d, b);
      assert (a + [c] + b)[1..] == a[1..] + [c] + b;
      assert [a[0]] + (a[1..] + [d] + b) == a + [d] + b;
    } else {
      assert a + [c] + b == [c] + b;
    }
  }

  /** `s.slice(0, n)`. */
  function SliceTo(s: string, n: nat): string {
    if n <= |s| then s[..n] else s
  }
}
