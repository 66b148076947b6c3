/** The pieces of JavaScript's string and number semantics the program relies
    on: `parseInt` without a radix, the decimal text of a number (`${n}`),
    `String.prototype.split` on one character, and the truncating `%` and
    `Math.ceil` of integer quotients. `None` plays the role of `NaN`. */
module JsText {
  import opened Wrappers

  // ---------------------------------------------------------------------------
  // Characters

  /** The characters `parseInt` skips before the number: the WhiteSpace and
      LineTerminator characters of ECMAScript (space separators included). */
  predicate IsJsWhitespace(c: char) {
    || c == ' ' || c == '\t' || c == '\n' || c == '\r'
    || c == '\U{000B}' || c == '\U{000C}' || c == '\U{00A0}' || c == '\U{1680}'
    || ('\U{2000}' <= c <= '\U{200A}')
    || c == '\U{2028}' || c == '\U{2029}' || c == '\U{202F}' || c == '\U{205F}'
    || c == '\U{3000}' || c == '\U{FEFF}'
  }

  /** The two radixes `parseInt` chooses between when it is given none. */
  datatype Radix = Decimal | Hex {

    function Base(): nat {
      if Hex? then 16 else 10
    }

    predicate IsDigit(c: char) {
      || ('0' <= c <= '9')
      || (Hex? && (('a' <= c <= 'f') || ('A' <= c <= 'F')))
    }

    function Value(c: char): (v: nat)
      requires IsDigit(c)
      ensures v < Base()
    {
      if '0' <= c <= '9' then c as int - '0' as int
      else if 'a' <= c <= 'f' then c as int - 'a' as int + 10
      else c as int - 'A' as int + 10
    }
  }

  predicate AllDigits(d: string, radix: Radix) {
    forall i :: 0 <= i < |d| ==> radix.IsDigit(d[i])
  }

  /** The decimal digit character for `d`. */
  function DigitChar(d: int): (c: char)
    requires 0 <= d < 10
    ensures Decimal.IsDigit(c) && Decimal.Value(c) == d
  {
    ('0' as int + d) as char
  }

  // ---------------------------------------------------------------------------
  // parseInt

  /** `s` without its leading whitespace. */
  function TrimStart(s: string): string {
    if |s| > 0 && IsJsWhitespace(s[0]) then TrimStart(s[1..]) else s
  }

  /** The longest prefix of `s` made of digits of `radix`. */
  function LeadingDigits(s: string, radix: Radix): (d: string)
    ensures d <= s
    ensures AllDigits(d, radix)
    ensures |d| < |s| ==> !radix.IsDigit(s[|d|])
  {
    if |s| == 0 || !radix.IsDigit(s[0]) then "" else [s[0]] + LeadingDigits(s[1..], radix)
  }

  /** The number a digit string denotes, most significant digit first. */
  function DigitsValue(d: string, radix: Radix): nat
    requires AllDigits(d, radix)
  {
    if |d| == 0 then 0
    else DigitsValue(d[..|d| - 1], radix) * radix.Base() + radix.Value(d[|d| - 1])
  }

  /** The value of the leading digits of `s`, or NaN when `s` does not start with one. */
  function ParseDigits(s: string, radix: Radix): Option<nat> {
    var d := LeadingDigits(s, radix);
    if |d| == 0 then None else Some(DigitsValue(d, radix))
  }

  /** True when `body` carries the `0x`/`0X` prefix that switches `parseInt` to radix 16. */
  predicate HasHexPrefix(body: string) {
    |body| >= 2 && body[0] == '0' && (body[1] == 'x' || body[1] == 'X')
  }

  /** The unsigned part of `parseInt`: radix 16 after `0x`/`0X`, radix 10 otherwise. */
  function ParseMagnitude(body: string): Option<nat> {
    if HasHexPrefix(body) then ParseDigits(body[2..], Hex) else ParseDigits(body, Decimal)
  }

  /** `parseInt(s)` with no radix argument: skip leading whitespace, take an
      optional sign, read radix 16 after `0x`/`0X` and radix 10 otherwise, and
      stop at the first character that is not a digit. `None` is `NaN`.
      Numbers are exact: the rounding of large values to doubles is not modelled. */
  function ParseInt(s: string): (r: Option<int>)
    ensures TrimStart(s) == "" ==> r.None?
    ensures var t := TrimStart(s);
      |t| > 0 && !Decimal.IsDigit(t[0]) && t[0] != '-' && t[0] != '+' ==> r.None?
    ensures var t := TrimStart(s);
      r.Some? && r.value < 0 ==> |t| > 0 && t[0] == '-'
  {
    ParseSigned(TrimStart(s))
  }

  /** `parseInt` after the leading whitespace: an optional sign, then the magnitude. */
  function ParseSigned(t: string): Option<int> {
    if |t| > 0 && t[0] == '-' then
      match ParseMagnitude(t[1..])
      case None => None
      case Some(m) => Some(-(m as int))
    else
      var body := if |t| > 0 && t[0] == '+' then t[1..] else t;
      match ParseMagnitude(body)
      case None => None
      case Some(m) => Some(m as int)
  }

  // ---------------------------------------------------------------------------
  // Number to text

  /** The decimal digits of `n`, without leading zeros. */
  function Digits(n: nat): (s: string)
    ensures |s| >= 1 && AllDigits(s, Decimal)
    ensures s[0] == '0' <==> n == 0
    ensures n == 0 ==> s == "0"
    decreases n
  {
    if n < 10 then [DigitChar(n)] else Digits(n / 10) + [DigitChar(n % 10)]
  }

  /** The text JavaScript produces for an integral number, `${n}`. The
      exponent notation used from 1e21 on is not modelled. */
  function NumberText(n: int): (s: string)
    ensures |s| >= 1
    ensures s[0] == '-' <==> n < 0
  {
    if n < 0 then "-" + Digits(-n) else Digits(n)
  }

  /** The text of a number never holds a comma. */
  lemma NoCommaInNumberText(n: int)
    ensures ',' !in NumberText(n)
  {
  }

  /** `s` without its trailing `'0'` characters. */
  function DropTrailingZeros(s: string): (t: string)
    ensures t <= s
    ensures |t| > 0 ==> t[|t| - 1] != '0'
    ensures forall i :: |t| <= i < |s| ==> s[i] == '0'
  {
    if |s| > 0 && s[|s| - 1] == '0' then DropTrailingZeros(s[..|s| - 1]) else s
  }

  /** The text JavaScript produces for the number `ms / 1000` (exact division)
      when `ms` is non-negative: the whole seconds, then a point and the
      significant millisecond digits when there are any. */
  function SecondsText(ms: nat): (s: string)
    ensures ',' !in s
  {
    Digits(ms / 1000) + FractionText(ms % 1000)
  }

  /** The fractional part `.ddd` of a number of milliseconds `f < 1000`, trailing zeros dropped. */
  function FractionText(f: nat): (s: string)
    requires f < 1000
    ensures f == 0 <==> s == ""
    ensures s != "" ==> s[0] == '.'
    ensures ',' !in s
  {
    if f == 0 then ""
    else "." + DropTrailingZeros([DigitChar(f / 100), DigitChar(f / 10 % 10), DigitChar(f % 10)])
  }

  // ---------------------------------------------------------------------------
  // split and join

  /** `s.split(sep)`: the maximal separator-free pieces of `s`, in order. */
  function Split(s: string, sep: char): (parts: seq<string>)
    ensures |parts| >= 1
    ensures forall i :: 0 <= i < |parts| ==> sep !in parts[i]
  {
    if |s| == 0 then [""]
    else
      var rest := Split(s[1..], sep);
      if s[0] == sep then [""] + rest else [[s[0]] + rest[0]] + rest[1..]
  }

  /** `parts.join(sep)`. */
  function Join(parts: seq<string>, sep: char): string
    requires |parts| >= 1
  {
    if |parts| == 1 then parts[0] else parts[0] + [sep] + Join(parts[1..], sep)
  }

  // ---------------------------------------------------------------------------
  // Integer arithmetic with JavaScript's rounding

  /** `Math.max(a, b)`. */
  function Max(a: int, b: int): int {
    if a >= b then a else b
  }

  /** `a % b` for a positive `b` as JavaScript computes it: the remainder takes the sign of `a`. */
  function TruncRem(a: int, b: int): (r: int)
    requires b > 0
    ensures a >= 0 ==> 0 <= r < b && r == a % b
    ensures a < 0 ==> -b < r <= 0
  {
    if a >= 0 then a % b else -((-a) % b)
  }

  /** `Math.ceil(a / b)` for a positive `b`. */
  function CeilDiv(a: int, b: int): (q: int)
    requires b > 0
    ensures (q - 1) * b < a <= q * b
  {
    -((-a) / b)
  }

  // ---------------------------------------------------------------------------
  // Lemmas

  /** Reading back the digits of `n` gives `n`. */
  lemma {:induction false} DigitsValueOfDigits(n: nat)
    ensures DigitsValue(Digits(n), Decimal) == n
    decreases n
  {
    if n >= 10 {
      var d := Digits(n);
      assert d[..|d| - 1] == Digits(n / 10);
      DigitsValueOfDigits(n / 10);
    }
  }

  /** The leading digits of `d + rest` are exactly `d` when `rest` does not continue with a digit. */
  lemma {:induction false} LeadingDigitsStopAt(d: string, rest: string, radix: Radix)
    requires AllDigits(d, radix)
    requires |rest| == 0 || !radix.IsDigit(rest[0])
    ensures LeadingDigits(d + rest, radix) == d
    decreases |d|
  {
    if |d| > 0 {
      assert (d + rest)[1..] == d[1..] + rest;
      LeadingDigitsStopAt(d[1..], rest, radix);
    } else {
      assert d + rest == rest;
    }
  }

  /** Text that cannot extend the number before it: empty, or starting with
      neither a decimal digit nor the `x` of a hexadecimal prefix. */
  predicate NotNumberContinuation(rest: string) {
    |rest| == 0 || (!Decimal.IsDigit(rest[0]) && rest[0] != 'x' && rest[0] != 'X')
  }

  /** The unsigned digits of `m`, followed by anything but a digit or an `x`, read back as `m`. */
  lemma ParseMagnitudeOfDigits(m: nat, rest: string)
    requires NotNumberContinuation(rest)
    ensures ParseMagnitude(Digits(m) + rest) == Some(m)
  {
    var digits := Digits(m);
    var body := digits + rest;
    assert !HasHexPrefix(body) by {
      if |body| >= 2 && body[0] == '0' {
        assert digits == "0";
        assert body[1] == rest[0];
      }
    }
    LeadingDigitsStopAt(digits, rest, Decimal);
    DigitsValueOfDigits(m);
  }

  /** `parseInt` reads back the text of an integer followed by any text that
      does not start with a digit, `x` or `X`. */
  lemma ParseIntOfNumberText(n: int, rest: string)
    requires NotNumberContinuation(rest)
    ensures ParseInt(NumberText(n) + rest) == Some(n)
  {
    if n < 0 {
      ParseIntOfNegativeText(n, rest);
    } else {
      ParseIntOfDigitsText(n, rest);
    }
  }

  /** The non-negative case: the text is the digits alone. */
  lemma ParseIntOfDigitsText(m: nat, rest: string)
    requires NotNumberContinuation(rest)
    ensures ParseInt(NumberText(m) + rest) == Some(m)
  {
    var s := NumberText(m) + rest;
    assert s == Digits(m) + rest;
    assert Decimal.IsDigit(s[0]);
    assert TrimStart(s) == s;
    ParseMagnitudeOfDigits(m, rest);
  }

  /** The negative case: a minus sign, then the digits of the magnitude. */
  lemma ParseIntOfNegativeText(n: int, rest: string)
    requires n < 0
    requires NotNumberContinuation(rest)
    ensures ParseInt(NumberText(n) + rest) == Some(n)
  {
    var m: nat := -n;
    ParseMagnitudeOfDigits(m, rest);
    ParseIntOfMinus(Digits(m) + rest, m);
    NegativeTextSplits(n, rest);
  }

  /** The text of a negative number is a minus sign before its magnitude's digits. */
  lemma NegativeTextSplits(n: int, rest: string)
    requires n < 0
    ensures NumberText(n) + rest == "-" + (Digits(-n) + rest)
  {
  }

  /** `parseInt` of a minus sign and a body negates what the body reads as. */
  lemma ParseIntOfMinus(body: string, m: nat)
    requires ParseMagnitude(body) == Some(m)
    ensures ParseInt("-" + body) == Some(-(m as int))
  {
    var s := "-" + body;
    assert s[0] == '-' && s[1..] == body;
    assert TrimStart(s) == s;
  }

  /** `parseInt` of the text of a non-negative `ms / 1000` truncates it to whole seconds. */
  lemma ParseIntOfSecondsText(ms: nat)
    ensures ParseInt(SecondsText(ms)) == Some(ms / 1000)
  {
    var frac := FractionText(ms % 1000);
    assert NumberText(ms / 1000) == Digits(ms / 1000);
    ParseIntOfNumberText(ms / 1000, frac);
  }

  /** Splitting, then joining with the same separator, gives back the text. */
  lemma {:induction false} JoinSplit(s: string, sep: char)
    ensures Join(Split(s, sep), sep) == s
    decreases |s|
  {
    if |s| > 0 {
      var rest := Split(s[1..], sep);
      JoinSplit(s[1..], sep);
      if s[0] == sep {
        assert Split(s, sep)[1..] == rest;
      } else if |rest| > 1 {
        assert Split(s, sep)[1..] == rest[1..];
        assert Join(rest, sep) == rest[0] + [sep] + Join(rest[1..], sep);
      }
    }
  }

  /** Text without the separator is one piece. */
  lemma {:induction false} SplitWithoutSeparator(s: string, sep: char)
    requires sep !in s
    ensures Split(s, sep) == [s]
    decreases |s|
  {
    if |s| > 0 {
      SplitWithoutSeparator(s[1..], sep);
      assert [s[0]] + s[1..] == s;
    }
  }

  /** Splitting at the first separator: the text before it is the first piece. */
  lemma {:induction false} SplitAtFirst(a: string, sep: char, b: string)
    requires sep !in a
    ensures Split(a + [sep] + b, sep) == [a] + Split(b, sep)
    decreases |a|
  {
    if |a| == 0 {
      assert a + [sep] + b == [sep] + b;
      assert ([sep] + b)[1..] == b;
    } else {
      assert (a + [sep] + b)[1..] == a[1..] + [sep] + b;
      SplitAtFirst(a[1..], sep, b);
      assert [a[0]] + a[1..] == a;
    }
  }

  /** Joining separator-free pieces, then splitting, gives back the pieces. */
  lemma {:induction false} SplitJoin(parts: seq<string>, sep: char)
    requires |parts| >= 1
    requires forall i :: 0 <= i < |parts| ==> sep !in parts[i]
    ensures Split(Join(parts, sep), sep) == parts
    decreases |parts|
  {
    if |parts| == 1 {
      SplitWithoutSeparator(parts[0], sep);
    } else {
      SplitJoin(parts[1..], sep);
      SplitAtFirst(parts[0], sep, Join(parts[1..], sep));
      assert parts == [parts[0]] + parts[1..];
    }
  }

  /** Text holding the separator splits into at least two pieces. */
  lemma SplitHasTwoPieces(s: string, sep: char)
    requires sep in s
    ensures |Split(s, sep)| >= 2
  {
    var i :| 0 <= i < |s| && s[i] == sep;
    assert s == s[..i] + [sep] + s[i + 1..];
    var j :| 0 <= j <= i && sep !in s[..j] && s[j] == sep by {
      FirstOccurrence(s, sep, i);
    }
    assert s == s[..j] + [sep] + s[j + 1..];
    SplitAtFirst(s[..j], sep, s[j + 1..]);
  }

  lemma {:induction false} FirstOccurrence(s: string, sep: char, i: int)
    requires 0 <= i < |s| && s[i] == sep
    ensures exists j :: 0 <= j <= i && sep !in s[..j] && s[j] == sep
    decreases i
  {
    if sep in s[..i] {
      var k :| 0 <= k < i && s[..i][k] == sep;
      FirstOccurrence(s, sep, k);
    } else {
      assert sep !in s[..i] && s[i] == sep;
    }
  }
}
