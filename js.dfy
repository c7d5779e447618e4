/** The part of JavaScript's value semantics that the modelled utilities rely
    on: the values a caller can pass, truthiness, property reads, the
    `trim`/`\s` whitespace class, the `\w` class, string length in UTF-16 code
    units, `String(v)` and `parseInt(s, 10)`. Numbers are integer-valued. */
module Js {
  import opened Wrappers
  import opened Text

  /** A JavaScript value: primitives, arrays and plain objects. */
  datatype Value =
    | Undefined
    | Null
    | Bool(b: bool)
    | Num(n: int)
    | Str(s: string)
    | Arr(items: seq<Value>)
    | Obj(fields: map<string, Value>)

  /** ToBoolean: `!v` is false exactly for these values. */
  predicate Truthy(v: Value)
  {
    match v
    case Undefined => false
    case Null => false
    case Bool(b) => b
    case Num(n) => n != 0
    case Str(s) => s != ""
    case Arr(_) => true
    case Obj(_) => true
  }

  /** `typeof v === 'object'` (null included, as in JavaScript). */
  predicate IsObjectType(v: Value)
  {
    v.Null? || v.Arr? || v.Obj?
  }

  /** Reading property `key` of an object value (destructuring included);
      a missing property, or any property of a non-plain-object, reads undefined. */
  function Get(v: Value, key: string): Value
  {
    if v.Obj? && key in v.fields then v.fields[key] else Undefined
  }

  /** WhiteSpace and LineTerminator of the ECMAScript grammar: the class that
      String.prototype.trim removes and that `\s` matches. */
  predicate IsWhiteSpace(c: char)
  {
    c == '\t' || c == '\n' || c == '\U{000B}' || c == '\U{000C}' || c == '\r' || c == ' '
    || c == '\U{00A0}' || c == '\U{1680}' || ('\U{2000}' <= c <= '\U{200A}')
    || c == '\U{2028}' || c == '\U{2029}' || c == '\U{202F}' || c == '\U{205F}'
    || c == '\U{3000}' || c == '\U{FEFF}'
  }

  /** `\w`: ASCII letters, digits and underscore. */
  predicate IsWordChar(c: char)
  {
    ('a' <= c <= 'z') || ('A' <= c <= 'Z') || IsAsciiDigit(c) || c == '_'
  }

  /** The character at index `i` is a word character; positions outside the
      string count as non-word, as regular expressions treat them. */
  predicate WordAt(s: string, i: int)
  {
    0 <= i < |s| && IsWordChar(s[i])
  }

  /** `\b` holds at position `i` (between s[i-1] and s[i]). */
  predicate BoundaryAt(s: string, i: int)
  {
    WordAt(s, i - 1) != WordAt(s, i)
  }

  /** String.prototype.trim. */
  function Trim(s: string): (r: string)
    ensures r == [] <==> All(s, IsWhiteSpace)
    ensures r != [] ==> !IsWhiteSpace(r[0]) && !IsWhiteSpace(r[|r| - 1])
  {
    TrimBy(s, IsWhiteSpace)
  }

  /** `s.length`: the number of UTF-16 code units; a character outside the
      Basic Multilingual Plane takes two. */
  function Utf16Length(s: string): (n: nat)
    ensures |s| <= n <= 2 * |s|
  {
    if s == [] then 0 else (if s[0] as int > 0xFFFF then 2 else 1) + Utf16Length(s[1..])
  }

  lemma {:induction false} Utf16LengthBmp(s: string)
    requires forall k :: 0 <= k < |s| ==> s[k] as int <= 0xFFFF
    ensures Utf16Length(s) == |s|
  {
    if s != [] {
      Utf16LengthBmp(s[1..]);
    }
  }

  // ---------------------------------------------------------------------------
  // String(v)
  // ---------------------------------------------------------------------------

  function Pow10(k: nat): (p: nat)
    ensures p >= 1
  {
    if k == 0 then 1 else 10 * Pow10(k - 1)
  }

  lemma {:induction false} DecimalLengthBound(n: nat, k: nat)
    requires k > 0
    ensures |DecimalString(n)| <= k <==> n < Pow10(k)
  {
    assert Pow10(1) == 10;
    if n >= 10 && k > 1 {
      DecimalLengthBound(n / 10, k - 1);
    } else if n >= 10 {
      assert |DecimalString(n)| == |DecimalString(n / 10)| + 1;
    } else {
      PowMonotone(1, k);
    }
  }

  lemma {:induction false} PowMonotone(j: nat, k: nat)
    requires j <= k
    ensures Pow10(j) <= Pow10(k)
  {
    if j < k {
      PowMonotone(j, k - 1);
    }
  }

  /** `s` with its trailing '0' digits removed. */
  function StripTrailingZeros(s: string): (r: string)
    ensures |r| <= |s| && r == s[..|r|]
    ensures forall k :: |r| <= k < |s| ==> s[k] == '0'
    ensures r != [] ==> r[|r| - 1] != '0'
    ensures |s| > 0 && s[0] != '0' ==> |r| > 0 && r[0] == s[0]
  {
    if s == [] || s[|s| - 1] != '0' then s else StripTrailingZeros(s[..|s| - 1])
  }

  /** Number::toString for a non-negative integer with more than 21 digits:
      the significant digits, a '.' after the first one if there are several,
      then "e+" and the exponent. */
  function ExponentForm(digits: string): string
    requires |digits| > 21 && digits[0] != '0'
  {
    var m := StripTrailingZeros(digits);
    (if |m| == 1 then m else [m[0]] + "." + m[1..]) + "e+" + DecimalString(|digits| - 1)
  }

  /** Number::toString for an integer-valued number. */
  function NumberToString(n: int): string
  {
    var magnitude := if n < 0 then -n else n;
    var digits := DecimalString(magnitude);
    var body :=
      if |digits| <= 21 then digits
      else (DecimalStringNoLeadingZero(magnitude); ExponentForm(digits));
    if n < 0 then "-" + body else body
  }

  /** ToString(v), which template literals, `String(v)`, `value.toString()` on
      primitives and arrays, and Array.prototype.join apply. */
  function ToString(v: Value): string
    decreases v, 1
  {
    match v
    case Undefined => "undefined"
    case Null => "null"
    case Bool(b) => if b then "true" else "false"
    case Num(n) => NumberToString(n)
    case Str(s) => s
    case Arr(items) => Join(seq(|items|, i requires 0 <= i < |items| => ElementString(items[i])), ",")
    case Obj(_) => "[object Object]"
  }

  /** How Array.prototype.join renders one element: null and undefined become ''. */
  function ElementString(v: Value): string
    decreases v, 2
  {
    if v.Undefined? || v.Null? then "" else ToString(v)
  }

  /** `items.join(sep)`. */
  function JoinValues(items: seq<Value>, sep: string): string
  {
    Join(seq(|items|, i requires 0 <= i < |items| => ElementString(items[i])), sep)
  }

  // ---------------------------------------------------------------------------
  // parseInt(s, 10)
  // ---------------------------------------------------------------------------

  /** parseInt(s, 10): skip leading whitespace, read an optional sign and the
      longest run of decimal digits; no digit at all gives NaN (None). */
  function ParseInt(s: string): Option<int>
  {
    ParseSigned(s[RunFrom(s, 0, IsWhiteSpace)..])
  }

  /** An optional sign, then the leading digits. */
  function ParseSigned(t: string): Option<int>
  {
    var negative := |t| > 0 && t[0] == '-';
    var rest := if |t| > 0 && (t[0] == '-' || t[0] == '+') then t[1..] else t;
    var d := LeadingDigits(rest);
    if d.None? then None else Some(if negative then -(d.value as int) else d.value as int)
  }

  /** The value of the longest run of decimal digits that starts `u`, if any. */
  function LeadingDigits(u: string): Option<nat>
  {
    var n := RunFrom(u, 0, IsAsciiDigit);
    if n == 0 then None else Some(DigitsValue(u[..n]))
  }

  lemma {:induction false} RunFromAll(s: string, i: nat, p: char -> bool)
    requires i <= |s|
    requires forall k :: i <= k < |s| ==> p(s[k])
    ensures RunFrom(s, i, p) == |s| - i
    decreases |s| - i
  {
    if i < |s| {
      RunFromAll(s, i + 1, p);
    }
  }

  /** With no leading whitespace, parseInt reads the sign and digits directly. */
  lemma ParseIntNoLeadingSpace(s: string)
    requires |s| > 0 && !IsWhiteSpace(s[0])
    ensures ParseInt(s) == ParseSigned(s)
  {
    assert RunFrom(s, 0, IsWhiteSpace) == 0;
    assert s[0..] == s;
  }

  /** A '-' before a digit-led body negates what the body's digits denote. */
  lemma ParseSignedMinus(body: string)
    requires |body| > 0 && IsAsciiDigit(body[0])
    ensures ParseSigned("-" + body) == Some(-(LeadingDigits(body).value as int))
  {
    assert ("-" + body)[1..] == body;
  }

  /** parseInt of a digit-led string is the value of its leading digits. */
  lemma ParseIntDigitLed(body: string)
    requires |body| > 0 && IsAsciiDigit(body[0])
    ensures ParseInt(body) == Some(LeadingDigits(body).value as int)
  {
    ParseIntNoLeadingSpace(body);
  }

  /** parseInt of '-' and a digit-led string is the negated value of its leading digits. */
  lemma ParseIntMinusDigitLed(body: string)
    requires |body| > 0 && IsAsciiDigit(body[0])
    ensures ParseInt("-" + body) == Some(-(LeadingDigits(body).value as int))
  {
    ParseIntNoLeadingSpace("-" + body);
    ParseSignedMinus(body);
  }

  /** A string made only of digits is read whole. */
  lemma LeadingDigitsOfDigits(digits: string)
    requires |digits| > 0 && forall k :: 0 <= k < |digits| ==> IsAsciiDigit(digits[k])
    ensures LeadingDigits(digits) == Some(DigitsValue(digits))
  {
    RunFromAll(digits, 0, IsAsciiDigit);
    assert digits[..|digits|] == digits;
  }

  /** parseInt reads back every integer String renders in positional form. */
  lemma ParseIntNumberToString(n: int)
    requires -(Pow10(21) as int) < n < Pow10(21)
    ensures ParseInt(NumberToString(n)) == Some(n)
  {
    var magnitude := if n < 0 then -n else n;
    var digits := DecimalString(magnitude);
    DecimalLengthBound(magnitude, 21);
    DecimalStringRoundTrip(magnitude);
    LeadingDigitsOfDigits(digits);
    if n < 0 {
      assert NumberToString(n) == "-" + digits;
      ParseIntMinusDigitLed(digits);
    } else {
      assert NumberToString(n) == digits;
      ParseIntDigitLed(digits);
    }
  }

  /** Integers of more than 21 digits (at least 10^21 in magnitude, by
      DecimalLengthBound) render in exponent form, and parseInt then reads
      only their first digit. */
  lemma ParseIntLargeNumber(n: nat)
    requires |DecimalString(n)| > 21
    ensures ParseInt(NumberToString(n)) == Some(DigitValue(DecimalString(n)[0]) as int)
  {
    var digits := DecimalString(n);
    DecimalStringNoLeadingZero(n);
    NumberToStringLarge(n, digits);
    ParseExponentForm(digits);
  }

  /** String(n) for a non-negative n of more than 21 digits is the exponent form. */
  lemma NumberToStringLarge(n: nat, digits: string)
    requires digits == DecimalString(n) && |digits| > 21 && digits[0] != '0'
    ensures NumberToString(n) == ExponentForm(digits)
  {
  }

  /** parseInt reads the first digit of an exponent form. */
  lemma ParseExponentForm(digits: string)
    requires |digits| > 21 && digits[0] != '0'
    requires forall k :: 0 <= k < |digits| ==> IsAsciiDigit(digits[k])
    ensures ParseInt(ExponentForm(digits)) == Some(DigitValue(digits[0]) as int)
  {
    ExponentFormLeadingDigit(digits);
    ParseIntDigitLed(ExponentForm(digits));
  }

  /** The exponent form starts with one digit followed by a non-digit. */
  lemma ExponentFormLeadingDigit(digits: string)
    requires |digits| > 21 && digits[0] != '0'
    requires forall k :: 0 <= k < |digits| ==> IsAsciiDigit(digits[k])
    ensures var body := ExponentForm(digits);
            |body| > 0 && IsAsciiDigit(body[0]) && LeadingDigits(body) == Some(DigitValue(digits[0]))
  {
    var body := ExponentForm(digits);
    var m := StripTrailingZeros(digits);
    assert body[0] == digits[0];
    assert !IsAsciiDigit(body[1]);
    assert RunFrom(body, 0, IsAsciiDigit) == 1;
    assert body[..1] == [digits[0]];
    assert DigitsValue(body[..1]) == DigitsValue([]) * 10 + DigitValue(digits[0]);
  }
}
