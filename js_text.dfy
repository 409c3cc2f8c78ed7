/**
 * The pieces of JavaScript string handling the age calculator relies on:
 * the white-space class shared by `\s`, `String.prototype.trim` and
 * `parseInt`, ASCII decimal digits, `parseInt(s, 10)` and the decimal
 * rendering of a number inside a template literal.
 */
module JsText {
  import opened Options

  /** ECMA-262 WhiteSpace and LineTerminator code points. */
  predicate IsJsWhitespace(c: char) {
    c == '\t' || c == '\n' || c == '\U{000B}' || c == '\U{000C}' || c == '\r' || c == ' '
    || c == '\U{00A0}' || c == '\U{1680}' || ('\U{2000}' <= c <= '\U{200A}')
    || c == '\U{2028}' || c == '\U{2029}' || c == '\U{202F}' || c == '\U{205F}'
    || c == '\U{3000}' || c == '\U{FEFF}'
  }

  predicate AllWhitespace(s: string) {
    forall i | 0 <= i < |s| :: IsJsWhitespace(s[i])
  }

  predicate IsDigit(c: char) {
    '0' <= c <= '9'
  }

  predicate AllDigits(s: string) {
    forall i | 0 <= i < |s| :: IsDigit(s[i])
  }

  /** The regular expression `^[0-9]{lo,hi}$`. */
  predicate DigitsOfLength(s: string, lo: nat, hi: nat) {
    lo <= |s| <= hi && AllDigits(s)
  }

  function DigitValue(c: char): nat
    requires IsDigit(c)
  {
    c as int - '0' as int
  }

  function DigitChar(n: nat): (c: char)
    requires n < 10
    ensures IsDigit(c) && DigitValue(c) == n
  {
    ('0' as int + n) as char
  }

  /** The number a string of decimal digits denotes, most significant digit first. */
  function DecimalValue(s: string): nat
    requires AllDigits(s)
    decreases |s|
  {
    if s == [] then 0 else DecimalValue(s[..|s| - 1]) * 10 + DigitValue(s[|s| - 1])
  }

  /** The decimal text JavaScript produces for a non-negative integer (`${n}`). */
  function NatToString(n: nat): (s: string)
    ensures |s| > 0 && AllDigits(s)
    ensures DecimalValue(s) == n
    ensures |s| > 1 ==> s[0] != '0'
  {
    if n < 10 then [DigitChar(n)]
    else
      var prefix := NatToString(n / 10);
      var s := prefix + [DigitChar(n % 10)];
      assert s[..|s| - 1] == prefix;
      s
  }

  lemma FourDigitYearText(n: nat)
    requires 1000 <= n <= 9999
    ensures |NatToString(n)| == 4
  {
    assert |NatToString(n / 1000)| == 1;
    assert |NatToString(n / 100)| == 2;
    assert |NatToString(n / 10)| == 3;
  }

  /** What `trimStart` leaves: the input after its leading white space. */
  function TrimStart(s: string): (r: string)
    ensures |r| <= |s|
    ensures r == [] || !IsJsWhitespace(r[0])
  {
    if s != [] && IsJsWhitespace(s[0]) then TrimStart(s[1..]) else s
  }

  /** `trimStart` removes exactly a white-space prefix. */
  lemma {:induction false} TrimStartDropsWhitespace(s: string)
    ensures var r := TrimStart(s);
      r == s[|s| - |r|..] && AllWhitespace(s[..|s| - |r|])
  {
    if s != [] && IsJsWhitespace(s[0]) {
      TrimStartDropsWhitespace(s[1..]);
      var r := TrimStart(s[1..]);
      assert s[..|s| - |r|] == [s[0]] + s[1..][..|s| - 1 - |r|];
    }
  }

  /** What `trimEnd` leaves: the input before its trailing white space. */
  function TrimEnd(s: string): (r: string)
    ensures |r| <= |s| && r == s[..|r|]
    ensures AllWhitespace(s[|r|..])
    ensures r == [] || !IsJsWhitespace(r[|r| - 1])
  {
    if s != [] && IsJsWhitespace(s[|s| - 1]) then
      var r := TrimEnd(s[..|s| - 1]);
      assert s[|r|..] == s[..|s| - 1][|r|..] + [s[|s| - 1]];
      r
    else s
  }

  predicate IsTrimmed(s: string) {
    s == [] || (!IsJsWhitespace(s[0]) && !IsJsWhitespace(s[|s| - 1]))
  }

  /** `String.prototype.trim`: a middle slice of the input, white space on either side of it. */
  function Trim(s: string): (r: string)
    ensures IsTrimmed(r)
    ensures exists i, j | 0 <= i <= j <= |s| :: r == s[i..j] && AllWhitespace(s[..i]) && AllWhitespace(s[j..])
    ensures r == [] <==> AllWhitespace(s)
  {
    var t := TrimStart(s);
    TrimStartDropsWhitespace(s);
    var r := TrimEnd(t);
    var i := |s| - |t|;
    var j := i + |r|;
    assert r == s[i..j];
    assert s[j..] == t[|r|..];
    assert r != [] ==> r[0] == t[0];
    assert AllWhitespace(s) ==> t == [];
    assert t == [] ==> s[..i] == s;
    r
  }

  /**
   * `parseInt(s, 10)`: skip leading white space, take an optional sign, then
   * the longest run of decimal digits; no digit at all gives NaN (`None`).
   * A negative zero is the integer 0.
   */
  function ParseInt(s: string): Option<int> {
    ParseSignedDigits(TrimStart(s))
  }

  /** `parseInt` once the leading white space is gone: an optional sign, then digits. */
  function ParseSignedDigits(t: string): Option<int> {
    if t != [] && t[0] == '-' then Negate(ParseDigits(t[1..]))
    else if t != [] && t[0] == '+' then ParseDigits(t[1..])
    else ParseDigits(t)
  }

  function ParseDigits(body: string): Option<int> {
    var digits := DigitPrefix(body);
    if digits == [] then None else Some(DecimalValue(digits))
  }

  function Negate(v: Option<int>): Option<int> {
    match v
    case None => None
    case Some(n) => Some(-n)
  }

  /** The longest prefix made of decimal digits. */
  function DigitPrefix(s: string): (d: string)
    ensures |d| <= |s| && AllDigits(d)
    ensures forall i | 0 <= i < |d| :: d[i] == s[i]
    ensures |d| < |s| ==> !IsDigit(s[|d|])
  {
    if s != [] && IsDigit(s[0]) then [s[0]] + DigitPrefix(s[1..]) else []
  }

  lemma {:induction false} TrimStartSkips(w: string, x: string)
    requires AllWhitespace(w)
    requires x == [] || !IsJsWhitespace(x[0])
    ensures TrimStart(w + x) == x
  {
    if w != [] {
      assert (w + x)[1..] == w[1..] + x;
      TrimStartSkips(w[1..], x);
    }
  }

  lemma {:induction false} DigitPrefixStops(d: string, rest: string)
    requires AllDigits(d)
    requires rest == [] || !IsDigit(rest[0])
    ensures DigitPrefix(d + rest) == d
  {
    if d != [] {
      assert (d + rest)[1..] == d[1..] + rest;
      DigitPrefixStops(d[1..], rest);
    }
  }

  /** Leading white space does not change what `parseInt` reads. */
  lemma ParseIntSkipsWhitespace(w: string, x: string)
    requires AllWhitespace(w)
    requires x == [] || !IsJsWhitespace(x[0])
    ensures ParseInt(w + x) == ParseInt(x)
  {
    TrimStartSkips(w, x);
    TrimStartSkips("", x);
    assert "" + x == x;
    assert TrimStart(w + x) == TrimStart(x);
  }

  /** What may stand between the white space and the digits: nothing, `+` or `-`. */
  predicate IsSignText(sign: string) {
    |sign| <= 1 && (|sign| == 1 ==> sign[0] == '-' || sign[0] == '+')
  }

  predicate IsMinus(sign: string) {
    |sign| == 1 && sign[0] == '-'
  }

  /** The value of digits `d` under a sign text. */
  function SignedValue(sign: string, d: string): int
    requires AllDigits(d)
  {
    var n: int := DecimalValue(d);
    if IsMinus(sign) then -n else n
  }

  /** How `sign + d + rest` splits; kept apart from the arithmetic of the lemmas that use it. */
  lemma SignedTextShape(sign: string, d: string, rest: string)
    requires |sign| <= 1 && |d| > 0
    ensures var x := sign + d + rest;
      (sign == [] ==> x == d + rest && x[0] == d[0]) &&
      (|sign| == 1 ==> x[0] == sign[0] && x[1..] == d + rest)
  {
  }

  /** The sign step of `parseInt`, on text that has no leading white space. */
  lemma ParseIntOfSign(x: string, body: string, v: int)
    requires |x| > 0 && x[1..] == body && ParseDigits(body) == Some(v)
    requires x[0] == '-' || x[0] == '+'
    ensures ParseInt(x) == Some(if x[0] == '-' then -v else v)
  {
    assert TrimStart(x) == x;
  }

  lemma ParseIntOfUnsigned(x: string, v: int)
    requires |x| > 0 && IsDigit(x[0]) && ParseDigits(x) == Some(v)
    ensures ParseInt(x) == Some(v)
  {
    assert TrimStart(x) == x;
  }

  lemma ParseIntOfSignedDigits(sign: string, d: string, rest: string)
    requires IsSignText(sign)
    requires |d| > 0 && AllDigits(d)
    requires rest == [] || !IsDigit(rest[0])
    ensures ParseInt(sign + d + rest) == Some(SignedValue(sign, d))
  {
    var x := sign + d + rest;
    SignedTextShape(sign, d, rest);
    DigitPrefixStops(d, rest);
    var v: int := DecimalValue(d);
    if |sign| == 0 {
      ParseIntOfUnsigned(x, v);
    } else {
      ParseIntOfSign(x, d + rest, v);
    }
  }

  /**
   * `parseInt` read backwards: white space, an optional sign, digits and
   * then anything that does not start with a digit parse to the signed
   * value of those digits.
   */
  lemma ParseIntOfParts(w: string, sign: string, d: string, rest: string)
    requires AllWhitespace(w)
    requires IsSignText(sign)
    requires |d| > 0 && AllDigits(d)
    requires rest == [] || !IsDigit(rest[0])
    ensures ParseInt(w + sign + d + rest) == Some(SignedValue(sign, d))
  {
    AssociateFour(w, sign, d, rest);
    SignedTextShape(sign, d, rest);
    ParseIntSkipsWhitespace(w, sign + d + rest);
    ParseIntOfSignedDigits(sign, d, rest);
  }

  lemma AssociateFour(a: string, b: string, c: string, e: string)
    ensures a + b + c + e == a + (b + c + e)
  {
  }

  /** A string of digits alone parses to its decimal value. */
  lemma ParseIntOfDigits(d: string)
    requires |d| > 0 && AllDigits(d)
    ensures ParseInt(d) == Some(DecimalValue(d))
  {
    ParseIntOfSignedDigits("", d, "");
    assert "" + d + "" == d;
  }

  /** A string with no digit in it parses to NaN. */
  lemma ParseIntWithoutDigits(s: string)
    requires forall i | 0 <= i < |s| :: !IsDigit(s[i])
    ensures ParseInt(s) == None
  {
    var t := TrimStart(s);
    TrimStartDropsWhitespace(s);
    assert forall i | 0 <= i < |t| :: !IsDigit(t[i]) by {
      forall i | 0 <= i < |t| ensures !IsDigit(t[i]) {
        assert t[i] == s[|s| - |t| + i];
      }
    }
    if t != [] && (t[0] == '-' || t[0] == '+') {
      assert |t| > 1 ==> !IsDigit(t[1..][0]);
      assert DigitPrefix(t[1..]) == [];
    } else {
      assert DigitPrefix(t) == [];
    }
  }

  /**
   * `parseInt` gives NaN as soon as the character after the white space and
   * the optional sign is not a digit, as in "a1", "-+5" or " -x2".
   */
  lemma ParseIntOfNonNumber(w: string, sign: string, x: string)
    requires AllWhitespace(w)
    requires IsSignText(sign)
    requires x == [] || !IsDigit(x[0])
    requires sign == [] ==> x == [] || (!IsJsWhitespace(x[0]) && x[0] != '-' && x[0] != '+')
    ensures ParseInt(w + sign + x) == None
  {
    var t := sign + x;
    assert w + sign + x == w + t;
    if sign == [] {
      assert t == x;
      TrimStartSkips(w, t);
      assert DigitPrefix(x) == [];
    } else {
      assert t[0] == sign[0] && t[1..] == x;
      TrimStartSkips(w, t);
      assert DigitPrefix(x) == [];
    }
  }

  /** Rendering a number and parsing it back gives the number. */
  lemma ParseIntOfNatToString(n: nat)
    ensures ParseInt(NatToString(n)) == Some(n)
  {
    ParseIntOfDigits(NatToString(n));
  }
}
