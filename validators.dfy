/**
 * The per-field rules of the form, as react-hook-form applies them: the
 * `required` rule first, then `minLength`, then `pattern`, then the custom
 * `validate` function, the first failing rule giving the field's message.
 * A validator only classifies text; it never changes the form.
 */
module Validators {
  import opened Options
  import opened JsText
  import opened Calendar

  /** `true` from a validator, or the message shown under the field. */
  datatype Verdict = Ok | Invalid(message: string)

  /** A JavaScript number used as a condition: false for NaN and for zero. */
  predicate Truthy(n: Option<int>) {
    n.Some? && n.value != 0
  }

  // ---------------------------------------------------------------------
  // Names
  // ---------------------------------------------------------------------

  /** `required` and `minLength: 2` on the raw value; white space counts. */
  function ValidateName(v: string, requiredMessage: string): (r: Verdict)
    ensures r == Ok <==> |v| >= 2
    ensures v == [] ==> r == Invalid(requiredMessage)
    ensures |v| == 1 ==> r == Invalid("Mínimo 2 letras")
  {
    if v == [] then Invalid(requiredMessage)
    else if |v| < 2 then Invalid("Mínimo 2 letras")
    else Ok
  }

  function ValidateFirstName(v: string): (r: Verdict)
    ensures r == Ok <==> |v| >= 2
    ensures v == [] ==> r == Invalid("Informe o nome")
    ensures |v| == 1 ==> r == Invalid("Mínimo 2 letras")
  {
    ValidateName(v, "Informe o nome")
  }

  function ValidateLastName(v: string): (r: Verdict)
    ensures r == Ok <==> |v| >= 2
    ensures v == [] ==> r == Invalid("Informe o sobrenome")
    ensures |v| == 1 ==> r == Invalid("Mínimo 2 letras")
  {
    ValidateName(v, "Informe o sobrenome")
  }

  // ---------------------------------------------------------------------
  // Email
  // ---------------------------------------------------------------------

  /** The class `[^\s@]`. */
  predicate IsRunChar(c: char) {
    !IsJsWhitespace(c) && c != '@'
  }

  /** The repetition `[^\s@]+`. */
  predicate IsRun(x: string) {
    |x| > 0 && forall k | 0 <= k < |x| :: IsRunChar(x[k])
  }

  /** The regular expression `^[^\s@]+@[^\s@]+\.[^\s@]+$`, with `i` at the `@` and `j` at the `.`. */
  predicate MatchesEmailPattern(s: string) {
    exists i, j | 0 <= i < j < |s| ::
      s[i] == '@' && s[j] == '.' && IsRun(s[..i]) && IsRun(s[i + 1..j]) && IsRun(s[j + 1..])
  }

  /** A domain with a dot that has text on both of its sides. */
  predicate HasInnerDot(d: string) {
    exists k | 0 < k < |d| - 1 :: d[k] == '.'
  }

  /**
   * The shape the pattern accepts, said directly: no white space, exactly
   * one `@`, something before it, and a domain after it with an inner dot.
   */
  predicate EmailShape(s: string) {
    (forall k | 0 <= k < |s| :: !IsJsWhitespace(s[k]))
    && exists i | 0 < i < |s| ::
         s[i] == '@' && (forall k | 0 <= k < |s| && k != i :: s[k] != '@') && HasInnerDot(s[i + 1..])
  }

  lemma PatternGivesShape(s: string, i: int, j: int)
    requires 0 <= i < j < |s| && s[i] == '@' && s[j] == '.'
    requires IsRun(s[..i]) && IsRun(s[i + 1..j]) && IsRun(s[j + 1..])
    ensures EmailShape(s)
  {
    forall k | 0 <= k < |s| && k != i && k != j
      ensures IsRunChar(s[k])
    {
      if k < i {
        assert s[k] == s[..i][k];
      } else if k < j {
        assert s[k] == s[i + 1..j][k - i - 1];
      } else {
        assert s[k] == s[j + 1..][k - j - 1];
      }
    }
    var d := s[i + 1..];
    assert d[j - i - 1] == '.';
    assert HasInnerDot(d);
  }

  lemma ShapeGivesPattern(s: string, i: int, k: int)
    requires forall m | 0 <= m < |s| :: !IsJsWhitespace(s[m])
    requires 0 < i < |s| && s[i] == '@' && forall m | 0 <= m < |s| && m != i :: s[m] != '@'
    requires 0 < k < |s| - i - 2 && s[i + 1 + k] == '.'
    ensures MatchesEmailPattern(s)
  {
    var j := i + 1 + k;
    assert IsRun(s[..i]) by {
      forall m | 0 <= m < i ensures IsRunChar(s[..i][m]) {
        assert s[..i][m] == s[m];
      }
    }
    var host := s[i + 1..j];
    assert IsRun(host) by {
      forall m | 0 <= m < |host| ensures IsRunChar(host[m]) {
        assert host[m] == s[i + 1 + m];
      }
    }
    var tld := s[j + 1..];
    assert IsRun(tld) by {
      forall m | 0 <= m < |tld| ensures IsRunChar(tld[m]) {
        assert tld[m] == s[j + 1 + m];
      }
    }
  }

  /** The email pattern accepts exactly the strings of that shape. */
  lemma EmailPatternIff(s: string)
    ensures MatchesEmailPattern(s) <==> EmailShape(s)
  {
    if MatchesEmailPattern(s) {
      var i, j :| 0 <= i < j < |s| && s[i] == '@' && s[j] == '.'
        && IsRun(s[..i]) && IsRun(s[i + 1..j]) && IsRun(s[j + 1..]);
      PatternGivesShape(s, i, j);
    }
    if EmailShape(s) {
      var i :| 0 < i < |s| && s[i] == '@' && (forall k | 0 <= k < |s| && k != i :: s[k] != '@')
        && HasInnerDot(s[i + 1..]);
      var d := s[i + 1..];
      var k :| 0 < k < |d| - 1 && d[k] == '.';
      ShapeGivesPattern(s, i, k);
    }
  }

  /** `required`, then the email pattern. */
  function ValidateEmail(v: string): (r: Verdict)
    ensures r == Ok <==> EmailShape(v)
    ensures v == [] ==> r == Invalid("Informe o email")
    ensures v != [] && !EmailShape(v) ==> r == Invalid("Email inválido")
  {
    EmailPatternIff(v);
    if v == [] then Invalid("Informe o email")
    else if !MatchesEmailPattern(v) then Invalid("Email inválido")
    else Ok
  }

  // ---------------------------------------------------------------------
  // Day, month, year
  // ---------------------------------------------------------------------

  /**
   * The day of the month against the month and year currently typed: only
   * when both parse to non-zero numbers is the month length enforced.
   */
  predicate FitsTypedMonth(n: int, month: string, year: string) {
    var m := ParseInt(month);
    var y := ParseInt(year);
    !(Truthy(m) && Truthy(y)) || n <= MaxDaysInMonth(m.value, y.value)
  }

  /** The day field: `required`, then one or two digits, then 1–31, then the typed month's length. */
  function ValidateDay(v: string, month: string, year: string): (r: Verdict)
    ensures v == [] ==> r == Invalid("Informe o dia")
    ensures v != [] && !DigitsOfLength(v, 1, 2) ==> r == Invalid("Somente números")
    ensures DigitsOfLength(v, 1, 2) ==> (r == Invalid("Dia inválido") <==> !(1 <= DecimalValue(v) <= 31))
    ensures r == Ok <==>
      DigitsOfLength(v, 1, 2) && 1 <= DecimalValue(v) <= 31 && FitsTypedMonth(DecimalValue(v), month, year)
    ensures DigitsOfLength(v, 1, 2) && 1 <= DecimalValue(v) <= 31 && !FitsTypedMonth(DecimalValue(v), month, year) ==>
      r == Invalid("Máx: " + NatToString(MaxDaysInMonth(ParseInt(month).value, ParseInt(year).value)) + " dias")
  {
    var n := ParseInt(v);
    if v == [] then Invalid("Informe o dia")
    else if !DigitsOfLength(v, 1, 2) then Invalid("Somente números")
    else
      ParseIntOfDigits(v);
      if !(n.Some? && 1 <= n.value <= 31) then Invalid("Dia inválido")
      else
        var m := ParseInt(month);
        var y := ParseInt(year);
        if Truthy(m) && Truthy(y) then
          var md := MaxDaysInMonth(m.value, y.value);
          var tooMany := "Máx: " + NatToString(md) + " dias";
          assert tooMany[0] == 'M';
          if n.value > md then Invalid(tooMany) else Ok
        else Ok
  }

  /** The month field: `required`, then one or two digits, then 1–12. */
  function ValidateMonth(v: string): (r: Verdict)
    ensures v == [] ==> r == Invalid("Informe o mês")
    ensures v != [] && !DigitsOfLength(v, 1, 2) ==> r == Invalid("Somente números")
    ensures DigitsOfLength(v, 1, 2) && !(1 <= DecimalValue(v) <= 12) ==> r == Invalid("Mês inválido")
    ensures r == Ok <==> DigitsOfLength(v, 1, 2) && 1 <= DecimalValue(v) <= 12
  {
    var n := ParseInt(v);
    if v == [] then Invalid("Informe o mês")
    else if !DigitsOfLength(v, 1, 2) then Invalid("Somente números")
    else
      ParseIntOfDigits(v);
      if !(n.Some? && 1 <= n.value <= 12) then Invalid("Mês inválido")
      else Ok
  }

  /** The year field: `required`, then four digits, then not before 1900, then not after the current year. */
  function ValidateYear(v: string, currentYear: int): (r: Verdict)
    ensures v == [] ==> r == Invalid("Informe o ano")
    ensures v != [] && !DigitsOfLength(v, 4, 4) ==> r == Invalid("Use 4 dígitos")
    ensures DigitsOfLength(v, 4, 4) ==>
      (r == Invalid("Ano muito antigo") <==> DecimalValue(v) < 1900)
      && (r == Invalid("Futuro não permitido") <==> 1900 <= DecimalValue(v) && currentYear < DecimalValue(v))
    ensures r == Ok <==> DigitsOfLength(v, 4, 4) && 1900 <= DecimalValue(v) <= currentYear
  {
    if v == [] then Invalid("Informe o ano")
    else if !DigitsOfLength(v, 4, 4) then Invalid("Use 4 dígitos")
    else
      ParseIntOfDigits(v);
      var n := ParseInt(v).value;
      if n < 1900 then Invalid("Ano muito antigo")
      else if n > currentYear then Invalid("Futuro não permitido")
      else Ok
  }

  /** 1899 is too old, the current year is accepted and the next one is in the future. */
  lemma YearBoundaries(currentYear: nat)
    requires 1900 <= currentYear <= 9998
    ensures ValidateYear("1899", currentYear) == Invalid("Ano muito antigo")
    ensures ValidateYear(NatToString(currentYear), currentYear) == Ok
    ensures ValidateYear(NatToString(currentYear + 1), currentYear) == Invalid("Futuro não permitido")
  {
    FourDigitYearText(currentYear);
    FourDigitYearText(currentYear + 1);
    assert DigitsOfLength("1899", 4, 4);
    assert "1899"[..3] == "189" && "189"[..2] == "18" && "18"[..1] == "1";
    assert DecimalValue("1899") == 1899;
  }

  /** Day 32 is refused whatever the month and year. */
  lemma Day32Refused(month: string, year: string)
    ensures ValidateDay("32", month, year) == Invalid("Dia inválido")
  {
    assert DigitsOfLength("32", 1, 2) && "32"[..1] == "3";
    assert DecimalValue("32") == 32;
  }

  /** `parseInt` of the month text "2" and of a four-digit year text. */
  lemma FebruaryOf(year: string, y: nat)
    requires |year| == 4 && AllDigits(year) && DecimalValue(year) == y
    ensures ParseInt("2") == Some(2) && ParseInt(year) == Some(y)
  {
    ParseIntOfDigits("2");
    ParseIntOfDigits(year);
  }

  lemma TooManyDaysMessage28()
    ensures "Máx: " + NatToString(28) + " dias" == "Máx: 28 dias"
  {
    assert NatToString(28) == "28";
  }

  /** 29 February is refused in 2023, with the month length in the message. */
  lemma Feb29In2023Refused()
    ensures ValidateDay("29", "2", "2023") == Invalid("Máx: 28 dias")
  {
    TooManyDaysMessage28();
    assert "2023"[..3] == "202" && "202"[..2] == "20" && "20"[..1] == "2";
    FebruaryOf("2023", 2023);
    assert DigitsOfLength("29", 1, 2) && "29"[..1] == "2";
    assert DecimalValue("29") == 29;
    IsLeapGregorian(2023);
    assert MaxDaysInMonth(2, 2023) == 28;
  }

  /** 29 February is accepted in 2024. */
  lemma Feb29In2024Accepted()
    ensures ValidateDay("29", "2", "2024") == Ok
  {
    assert "2024"[..3] == "202" && "202"[..2] == "20" && "20"[..1] == "2";
    FebruaryOf("2024", 2024);
    assert DigitsOfLength("29", 1, 2) && "29"[..1] == "2";
    assert DecimalValue("29") == 29;
    IsLeapGregorian(2024);
    assert MaxDaysInMonth(2, 2024) == 29;
  }
}
