/**
 * The age-calculator form: the birth date assembled from the three typed
 * date fields, the full name shown in the success sentence, and the form
 * state with its submit, result, reset and edit operations.
 */
module AgeForm {
  import opened Options
  import opened JsText
  import opened Calendar
  import opened Validators

  // ---------------------------------------------------------------------
  // birthDate
  // ---------------------------------------------------------------------

  /**
   * The `birthDate` memo: each field through `parseInt`, the year not
   * negative, the month 1–12 and the day within that month, else `null`.
   */
  function BuildBirthDate(day: string, month: string, year: string): (r: Option<Date>)
    ensures r.Some? ==> ValidDate(r.value)
    ensures r.Some? ==>
      ParseInt(day) == Some(r.value.day) && ParseInt(month) == Some(r.value.month)
      && ParseInt(year) == Some(r.value.year)
    ensures r.None? <==>
      ParseInt(day).None? || ParseInt(month).None? || ParseInt(year).None?
      || !ValidDate(Date(ParseInt(year).value, ParseInt(month).value, ParseInt(day).value))
  {
    var d := ParseInt(day);
    var m := ParseInt(month);
    var y := ParseInt(year);
    if d.None? || m.None? || y.None? then None
    else if y.value < 0 || m.value < 1 || m.value > 12 then None
    else
      var md := MaxDaysInMonth(m.value, y.value);
      if d.value < 1 || d.value > md then None
      else Some(Date(y.value, m.value, d.value))
  }

  /** Every valid date, typed as plain decimal numbers, is rebuilt as itself. */
  lemma BirthDateOfText(dt: Date)
    requires ValidDate(dt)
    ensures BuildBirthDate(NatToString(dt.day), NatToString(dt.month), NatToString(dt.year)) == Some(dt)
  {
    ParseIntOfNatToString(dt.day);
    ParseIntOfNatToString(dt.month);
    ParseIntOfNatToString(dt.year);
  }

  /**
   * `parseInt` stops at the first non-digit, so text after the number does
   * not prevent the date from being built.
   */
  lemma BirthDateIgnoresTrailingText(dt: Date, rest: string)
    requires ValidDate(dt)
    requires rest == [] || !IsDigit(rest[0])
    ensures BuildBirthDate(NatToString(dt.day) + rest, NatToString(dt.month), NatToString(dt.year)) == Some(dt)
  {
    var text := NatToString(dt.day);
    ParseIntOfSignedDigits("", text, rest);
    assert "" + text + rest == text + rest;
    ParseIntOfNatToString(dt.month);
    ParseIntOfNatToString(dt.year);
  }

  /** The day text "31" as `parseInt` reads it. */
  lemma ParsedDay31()
    ensures ParseInt("31") == Some(31)
  {
    assert AllDigits("31") && "31"[..1] == "3";
    ParseIntOfDigits("31");
  }

  /** The year text "2020" as `parseInt` reads it. */
  lemma ParsedYear2020()
    ensures ParseInt("2020") == Some(2020)
  {
    assert AllDigits("2020") && "2020"[..3] == "202" && "202"[..2] == "20" && "20"[..1] == "2";
    ParseIntOfDigits("2020");
  }

  /** 31 April does not exist: no date is built. */
  lemma April31Rejected()
    ensures BuildBirthDate("31", "4", "2020") == None
  {
    ParsedDay31();
    ParseIntOfDigits("4");
    ParsedYear2020();
    assert !ValidDate(Date(2020, 4, 31));
  }

  /**
   * Day, month and year fields that all pass their validators always give
   * a birth date, between 1900 and the current year.
   */
  lemma ValidFieldsGiveBirthDate(day: string, month: string, year: string, currentYear: int)
    requires ValidateDay(day, month, year) == Ok
    requires ValidateMonth(month) == Ok
    requires ValidateYear(year, currentYear) == Ok
    ensures BuildBirthDate(day, month, year) == Some(Date(DecimalValue(year), DecimalValue(month), DecimalValue(day)))
    ensures 1900 <= DecimalValue(year) <= currentYear
  {
    ParseIntOfDigits(day);
    ParseIntOfDigits(month);
    ParseIntOfDigits(year);
    assert FitsTypedMonth(DecimalValue(day), month, year);
  }

  // ---------------------------------------------------------------------
  // fullName
  // ---------------------------------------------------------------------

  /** `fullName`: both names trimmed, joined by a space, and the whole trimmed again. */
  function FullName(first: string, last: string): (r: string)
    ensures IsTrimmed(r)
    ensures r == [] <==> AllWhitespace(first) && AllWhitespace(last)
  {
    var joined := Trim(first) + " " + Trim(last);
    assert AllWhitespace(joined) <==> Trim(first) == [] && Trim(last) == [] by {
      if Trim(first) != [] {
        assert joined[0] == Trim(first)[0];
      } else if Trim(last) != [] {
        assert joined[1] == Trim(last)[0];
      } else {
        assert joined == " ";
      }
    }
    Trim(joined)
  }

  /** The name in the success sentence, or "A pessoa" when there is none. */
  function DisplayName(first: string, last: string): (r: string)
    ensures AllWhitespace(first) && AllWhitespace(last) ==> r == "A pessoa"
    ensures !(AllWhitespace(first) && AllWhitespace(last)) ==> r == FullName(first, last) && r != []
  {
    var name := FullName(first, last);
    if name == [] then "A pessoa" else name
  }

  lemma TrimKeepsTrimmed(x: string)
    requires IsTrimmed(x)
    ensures Trim(x) == x
  {
    assert TrimStart(x) == x;
    assert TrimEnd(x) == x;
  }

  lemma TrimDropsLeadingSpace(x: string)
    requires IsTrimmed(x)
    ensures Trim(" " + x) == x
  {
    TrimStartSkips(" ", x);
    assert TrimEnd(x) == x;
  }

  lemma TrimDropsTrailingSpace(x: string)
    requires IsTrimmed(x)
    ensures Trim(x + " ") == x
  {
    var s := x + " ";
    if x == [] {
      assert s == " ";
      assert TrimStart(s) == TrimStart([]);
    } else {
      assert s[0] == x[0];
      assert TrimStart(s) == s;
      assert s[..|s| - 1] == x;
      assert TrimEnd(x) == x;
    }
  }

  /**
   * The full name is the first name, the last name, or both with one space
   * between, whichever of them is not blank.
   */
  lemma FullNameCases(first: string, last: string)
    ensures FullName(first, last) ==
      if Trim(first) == [] then Trim(last)
      else if Trim(last) == [] then Trim(first)
      else Trim(first) + " " + Trim(last)
  {
    var f, l := Trim(first), Trim(last);
    if f == [] {
      assert f + " " + l == " " + l;
      TrimDropsLeadingSpace(l);
    } else if l == [] {
      assert f + " " + l == f + " ";
      TrimDropsTrailingSpace(f);
    } else {
      var joined := f + " " + l;
      assert joined[0] == f[0] && joined[|joined| - 1] == l[|l| - 1];
      TrimKeepsTrimmed(joined);
    }
  }

  // ---------------------------------------------------------------------
  // The form
  // ---------------------------------------------------------------------

  datatype Field = FirstName | LastName | Email | Day | Month | Year

  /** The clock's instant taken as a birth date at 00:00 is later than it. */
  predicate BirthIsLater(birth: Date, now: Instant)
    requires ValidDate(birth) && ValidDate(now.date)
  {
    MinuteStamp(Instant(birth, 0, 0)) > MinuteStamp(now)
  }

  class Form {
    var firstName: string
    var lastName: string
    var email: string
    var day: string
    var month: string
    var year: string
    /** The message of the form-wide ("root") error, if one is set. */
    var rootError: Option<string>
    /** The last submit went through without a form-wide error. */
    var submitSuccessful: bool

    function Value(f: Field): string
      reads this
    {
      match f
      case FirstName => firstName
      case LastName => lastName
      case Email => email
      case Day => day
      case Month => month
      case Year => year
    }

    /** The default values: every field empty, no error, nothing submitted. */
    constructor ()
      ensures forall f :: Value(f) == []
      ensures rootError == None && !submitSuccessful
    {
      firstName, lastName, email := "", "", "";
      day, month, year := "", "", "";
      rootError := None;
      submitSuccessful := false;
    }

    /** The birth date the typed day, month and year currently give. */
    function BirthDate(): (r: Option<Date>)
      reads this
      ensures r.Some? ==> ValidDate(r.value)
      ensures r.Some? ==> ParseInt(day) == Some(r.value.day)
      ensures r == BuildBirthDate(day, month, year)
    {
      BuildBirthDate(day, month, year)
    }

    /** Every field passes its validator, the day checked against the typed month and year. */
    predicate FieldsValid(currentYear: int)
      reads this
    {
      ValidateFirstName(firstName) == Ok && ValidateLastName(lastName) == Ok
      && ValidateEmail(email) == Ok && ValidateDay(day, month, year) == Ok
      && ValidateMonth(month) == Ok && ValidateYear(year, currentYear) == Ok
    }

    /** A form whose six fields all pass has a birth date, in 1900 up to the current year. */
    lemma ValidFormHasBirthDate(currentYear: int)
      requires FieldsValid(currentYear)
      ensures BirthDate().Some? && 1900 <= BirthDate().value.year <= currentYear
    {
      ValidFieldsGiveBirthDate(day, month, year, currentYear);
    }

    /** Typing into one field changes that field only. */
    method Change(f: Field, v: string)
      modifies this
      ensures Value(f) == v
      ensures forall g | g != f :: Value(g) == old(Value(g))
      ensures rootError == old(rootError) && submitSuccessful == old(submitSuccessful)
    {
      match f
      case FirstName => firstName := v;
      case LastName => lastName := v;
      case Email => email := v;
      case Day => day := v;
      case Month => month := v;
      case Year => year := v;
    }

    /**
     * `onSubmit`: clear the errors, then refuse a missing birth date, then a
     * birth date after the clock's date; otherwise no form-wide error.
     */
    method Submit(now: Instant)
      requires ValidInstant(now)
      modifies this
      ensures forall f :: Value(f) == old(Value(f))
      ensures BirthDate().None? ==> rootError == Some("Data inválida.")
      ensures BirthDate().Some? && IsAfter(BirthDate().value, now.date) ==>
        rootError == Some("A data deve ser no passado.")
      ensures rootError == None <==> BirthDate().Some? && !IsAfter(BirthDate().value, now.date)
      ensures submitSuccessful <==> rootError == None
    {
      rootError := None;
      var birthDate := BuildBirthDate(day, month, year);
      if birthDate.None? {
        rootError := Some("Data inválida.");
      } else {
        MidnightAfterInstant(birthDate.value, now);
        if BirthIsLater(birthDate.value, now) {
          rootError := Some("A data deve ser no passado.");
        }
      }
      submitSuccessful := rootError.None?;
    }

    /**
     * The `result` memo: the difference from the birth date to the clock's
     * date, present exactly when a birth date exists and is not later.
     */
    method Result(now: Instant) returns (r: Option<Ymd>)
      requires ValidInstant(now)
      ensures r.Some? <==> BirthDate().Some? && !IsAfter(BirthDate().value, now.date)
      ensures r.Some? ==> r.value == ElapsedYmd(BirthDate().value, now.date)
      ensures r.Some? ==> r.value.years >= 0 && 0 <= r.value.months <= 11 && -2 <= r.value.days <= 30
    {
      var birthDate := BuildBirthDate(day, month, year);
      if birthDate.None? {
        r := None;
      } else {
        MidnightAfterInstant(birthDate.value, now);
        if BirthIsLater(birthDate.value, now) {
          r := None;
        } else {
          DifferenceBounds(birthDate.value, now.date);
          var diff := DifferenceYmd(birthDate.value, now.date);
          r := Some(diff);
        }
      }
    }

    /** "Limpar": every field back to empty, the errors and the submit state cleared. */
    method Reset()
      modifies this
      ensures forall f :: Value(f) == []
      ensures rootError == None && !submitSuccessful
      ensures BirthDate() == None
    {
      firstName, lastName, email := "", "", "";
      day, month, year := "", "", "";
      rootError := None;
      submitSuccessful := false;
      ParseIntWithoutDigits("");
    }
  }

  /**
   * A birth date equal to the clock's date is accepted and its result is
   * zero years, zero months and zero days.
   */
  lemma BornToday(now: Instant)
    requires ValidInstant(now)
    ensures var birth := BuildBirthDate(NatToString(now.date.day), NatToString(now.date.month), NatToString(now.date.year));
      birth == Some(now.date) && !IsAfter(now.date, now.date) && ElapsedYmd(now.date, now.date) == Ymd(0, 0, 0)
  {
    BirthDateOfText(now.date);
    DifferenceToSelf(now.date);
  }
}
