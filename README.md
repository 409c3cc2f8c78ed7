# Age calculator — a Dafny model

This project models the logic of a single-page age calculator, "Calculadora de
Idade". A person types a first name, a last name, an email and a birth date as
three text fields (day, month, year). The form checks each field. From the
birth date and the current Brasília date it shows the years, months and days
elapsed.

The model has five modules:

- `Options` (`options.dfy`): the `Option` type. It stands for `null` and for `NaN`.
- `JsText` (`js_text.dfy`): the JavaScript string behaviour the program relies on.
  This covers the white-space class shared by `\s`, `trim` and `parseInt`,
  `parseInt(s, 10)` itself, `trim`, and the decimal text of a number in a
  template literal.
- `Calendar` (`calendar.dfy`): the proleptic Gregorian leap rule (with
  JavaScript's truncating `%`) and month lengths. It also holds `differenceYMD`,
  written as a method that updates its three locals step by step and is proved
  against a separate "elapsed whole months" definition. Finally it gives the
  order of `Date` values: a day count and a minute count, with a proof that
  comparing a midnight birth date with the clock's instant is plain year/month/day
  order.
- `Validators` (`validators.dfy`): the six field validators, in react-hook-form's
  rule order (`required`, `minLength`, `pattern`, `validate`). It includes the
  email regular expression and a proof that it accepts exactly the described
  shape.
- `AgeForm` (`age_form.dfy`): the `birthDate` memo and `fullName`. It also has the
  form itself, a class whose fields are the six texts, the form-wide error and
  the submit-success flag. Its methods are `Submit`, `Result`, `Reset` and
  `Change`.

"Today" is a parameter of type `Instant` (a date plus hour and minute), and so is
the current year used by the year validator.

Behaviour of the code worth knowing, which the model keeps:

- `differenceYMD` borrows the length of the month before `to`'s month exactly
  once, so the day count can be negative: 2000-01-31 → 2000-03-01 gives
  (0, 1, -1), and 1990-05-20 → 2024-05-15 gives (33, 11, 25). The days always
  lie in -2..30 (`Calendar.DifferenceBounds`). Added back to `from` with `Date`'s
  overflow of months and days, the difference still gives `to`
  (`Calendar.DifferenceRoundTrip`): 2000-01-31 plus one month and -1 day is
  "30 February", that is 1 March.
- The name validators check `minLength: 2` on the raw value, without trimming.
- The day, month and year fields also carry react-hook-form's `required` rule.
  It fires first on empty text.

## Model

| member | source | states |
|---|---|---|
| `JsText.IsJsWhitespace` | src/App.tsx:167 | the ECMAScript WhiteSpace and LineTerminator code points, the class shared by `\s`, `trim` (line 120) and `parseInt` (lines 93-95) |
| `JsText.DigitsOfLength` | src/App.tsx:183 | the regular expressions `^[0-9]{1,2}$` (lines 183 and 205) and `^[0-9]{4}$` (line 220): lo to hi ASCII digits and nothing else |
| `JsText.NatToString` | src/App.tsx:189 | the decimal text of a number is non-empty, all digits, has no leading zero and denotes the number |
| `JsText.DigitPrefix` | src/App.tsx:93-95 | what `parseInt` reads is the longest run of digits at the start of the text |
| `JsText.TrimStartDropsWhitespace` | src/App.tsx:120 | dropping leading white space removes exactly a white-space prefix |
| `JsText.Trim` | src/App.tsx:120 | `trim` returns a middle slice with only white space around it, has no white space at either end, and is empty exactly for all-white-space text |
| `JsText.ParseIntOfParts` | src/App.tsx:93-95 | white space, an optional sign, digits and text not starting with a digit parse to the signed value of the digits |
| `JsText.ParseIntOfDigits` | src/App.tsx:182 | a string of digits parses to its decimal value |
| `JsText.ParseIntWithoutDigits` | src/App.tsx:96 | text without a digit parses to NaN |
| `JsText.ParseIntOfNonNumber` | src/App.tsx:93-96 | white space, an optional sign and then anything but a digit (such as "a1", "-+5", " -x2") parse to NaN; with `ParseIntOfParts` this says exactly which texts give a number |
| `JsText.ParseInt` | src/App.tsx:93-95 | `parseInt(s, 10)`: leading white space skipped, an optional sign, the longest run of digits, NaN without one; characterized by `ParseIntOfParts` and `ParseIntOfNonNumber` |
| `JsText.ParseIntOfNatToString` | src/App.tsx:93-95 | rendering a number and parsing it back gives the number |
| `Calendar.JsRemainder` | src/App.tsx:9 | JavaScript's `%` stays strictly between -b and b, agrees with Euclidean `%` on non-negative dividends, and for a negative dividend is not positive and leaves `a - r` equal to `b` times the truncated quotient |
| `Calendar.IsLeap` | src/App.tsx:8-10 | `isLeap` as written, with JavaScript's `%`; `IsLeapGregorian` relates it to the Euclidean rule |
| `Calendar.IsLeapGregorian` | src/App.tsx:8-10 | `isLeap` with JavaScript's `%` is the Gregorian rule (divisible by 4 and not by 100, or by 400), negative years included |
| `Calendar.LeapCycle` | src/App.tsx:8-10 | leap years repeat every 400 years |
| `Calendar.MaxDaysInMonth` | src/App.tsx:12-16 | a month has 28..31 days: under 30 only for February, 29 exactly in leap years, 30 exactly for April, June, September and November, otherwise 31 |
| `Calendar.YearLengthLeap` | src/App.tsx:12-16 | the twelve month lengths add up to 366 in a leap year and 365 otherwise |
| `Calendar.DayOrdinalOrder` | src/App.tsx:100 | the day numbers of valid dates follow year/month/day order, and equal day numbers mean equal dates |
| `Calendar.MidnightAfterInstant` | src/App.tsx:109 | a birth date at 00:00 is later than the clock's instant exactly when its date is after the clock's date, whatever the time of day |
| `Calendar.PrevMonthLength` | src/App.tsx:23 | `new Date(y, m, 0).getDate()`: the length of the month whose index is one less than `to`'s (December of the year before for January), hence 28..31 days, under 30 exactly when `to` is in March |
| `Calendar.ElapsedYmd` | src/App.tsx:18-32 | the reference the subtraction is proved against: whole months elapsed split into years and months 0..11 (years·12 + months is the whole-month count); what its days mean is `DifferenceRoundTrip` |
| `Calendar.DifferenceRoundTrip` | src/App.tsx:18-32 | for `from` not after `to`, moving `from` on by the years and months and then by the days, with `Date`'s overflow across month ends, lands exactly on `to`'s day number, negative days included |
| `Calendar.DifferenceYmd` | src/App.tsx:18-32 | the field-by-field subtraction with its two borrows yields 0..11 months, years·12 + months equal to the whole months elapsed, and the elapsed-months difference |
| `Calendar.DifferenceBounds` | src/App.tsx:18-32 | months are 0..11 and days -2..30, and years are not negative when `from` is not after `to` |
| `Calendar.DifferenceSameDayOfMonth` | src/App.tsx:19-21 | on the same day of the month the days are 0 and the result is the plain month difference |
| `Calendar.DifferenceBorrow` | src/App.tsx:22-26 | a borrow takes one month off and the days are `to`'s day minus `from`'s day plus the previous month's length; they are negative exactly when `from`'s day exceeds `to`'s day plus that length |
| `Calendar.DifferenceNoBorrow` | src/App.tsx:19-21 | without a borrow the days are `to`'s day minus `from`'s day, 0 up to one less than `to`'s month length, and the months are the plain month difference |
| `Calendar.DifferenceToSelf` | src/App.tsx:18-32 | a date against itself gives (0, 0, 0) |
| `Calendar.DifferenceExamples` | src/App.tsx:18-32 | gives (34, 0, 0), (33, 11, 25) and (0, 1, -1) for the three worked examples |
| `Validators.ValidateName` | src/App.tsx:145-158 | a name is accepted exactly when it has at least two characters (white space counts); empty text gives the field's required message, one character gives "Mínimo 2 letras" |
| `Validators.ValidateFirstName` | src/App.tsx:145-148 | accepted exactly at two or more characters; empty gives "Informe o nome", one character "Mínimo 2 letras" |
| `Validators.ValidateLastName` | src/App.tsx:155-158 | accepted exactly at two or more characters; empty gives "Informe o sobrenome", one character "Mínimo 2 letras" |
| `Validators.MatchesEmailPattern` | src/App.tsx:167 | the regular expression `^[^\s@]+@[^\s@]+\.[^\s@]+$` as an index split at an `@` and a later `.` with non-empty runs around them |
| `Validators.EmailPatternIff` | src/App.tsx:167 | the email pattern matches exactly the texts with no white space, exactly one `@` with text before it, and a domain with a dot that has text on both sides |
| `Validators.ValidateEmail` | src/App.tsx:165-168 | accepted exactly for that shape; empty gives "Informe o email", other rejects "Email inválido" |
| `Validators.Truthy` | src/App.tsx:187 | a parsed number as the condition `m && y`: false for NaN and for 0 |
| `Validators.FitsTypedMonth` | src/App.tsx:185-190 | the day fits the typed month unless month and year both parse to non-zero numbers and the day exceeds that month's length |
| `Validators.ValidateDay` | src/App.tsx:179-193 | empty gives "Informe o dia"; otherwise non-1–2-digit text gives "Somente números", then values outside 1..31 give "Dia inválido", then, when month and year parse to non-zero numbers, a day past that month's length gives "Máx: {n} dias"; accepted exactly otherwise |
| `Validators.ValidateMonth` | src/App.tsx:201-209 | accepted exactly for one or two digits with value 1..12; empty gives "Informe o mês", other text that is not one or two digits "Somente números", one or two digits outside 1..12 "Mês inválido" |
| `Validators.ValidateYear` | src/App.tsx:217-225 | accepted exactly for four digits with value 1900..current year; "Use 4 dígitos", then "Ano muito antigo" below 1900, then "Futuro não permitido" above the current year |
| `Validators.YearBoundaries` | src/App.tsx:220-223 | "1899" is too old, the current year is accepted, the next year is refused as future |
| `Validators.Day32Refused` | src/App.tsx:184 | day 32 is refused whatever the month and year |
| `Validators.Feb29In2023Refused` | src/App.tsx:185-190 | 29 with month 2 and year 2023 is refused with "Máx: 28 dias" |
| `Validators.Feb29In2024Accepted` | src/App.tsx:185-191 | 29 with month 2 and year 2024 is accepted |
| `AgeForm.BuildBirthDate` | src/App.tsx:92-101 | a date is built exactly when the three fields parse and form a valid date (year ≥ 0, month 1..12, day within the month), and it is that date |
| `AgeForm.BirthDateOfText` | src/App.tsx:92-101 | every valid date typed as plain decimal numbers is rebuilt as itself |
| `AgeForm.BirthDateIgnoresTrailingText` | src/App.tsx:93-95 | text after the day's digits does not stop the date from being built |
| `AgeForm.April31Rejected` | src/App.tsx:97-99 | 31/4/2020 builds no date |
| `AgeForm.ValidFieldsGiveBirthDate` | src/App.tsx:179-225 | when day, month and year all pass their validators, the birth date is built from their decimal values and its year lies in 1900..current year |
| `AgeForm.FullName` | src/App.tsx:120 | the full name has no white space at either end, and is empty exactly when both names are blank |
| `AgeForm.FullNameCases` | src/App.tsx:120 | the full name is the trimmed first name, the trimmed last name, or both joined by one space, whichever are not blank |
| `AgeForm.DisplayName` | src/App.tsx:267 | "A pessoa" when both names are blank, otherwise the non-empty full name |
| `AgeForm.Form.constructor` | src/App.tsx:86-89 | a new form has every field empty, no form-wide error and no successful submit |
| `AgeForm.Form.BirthDate` | src/App.tsx:91-101 | the form's birth date is `BuildBirthDate` of its day, month and year texts: when present a valid date whose day is what the day field parses to |
| `AgeForm.Form.ValidFormHasBirthDate` | src/App.tsx:141-228 | when all six fields pass their validators, a birth date exists with its year in 1900..current year |
| `AgeForm.Form.Change` | src/App.tsx:145-217 | editing a field sets that field and leaves the other fields, the error and the submit flag alone |
| `AgeForm.BirthIsLater` | src/App.tsx:109 | `birthDate > today`: the birth date at 00:00 has a later time value than the clock's instant (`MidnightAfterInstant` turns this into date order) |
| `AgeForm.Form.Submit` | src/App.tsx:103-113 | the fields are untouched; no birth date sets "Data inválida."; a birth date after today sets "A data deve ser no passado."; otherwise there is no form-wide error, and success is flagged exactly then |
| `AgeForm.Form.Result` | src/App.tsx:115-118 | a result exists exactly when a birth date exists and is not after today; it is the elapsed difference, with years ≥ 0, months 0..11 and days -2..30 |
| `AgeForm.Form.Reset` | src/App.tsx:246 | every field is empty, the error and the submit flag are cleared, and no birth date remains |
| `AgeForm.BornToday` | src/App.tsx:115-118 | today's date typed in builds a birth date that is not after today, with result (0, 0, 0) |

## Left out

- `nowInTZ` and `useBrasiliaNow` (src/App.tsx:34-63) are not modelled. They read the clock through `Intl.DateTimeFormat` in the America/Sao_Paulo time zone and refresh once a minute. The clock reading is a parameter (`Instant`) of `Submit` and `Result`.
- The year validator reads the machine clock (`new Date().getFullYear()`). That year is the `currentYear` parameter.
- `useTheme` (src/App.tsx:65-73) is not modelled. It is local-storage and DOM class I/O.
- The JSX, the clock display with `padStart`, and the success sentence are not modelled, except the name fallback (`DisplayName`).
- src/components/InputField.tsx and src/components/ResultRow.tsx are not part of this model. They are presentational.
- The `maxLength` attributes of the date inputs are not modelled. They limit typing in the browser; the validators are modelled on any text.
- react-hook-form itself is not modelled. This covers validation on blur, `handleSubmit` running `onSubmit` only when every field is valid, and the per-field error store. The validators are pure functions instead.
- `AgeForm.Form.Submit`: react-hook-form computes `isSubmitSuccessful` itself. The model takes it as "the last submit left no form-wide error".
- `AgeForm.Form.Reset`: clearing the errors and the submit flag is react-hook-form's default `reset` behaviour. The model states it; it is not in the source text.
- `AgeForm.BuildBirthDate`: the JavaScript `Date` constructor maps years 0–99 to 1900–1999. The model keeps the typed year, so it differs for years 0–99. For year 0 it also differs on 29 February, because 1900 is not a leap year.
- `AgeForm.BuildBirthDate`: `parseInt` yields a double. Digit strings past 2^53 are rounded, and those past about 309 digits become Infinity, which `Number.isFinite` rejects. The model uses exact integers, so such text still builds a date.
- `AgeForm.BuildBirthDate`: a year past 275760 (or in 275760 after 13 September) makes `new Date(...)` an Invalid Date, whose time value is outside ±8.64e15 ms. The source then compares it with `today` as false and `differenceYMD` returns NaN fields, with no form-wide error. The model has no Invalid Date: it builds the date, `Submit` reports it as later than today and `Result` gives no result.
- `Validators.ValidateDay`: `parseInt` of the month and year texts yields a double as well. A year text such as "4000000000000000001" rounds to 4e18, a leap year, so the source accepts day "29" with month "2"; the model parses the year exactly, a common year, and gives "Máx: 28 dias". The inputs' `maxLength` keeps such text out in the browser.
- `Calendar.DifferenceYmd`: the model assumes `to` has a year outside 0–99. For those years `new Date(y, m, 0)` is subject to the same 1900 mapping.
- `Validators.ValidateName`: `minLength` counts UTF-16 code units, so a character outside the Basic Multilingual Plane counts twice. The model counts Unicode scalar values.
- `Calendar.MidnightAfterInstant`: `Date` values are compared as minute counts of their wall-clock fields. Time-zone offsets and a daylight-saving gap at midnight, which moves a local midnight to 01:00, are not modelled.
